/** Which users an event about a chat goes to and which chat id it carries, for each of
    the handlers that send one, and the tables the handlers work on. */
module Routing {
  import opened ByteStrings
  import opened Chats

  /** The requests about an existing chat that send an event. */
  datatype Kind = EditMessage | MarkAsRead | EditDraft | DeleteMessages | DeleteAllMessages

  /** `Sent`: the real chat acted on, the id in the event and the receivers in order.
      `Panicked` is the unwrap of a group row that is gone. */
  datatype Route = Refused | Panicked | Sent(chat: int, eventChat: int, receivers: seq<int>)

  function Known(t: Tables, users: seq<int>): seq<int> {
    if users == [] then [] else (if users[0] in t.users then [users[0]] else []) + Known(t, users[1..])
  }

  function Others(users: seq<int>, actor: int): seq<int> {
    if users == [] then [] else (if users[0] != actor then [users[0]] else []) + Others(users[1..], actor)
  }

  function GroupReceivers(t: Tables, actor: int, chat: int): seq<int>
    requires chat in t.chats
  {
    Others(Known(t, t.chats[chat].participants), actor)
  }

  /** Each handler has its own test for a group and its own choice of the event's id. */
  function RouteOf(t: Tables, kind: Kind, actor: int, key: int): Route {
    match Associated(t, actor, key)
    case None => Refused
    case Some(chat) =>
      var isPrivate := if kind == EditMessage || kind == DeleteMessages then chat >= 0 else key > 0;
      if isPrivate then Sent(chat, actor, [key])
      else if chat !in t.chats then if kind == DeleteAllMessages then Refused else Panicked
      else
        var eventChat := if kind == EditMessage || kind == EditDraft then chat else key;
        Sent(chat, eventChat, GroupReceivers(t, actor, chat))
  }

  /** The new-message and the typing-interrupt events of a sent message, in the tables after
      the chat was found or created. */
  function RouteOfMessage(t: Tables, actor: int, to: int, chat: int): Route
    requires chat in t.chats
  {
    if t.chats[chat].isGroup then Sent(chat, chat, GroupReceivers(t, actor, chat))
    else Sent(chat, actor, [to])
  }

  /** The requirement on every event: its receivers are the participants of the chat acted
      on without the actor, each once, and each of them knows that chat under the id the
      event carries. */
  ghost predicate RightlyRouted(t: Tables, actor: int, route: Route) {
    route.Sent? && route.chat in t.chats && Distinct(route.receivers) &&
    (forall u :: u in route.receivers <==> u in t.chats[route.chat].participants && u != actor) &&
    (forall u | u in route.receivers :: Associated(t, u, route.eventChat) == Some(route.chat))
  }

  lemma {:induction false} OthersMeaning(users: seq<int>, actor: int)
    requires Distinct(users)
    ensures Distinct(Others(users, actor))
    ensures forall u :: u in Others(users, actor) <==> u in users && u != actor
  {
    if users != [] {
      var rest := Others(users[1..], actor);
      OthersMeaning(users[1..], actor);
      assert users == [users[0]] + users[1..];
      forall j | 0 <= j < |rest| ensures rest[j] != users[0] {
        var later := rest[j];
        assert later in rest && later in users[1..];
      }
    }
  }

  lemma {:induction false} AllKnown(t: Tables, users: seq<int>)
    requires forall u | u in users :: u in t.users
    ensures Known(t, users) == users
  {
    if users != [] {
      AllKnown(t, users[1..]);
      var first := users[0];
      assert first in users && first in t.users;
      assert Known(t, users) == [users[0]] + Known(t, users[1..]);
    }
  }

  lemma {:induction false} GroupRoute(t: Tables, actor: int, chat: int)
    requires Inv(t) && chat in t.chats && t.chats[chat].isGroup
    ensures RightlyRouted(t, actor, Sent(chat, chat, GroupReceivers(t, actor, chat)))
  {
    assert RowOk(t, chat);
    var row := t.chats[chat];
    AllKnown(t, row.participants);
    OthersMeaning(row.participants, actor);
    forall u | u in GroupReceivers(t, actor, chat) ensures Associated(t, u, chat) == Some(chat) {
      assert EntryOk(t, u, chat);
    }
  }

  /** The different group tests of the handlers agree. */
  lemma {:induction false} GroupTestsAgree(t: Tables, actor: int, key: int)
    requires Inv(t) && Associated(t, actor, key).Some?
    ensures var chat := Associated(t, actor, key).value;
            && (key < 0 <==> chat < 0) && chat != 0 && key != 0
            && (chat in t.chats ==> (t.chats[chat].isGroup <==> chat < 0))
            && (key > 0 ==> chat in t.chats)
  {
    var chat := t.users[actor][key];
    assert EntryOk(t, actor, key);
    assert chat in t.chats ==> RowOk(t, chat);
  }

  /** In every table state of every run, each kind of event is sent exactly when the actor
      knows the chat and its row still exists, and is then rightly routed. */
  lemma {:induction false} EventsAreRightlyRouted(ops: seq<Op>, kind: Kind, actor: int, key: int)
    requires LegalRun(EMPTY, ops)
    ensures var t := Run(EMPTY, ops);
            var route := RouteOf(t, kind, actor, key);
            (route.Sent? <==> exists chat :: Associated(t, actor, key) == Some(chat) && chat in t.chats) &&
            (route.Sent? ==> Associated(t, actor, key) == Some(route.chat) && RightlyRouted(t, actor, route))
  {
    EveryRunKeepsIdentity(EMPTY, ops);
    RouteIsRight(Run(EMPTY, ops), kind, actor, key);
  }

  lemma {:induction false} RouteIsRight(t: Tables, kind: Kind, actor: int, key: int)
    requires Inv(t)
    ensures var route := RouteOf(t, kind, actor, key);
            (route.Sent? <==> exists chat :: Associated(t, actor, key) == Some(chat) && chat in t.chats) &&
            (route.Sent? ==> Associated(t, actor, key) == Some(route.chat) && RightlyRouted(t, actor, route))
  {
    if Associated(t, actor, key).Some? {
      var chat := Associated(t, actor, key).value;
      GroupTestsAgree(t, actor, key);
      assert EntryOk(t, actor, key);
      if key > 0 {
        PrivateRoute(t, actor, key);
      } else if chat in t.chats {
        GroupRoute(t, actor, chat);
      }
    }
  }

  lemma {:induction false} PrivateRoute(t: Tables, actor: int, peer: int)
    requires Inv(t) && peer > 0 && Associated(t, actor, peer).Some?
    ensures RightlyRouted(t, actor, Sent(Associated(t, actor, peer).value, actor, [peer]))
  {
    assert EntryOk(t, actor, peer);
  }

  /** A message is accepted exactly when its target is a known peer, another registered
      user or an existing group; the chat it is stored in then exists, and its events are
      rightly routed, also when the chat was created by this message. */
  lemma {:induction false} MessagesAreRightlyRouted(ops: seq<Op>, actor: int, to: int, drawn: int)
    requires LegalRun(EMPTY, ops) && Legal(Run(EMPTY, ops), Send(actor, to, drawn))
    ensures MessageIsRight(Run(EMPTY, ops), actor, to, drawn)
  {
    EveryRunKeepsIdentity(EMPTY, ops);
    MessageRouteIsRight(Run(EMPTY, ops), actor, to, drawn);
  }

  ghost predicate MessageIsRight(t: Tables, actor: int, to: int, drawn: int) {
    var now := Step(t, Send(actor, to, drawn));
    var target := SendTarget(t, actor, to);
    && (target != NoTarget <==> actor != to && (to in t.users || (to <= 0 && to in t.chats)))
    && (target != NoTarget ==>
          var chat := if target == Create then drawn else target.chat;
          chat in now.chats && RightlyRouted(now, actor, RouteOfMessage(now, actor, to, chat)) &&
          (to > 0 ==> Associated(now, actor, to) == Some(chat)))
  }

  lemma {:induction false} MessageRouteIsRight(t: Tables, actor: int, to: int, drawn: int)
    requires Inv(t) && Legal(t, Send(actor, to, drawn))
    ensures MessageIsRight(t, actor, to, drawn)
  {
    StepKeepsInv(t, Send(actor, to, drawn));
    var now := Step(t, Send(actor, to, drawn));
    var target := SendTarget(t, actor, to);
    assert to in t.users[actor] ==> EntryOk(t, actor, to);
    if target != NoTarget {
      var chat := if target == Create then drawn else target.chat;
      assert RowOk(now, chat);
      if to > 0 {
        PrivateRoute(now, actor, to);
      } else {
        GroupRoute(now, actor, chat);
      }
    }
  }

  /** The other participants hear of a new participant, under the group's id. */
  lemma {:induction false} JoinEventIsRightlyRouted(t: Tables, actor: int, link: string, chat: int)
    requires Inv(t) && Legal(t, Join(actor, link, Some(chat)))
    requires Step(t, Join(actor, link, Some(chat))) != t
    ensures RightlyRouted(Step(t, Join(actor, link, Some(chat))), actor,
                          Sent(chat, chat, Known(t, t.chats[chat].participants)))
  {
    var now := Step(t, Join(actor, link, Some(chat)));
    StepKeepsInv(t, Join(actor, link, Some(chat)));
    assert RowOk(t, chat) && RowOk(now, chat);
    var participants := t.chats[chat].participants;
    AllKnown(t, participants);
    forall u | u in participants ensures Associated(now, u, chat) == Some(chat) {
      assert EntryOk(now, u, chat);
    }
  }

  /** After a member deletes a group its other members still hold the group's id, and
      their next mark-as-read, draft or edit runs into the missing row. */
  lemma {:induction false} DeletedGroupPanics(t: Tables, actor: int, other: int, key: int, kind: Kind)
    requires Inv(t) && key < 0 && other != actor
    requires Associated(t, actor, key).Some? && Associated(t, other, key).Some?
    ensures RouteOf(Step(t, DeleteChat(actor, key)), kind, other, key) ==
            if kind == DeleteAllMessages then Refused else Panicked
  {
    assert EntryOk(t, actor, key) && EntryOk(t, other, key);
  }

  // ---------- a run that reaches the missing row ----------

  lemma {:induction false} RunCons(t: Tables, op: Op, ops: seq<Op>)
    requires Legal(t, op) && LegalRun(Step(t, op), ops)
    ensures LegalRun(t, [op] + ops) && Run(t, [op] + ops) == Run(Step(t, op), ops)
  {
    hide Legal, Step;
    assert ([op] + ops)[1..] == ops;
  }

  /** Two users share a group by an invitation link. */
  const SHARED := Tables(map[1 := map[-5 := -5], 2 := map[-5 := -5]],
                         map[-5 := ChatRow(true, [1, 2], Some("+x"))], {1, 2, -5}, {"+x"})

  const SHARING: seq<Op> :=
    [Register(1)] + ([Register(2)] + ([NewGroup(1, -5)] + ([NewLink(1, -5, "+x")] + ([Join(2, "+x", Some(-5))] + []))))

  lemma {:induction false} GroupIsShared()
    ensures LegalRun(EMPTY, SHARING) && Run(EMPTY, SHARING) == SHARED
  {
    var alone := Tables(map[1 := map[]], map[], {1}, {});
    var both := Tables(map[1 := map[], 2 := map[]], map[], {1, 2}, {});
    var group := Tables(map[1 := map[-5 := -5], 2 := map[]], map[-5 := ChatRow(true, [1], None)], {1, 2, -5}, {});
    var linked := group.(chats := map[-5 := ChatRow(true, [1], Some("+x"))], usedLinks := {"+x"});
    assert Step(EMPTY, Register(1)) == alone && Step(alone, Register(2)) == both;
    assert Step(both, NewGroup(1, -5)) == group && Step(group, NewLink(1, -5, "+x")) == linked;
    var joined := Step(linked, Join(2, "+x", Some(-5)));
    assert IsInvitation("+x") && [1] + [2] == [1, 2];
    assert joined.users == SHARED.users && joined.chats == SHARED.chats;
    RunCons(linked, Join(2, "+x", Some(-5)), []);
    RunCons(group, NewLink(1, -5, "+x"), [Join(2, "+x", Some(-5))] + []);
    RunCons(both, NewGroup(1, -5), [NewLink(1, -5, "+x")] + ([Join(2, "+x", Some(-5))] + []));
    RunCons(alone, Register(2), [NewGroup(1, -5)] + ([NewLink(1, -5, "+x")] + ([Join(2, "+x", Some(-5))] + [])));
    RunCons(EMPTY, Register(1),
            [Register(2)] + ([NewGroup(1, -5)] + ([NewLink(1, -5, "+x")] + ([Join(2, "+x", Some(-5))] + []))));
  }

  lemma {:induction false} RunThen(t: Tables, ops: seq<Op>, op: Op)
    requires LegalRun(t, ops) && Legal(Run(t, ops), op)
    ensures LegalRun(t, ops + [op]) && Run(t, ops + [op]) == Step(Run(t, ops), op)
    decreases |ops|
  {
    hide Legal, Step;
    if ops == [] {
      assert ops + [op] == [op] && [op][1..] == [];
    } else {
      assert (ops + [op])[1..] == ops[1..] + [op];
      RunThen(Step(t, ops[0]), ops[1..], op);
    }
  }

  /** One of the two deletes the group; the other's mark-as-read panics. */
  lemma {:induction false} DeletedGroupExample()
    ensures var ops := SHARING + [DeleteChat(1, -5)];
            LegalRun(EMPTY, ops) && RouteOf(Run(EMPTY, ops), MarkAsRead, 2, -5) == Panicked
  {
    GroupIsShared();
    RunThen(EMPTY, SHARING, DeleteChat(1, -5));
  }
}
