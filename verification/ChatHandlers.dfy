/** The handlers of requests about chats, working in place on the `chats` column of the
    users table and on the chats table. Each is one step of `Chats.Step`, or sends an event
    along `Routing.RouteOf`. */
module ChatHandlers {
  import opened ByteStrings
  import opened Chats
  import opened Routing

  class ChatHandler {
    var users: map<int, map<int, int>>
    var chats: map<int, ChatRow>
    ghost var used: set<int>
    ghost var usedLinks: set<string>

    ghost function View(): Tables
      reads this
    {
      Tables(users, chats, used, usedLinks)
    }

    constructor ()
      ensures View() == EMPTY
    {
      users, chats, used, usedLinks := map[], map[], {}, {};
    }

    // ---------- the users table ----------

    method Register(id: int)
      requires Legal(View(), Op.Register(id))
      modifies this
      ensures View() == Step(old(View()), Op.Register(id))
      ensures Registered(old(View()), View(), id)
    {
      users, used := users[id := map[]], used + {id};
    }

    method GetAssociatedChatId(user: int, key: int) returns (chat: Option<int>)
      ensures chat == Associated(View(), user, key)
    {
      chat := None;
      if user in users {
        var row := users[user];
        if key in row {
          chat := Some(row[key]);
        }
      }
    }

    method AddAssociatedChat(user: int, key: int, chat: int)
      modifies this`users
      ensures View() == AddAssociated(old(View()), user, key, chat)
    {
      if user in users {
        users := users[user := users[user][key := chat]];
      }
    }

    method RemoveAssociatedChat(user: int, key: int)
      modifies this`users
      ensures View() == RemoveAssociated(old(View()), user, key)
    {
      if user in users {
        var row := users[user];
        row := row - {key};
        users := users[user := row];
      }
    }

    // ---------- the chats table ----------

    /** The row with the participants that are still users. */
    method FetchChat(chat: int) returns (row: Option<ChatRow>)
      ensures row == if chat in chats
                     then Some(chats[chat].(participants := Known(View(), chats[chat].participants)))
                     else None
    {
      if chat !in chats {
        return None;
      }
      var ids := chats[chat].participants;
      var known: seq<int> := [];
      for i := 0 to |ids|
        invariant known + Known(View(), ids[i..]) == Known(View(), ids)
      {
        assert ids[i..][1..] == ids[i + 1..];
        if ids[i] in users {
          known := known + [ids[i]];
        }
      }
      assert known + [] == known;
      row := Some(chats[chat].(participants := known));
    }

    method AddChatRow(chat: int, row: ChatRow)
      modifies this
      ensures View() == AddChat(old(View()), chat, row)
    {
      chats, used := chats[chat := row], used + {chat};
    }

    method AddParticipant(chat: int, user: int)
      requires chat in chats
      modifies this`chats
      ensures var row := old(chats)[chat];
              chats == old(chats)[chat := row.(participants := row.participants + [user])]
    {
      var row := chats[chat];
      chats := chats[chat := row.(participants := row.participants + [user])];
    }

    // ---------- requests that change the tables ----------

    /** The chat found or created for a message, and where its events go; the tables are
        those after the step. */
    method HandleSendMessage(actor: int, to: int, drawn: int) returns (route: Route)
      requires Legal(View(), Send(actor, to, drawn))
      modifies this
      ensures View() == Step(old(View()), Send(actor, to, drawn))
      ensures var target := SendTarget(old(View()), actor, to);
              var chat := if target.Existing? then target.chat else drawn;
              if target == NoTarget then route == Refused
              else chat in chats && route == RouteOfMessage(View(), actor, to, chat)
      ensures Opened(old(View()), View(), actor, to, drawn)
    {
      SendMeaning(View(), actor, to, drawn);
      route := Refused;
      if actor == to {
        return;
      }
      var found;
      if to > 0 {
        found := GetAssociatedChatId(actor, to);
      } else if to in chats {
        found := Some(to);
      } else {
        return;
      }
      var chat;
      if found.Some? {
        chat := found.value;
      } else {
        if to !in users {
          return;
        }
        chat := drawn;
        AddChatRow(chat, ChatRow(false, [actor, to], None));
        AddAssociatedChat(actor, to, chat);
        AddAssociatedChat(to, actor, chat);
      }
      var row := FetchChat(chat);
      if row == None {
        return;
      }
      if row.value.isGroup {
        var receivers := WithoutActor(row.value.participants, actor);
        route := Sent(chat, chat, receivers);
      } else {
        route := Sent(chat, actor, [to]);
      }
    }

    method HandleNewGroup(actor: int, drawn: int)
      requires Legal(View(), NewGroup(actor, drawn))
      modifies this
      ensures View() == Step(old(View()), NewGroup(actor, drawn))
      ensures Founded(old(View()), View(), actor, drawn)
    {
      NewGroupMeaning(View(), actor, drawn);
      AddChatRow(drawn, ChatRow(true, [actor], None));
      AddAssociatedChat(actor, drawn, drawn);
    }

    method HandleNewInvitationLink(actor: int, key: int, link: string) returns (ok: bool)
      requires Legal(View(), NewLink(actor, key, link))
      modifies this
      ensures View() == Step(old(View()), NewLink(actor, key, link))
      ensures ok <==> View() != old(View())
      ensures Linked(old(View()), View(), actor, key, link)
    {
      NewLinkMeaning(View(), actor, key, link);
      var chat := GetAssociatedChatId(actor, key);
      if chat != Some(key) || key > 0 || key !in chats {
        return false;
      }
      chats := chats[key := chats[key].(invitation := Some(link))];
      usedLinks := usedLinks + {link};
      assert link in usedLinks && link !in old(usedLinks);
      ok := true;
    }

    /** `found` is what the index on invitation links answers. The receivers are the
        participants before the actor is added. */
    method OnJoinGroup(actor: int, link: string, found: Option<int>) returns (route: Route)
      requires Legal(View(), Join(actor, link, found))
      modifies this
      ensures View() == Step(old(View()), Join(actor, link, found))
      ensures route == if View() == old(View()) then Refused
                       else Sent(found.value, found.value,
                                 Known(old(View()), old(chats)[found.value].participants))
      ensures old(Inv(View())) ==> Joined(old(View()), View(), actor, link)
    {
      if Inv(View()) {
        JoinMeaning(View(), actor, link, found);
      }
      route := Refused;
      if !IsInvitation(link) || found == None {
        return;
      }
      var chat := found.value;
      var row := FetchChat(chat);
      var held := GetAssociatedChatId(actor, chat);
      if held.Some? {
        return;
      }
      AddAssociatedChat(actor, chat, chat);
      AddParticipant(chat, actor);
      assert chat in users[actor] && chat !in old(users)[actor];
      route := Sent(chat, chat, row.value.participants);
    }

    method OnDeleteChat(actor: int, key: int) returns (ok: bool)
      requires Legal(View(), DeleteChat(actor, key))
      modifies this
      ensures View() == Step(old(View()), DeleteChat(actor, key))
      ensures ok <==> Associated(old(View()), actor, key).Some?
      ensures Deleted(old(View()), View(), actor, key)
    {
      DeleteMeaning(View(), actor, key);
      var chat := GetAssociatedChatId(actor, key);
      if chat == None {
        return false;
      }
      chats := chats - {chat.value};
      RemoveAssociatedChat(actor, key);
      RemoveAssociatedChat(key, actor);
      ok := true;
    }

    // ---------- events about an existing chat ----------

    method WithoutActor(participants: seq<int>, actor: int) returns (receivers: seq<int>)
      ensures receivers == Others(participants, actor)
    {
      receivers := [];
      for i := 0 to |participants|
        invariant receivers + Others(participants[i..], actor) == Others(participants, actor)
      {
        ghost var rest := Others(participants[i + 1..], actor);
        assert participants[i..][1..] == participants[i + 1..];
        if participants[i] != actor {
          assert (receivers + [participants[i]]) + rest == receivers + ([participants[i]] + rest);
          receivers := receivers + [participants[i]];
        }
      }
      assert receivers + [] == receivers;
    }

    method ToGroup(actor: int, chat: int, eventChat: int, missing: Route) returns (route: Route)
      ensures route == if chat in chats then Sent(chat, eventChat, GroupReceivers(View(), actor, chat)) else missing
    {
      var row := FetchChat(chat);
      if row == None {
        return missing;
      }
      var receivers := WithoutActor(row.value.participants, actor);
      route := Sent(chat, eventChat, receivers);
    }

    method RouteEditMessage(actor: int, key: int) returns (route: Route)
      ensures route == RouteOf(View(), EditMessage, actor, key)
    {
      var chat := GetAssociatedChatId(actor, key);
      if chat == None {
        return Refused;
      }
      if !(chat.value < 0) {
        return Sent(chat.value, actor, [key]);
      }
      route := ToGroup(actor, chat.value, chat.value, Panicked);
    }

    method RouteMarkAsRead(actor: int, key: int) returns (route: Route)
      ensures route == RouteOf(View(), MarkAsRead, actor, key)
    {
      var chat := GetAssociatedChatId(actor, key);
      if chat == None {
        return Refused;
      }
      if key > 0 {
        return Sent(chat.value, actor, [key]);
      }
      route := ToGroup(actor, chat.value, key, Panicked);
    }

    method RouteEditDraft(actor: int, key: int) returns (route: Route)
      ensures route == RouteOf(View(), EditDraft, actor, key)
    {
      var chat := GetAssociatedChatId(actor, key);
      if chat == None {
        return Refused;
      }
      var eventChat := if key > 0 then actor else chat.value;
      if key > 0 {
        return Sent(chat.value, eventChat, [key]);
      }
      route := ToGroup(actor, chat.value, eventChat, Panicked);
    }

    /** The loop that sends one event per participant, skipping the actor. */
    method RouteDeleteMessages(actor: int, key: int) returns (route: Route)
      ensures route == RouteOf(View(), DeleteMessages, actor, key)
    {
      var chat := GetAssociatedChatId(actor, key);
      if chat == None {
        return Refused;
      }
      if !(chat.value < 0) {
        return Sent(chat.value, actor, [key]);
      }
      route := ToGroup(actor, chat.value, key, Panicked);
    }

    method RouteDeleteAllMessages(actor: int, key: int) returns (route: Route)
      ensures route == RouteOf(View(), DeleteAllMessages, actor, key)
    {
      var chat := GetAssociatedChatId(actor, key);
      if chat == None {
        return Refused;
      }
      if key > 0 {
        return Sent(chat.value, actor, [key]);
      }
      route := ToGroup(actor, chat.value, key, Refused);
    }
  }
}
