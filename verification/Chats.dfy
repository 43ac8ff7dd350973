/** Chat identity and event routing. Each user has a map from the chat ids that user sees
    to real chat ids: a peer's user id stands for the private chat with that peer, a
    group's id stands for itself. */
module Chats {
  import opened ByteStrings

  datatype ChatRow = ChatRow(isGroup: bool, participants: seq<int>, invitation: Option<string>)

  /** The `chats` column of the users table and the chats table; `used` and `usedLinks`
      hold every id and link ever drawn. */
  datatype Tables = Tables(
    users: map<int, map<int, int>>, chats: map<int, ChatRow>, used: set<int>, usedLinks: set<string>)

  const EMPTY := Tables(map[], map[], {}, {})

  /** The requests that change the tables, with the random values they draw. A join comes
      with the row that the index on invitation links finds. */
  datatype Op =
    | Register(id: int)
    | Send(actor: int, to: int, drawn: int)
    | NewGroup(actor: int, drawn: int)
    | NewLink(actor: int, chat: int, link: string)
    | Join(actor: int, link: string, found: Option<int>)
    | DeleteChat(actor: int, key: int)

  // ---------- table operations ----------

  function Associated(t: Tables, user: int, key: int): Option<int> {
    if user in t.users && key in t.users[user] then Some(t.users[user][key]) else None
  }

  function AddAssociated(t: Tables, user: int, key: int, chat: int): Tables {
    if user in t.users then t.(users := t.users[user := t.users[user][key := chat]]) else t
  }

  function RemoveAssociated(t: Tables, user: int, key: int): Tables {
    if user in t.users then t.(users := t.users[user := t.users[user] - {key}]) else t
  }

  function AddChat(t: Tables, id: int, row: ChatRow): Tables {
    t.(chats := t.chats[id := row], used := t.used + {id})
  }

  predicate IsInvitation(link: string) {
    link != [] && link[0] == '+'
  }

  // ---------- requests ----------

  /** Who may ask, and freshness of what is drawn. */
  ghost predicate Legal(t: Tables, op: Op) {
    match op
    case Register(id) => id > 0 && id !in t.used
    case Send(actor, to, drawn) => actor in t.users && drawn > 0 && drawn !in t.used
    case NewGroup(actor, drawn) => actor in t.users && drawn < -1 && drawn !in t.used
    case NewLink(actor, chat, link) => actor in t.users && IsInvitation(link) && link !in t.usedLinks
    case Join(actor, link, found) => actor in t.users && Finds(t, link, found)
    case DeleteChat(actor, key) => actor in t.users
  }

  ghost predicate Finds(t: Tables, link: string, found: Option<int>) {
    match found
    case Some(chat) => chat in t.chats && t.chats[chat].invitation == Some(link)
    case None => forall chat | chat in t.chats :: t.chats[chat].invitation != Some(link)
  }

  /** Which chat a message goes to. */
  datatype Target = NoTarget | Existing(chat: int) | Create

  function SendTarget(t: Tables, actor: int, to: int): Target {
    if actor == to then NoTarget
    else if to > 0 then
      match Associated(t, actor, to)
      case Some(chat) => if chat in t.chats then Existing(chat) else NoTarget
      case None => if to in t.users then Create else NoTarget
    else if to in t.chats then Existing(to)
    else NoTarget
  }

  /** A refused request leaves the tables as they are. */
  function Step(t: Tables, op: Op): Tables {
    match op
    case Register(id) => t.(users := t.users[id := map[]], used := t.used + {id})
    case Send(actor, to, drawn) =>
      if SendTarget(t, actor, to) == Create then
        AddAssociated(
          AddAssociated(AddChat(t, drawn, ChatRow(false, [actor, to], None)), actor, to, drawn), to, actor, drawn)
      else t
    case NewGroup(actor, drawn) =>
      AddAssociated(AddChat(t, drawn, ChatRow(true, [actor], None)), actor, drawn, drawn)
    case NewLink(actor, chat, link) =>
      if Associated(t, actor, chat) == Some(chat) && chat <= 0 && chat in t.chats then
        t.(chats := t.chats[chat := t.chats[chat].(invitation := Some(link))], usedLinks := t.usedLinks + {link})
      else t
    case Join(actor, link, found) =>
      if IsInvitation(link) && found.Some? && found.value in t.chats && Associated(t, actor, found.value) == None then
        var row := t.chats[found.value];
        var joined := AddAssociated(t, actor, found.value, found.value);
        joined.(chats := t.chats[found.value := row.(participants := row.participants + [actor])])
      else t
    case DeleteChat(actor, key) =>
      match Associated(t, actor, key)
      case None => t
      case Some(chat) =>
        RemoveAssociated(RemoveAssociated(t.(chats := t.chats - {chat}), actor, key), key, actor)
  }

  ghost predicate LegalRun(t: Tables, ops: seq<Op>)
    decreases |ops|
  {
    ops == [] || (Legal(t, ops[0]) && LegalRun(Step(t, ops[0]), ops[1..]))
  }

  function Run(t: Tables, ops: seq<Op>): Tables
    decreases |ops|
  {
    if ops == [] then t else Run(Step(t, ops[0]), ops[1..])
  }

  // ---------- what each request does ----------

  /** Only this row and these entries of the users' maps may differ. */
  ghost predicate OnlyChanges(t: Tables, next: Tables, chat: int, entries: set<(int, int)>) {
    && (forall c | c != chat :: c in next.chats <==> c in t.chats)
    && (forall c | c != chat && c in t.chats :: next.chats[c] == t.chats[c])
    && (forall u :: u in next.users <==> u in t.users)
    && (forall u, k | (u, k) !in entries :: Associated(next, u, k) == Associated(t, u, k))
  }

  /** A deletion by someone who knows the chat: the row is gone, for everybody, and so are
      the actor's entry and a peer's entry for the actor; any other deletion does nothing. */
  ghost predicate Deleted(t: Tables, next: Tables, actor: int, key: int) {
    match Associated(t, actor, key)
    case None => next == t
    case Some(chat) =>
      && chat !in next.chats && Associated(next, actor, key) == None && Associated(next, key, actor) == None
      && OnlyChanges(t, next, chat, {(actor, key), (key, actor)})
  }

  lemma {:induction false} DeleteMeaning(t: Tables, actor: int, key: int)
    ensures Deleted(t, Step(t, DeleteChat(actor, key)), actor, key)
  {
  }

  /** A new user knows no chat. */
  ghost predicate Registered(t: Tables, next: Tables, id: int) {
    && id in next.users && next.users[id] == map[] && next.chats == t.chats
    && (forall u | u != id :: u in next.users <==> u in t.users)
    && (forall u | u != id && u in t.users :: next.users[u] == t.users[u])
  }

  lemma {:induction false} RegisterMeaning(t: Tables, id: int)
    ensures Registered(t, Step(t, Register(id)), id)
  {
  }

  /** The first message between two users makes a private chat of the two that both know
      under the other's id; any other message leaves the tables alone. */
  ghost predicate Opened(t: Tables, next: Tables, actor: int, to: int, drawn: int) {
    if actor != to && to > 0 && to in t.users && Associated(t, actor, to) == None then
      && drawn in next.chats && next.chats[drawn] == ChatRow(false, [actor, to], None)
      && Associated(next, actor, to) == Some(drawn) && Associated(next, to, actor) == Some(drawn)
      && OnlyChanges(t, next, drawn, {(actor, to), (to, actor)})
    else next == t
  }

  lemma {:induction false} SendMeaning(t: Tables, actor: int, to: int, drawn: int)
    requires Legal(t, Send(actor, to, drawn))
    ensures Opened(t, Step(t, Send(actor, to, drawn)), actor, to, drawn)
  {
  }

  /** A new group has its founder as the only participant, who knows it by its own id. */
  ghost predicate Founded(t: Tables, next: Tables, actor: int, drawn: int) {
    && drawn in next.chats && next.chats[drawn] == ChatRow(true, [actor], None)
    && Associated(next, actor, drawn) == Some(drawn) && OnlyChanges(t, next, drawn, {(actor, drawn)})
  }

  lemma {:induction false} NewGroupMeaning(t: Tables, actor: int, drawn: int)
    requires Legal(t, NewGroup(actor, drawn))
    ensures Founded(t, Step(t, NewGroup(actor, drawn)), actor, drawn)
  {
  }

  /** Somebody who knows a chat under its own id, not positive, and whose row is there, gives
      it the new link, and nothing else changes; nobody else can. */
  ghost predicate Linked(t: Tables, next: Tables, actor: int, chat: int, link: string) {
    if Associated(t, actor, chat) == Some(chat) && chat <= 0 && chat in t.chats then
      && chat in next.chats && next.chats[chat].invitation == Some(link)
      && next.chats[chat].isGroup == t.chats[chat].isGroup && next.chats[chat].participants == t.chats[chat].participants
      && OnlyChanges(t, next, chat, {})
    else next == t
  }

  lemma {:induction false} NewLinkMeaning(t: Tables, actor: int, chat: int, link: string)
    ensures Linked(t, Step(t, NewLink(actor, chat, link)), actor, chat, link)
  {
  }

  ghost predicate MayJoin(t: Tables, actor: int, link: string, chat: int) {
    && link != [] && link[0] == '+' && chat in t.chats && t.chats[chat].invitation == Some(link)
    && Associated(t, actor, chat) == None
  }

  /** Who comes with the link of a chat and does not know it yet is its last participant
      and knows it by its own id; nobody else joins. */
  ghost predicate Joined(t: Tables, next: Tables, actor: int, link: string) {
    if exists chat :: MayJoin(t, actor, link, chat) then
      exists chat ::
        && MayJoin(t, actor, link, chat)
        && chat in next.chats && next.chats[chat].participants == t.chats[chat].participants + [actor]
        && next.chats[chat].isGroup == t.chats[chat].isGroup && next.chats[chat].invitation == Some(link)
        && Associated(next, actor, chat) == Some(chat) && OnlyChanges(t, next, chat, {(actor, chat)})
    else next == t
  }

  lemma {:induction false} JoinMeaning(t: Tables, actor: int, link: string, found: Option<int>)
    requires Inv(t) && Legal(t, Join(actor, link, found))
    ensures Joined(t, Step(t, Join(actor, link, found)), actor, link)
  {
    if exists chat :: MayJoin(t, actor, link, chat) {
      var chat :| MayJoin(t, actor, link, chat);
      assert found == Some(chat);
      var next := Step(t, Join(actor, link, found));
      assert OnlyChanges(t, next, chat, {(actor, chat)});
    } else if found.Some? {
      assert !MayJoin(t, actor, link, found.value);
    }
  }

  // ---------- the identity invariant ----------

  ghost predicate Pair(row: ChatRow, a: int, b: int) {
    !row.isGroup && row.invitation == None && (row.participants == [a, b] || row.participants == [b, a])
  }

  /** An entry of a user's map. A positive key is a peer whose map holds the same chat
      under this user's id, and that private chat is between the two; a negative key
      stands for itself. */
  ghost predicate EntryOk(t: Tables, user: int, key: int)
    requires user in t.users && key in t.users[user]
  {
    var chat := t.users[user][key];
    if key > 0 then
      key != user && key in t.users && user in t.users[key] && t.users[key][user] == chat &&
      chat > 0 && chat in t.chats && Pair(t.chats[chat], user, key)
    else key < 0 && chat == key && key in t.used
  }

  /** A chat row. A group's participants are distinct and are exactly the users who hold
      its id as a key; a private chat is in the maps of its two participants. */
  ghost predicate RowOk(t: Tables, chat: int)
    requires chat in t.chats
  {
    var row := t.chats[chat];
    && chat != 0 && chat in t.used && (row.isGroup <==> chat < 0)
    && (row.invitation.Some? ==> row.isGroup && row.invitation.value in t.usedLinks)
    && (row.isGroup ==>
          Distinct(row.participants) &&
          (forall u :: u in row.participants <==> u in t.users && chat in t.users[u]))
    && (!row.isGroup ==>
          |row.participants| == 2 &&
          var (a, b) := (row.participants[0], row.participants[1]);
          a != b && a in t.users && b in t.users[a] && t.users[a][b] == chat)
  }

  ghost predicate Inv(t: Tables) {
    && (forall user | user in t.users :: user > 0 && user in t.used)
    && (forall user, key | user in t.users && key in t.users[user] :: EntryOk(t, user, key))
    && (forall chat | chat in t.chats :: RowOk(t, chat))
    && (forall a, b | a in t.chats && b in t.chats && a != b && t.chats[a].invitation.Some? ::
          t.chats[a].invitation != t.chats[b].invitation)
  }

  lemma {:induction false} RegisterKeepsInv(t: Tables, id: int)
    requires Inv(t) && Legal(t, Register(id))
    ensures Inv(Step(t, Register(id)))
  {
    var next := Step(t, Register(id));
    forall user, key | user in next.users && key in next.users[user]
      ensures EntryOk(next, user, key)
    {
      assert EntryOk(t, user, key);
    }
    forall chat | chat in next.chats ensures RowOk(next, chat) {
      assert RowOk(t, chat);
    }
  }

  lemma {:induction false} CreateKeepsInv(t: Tables, actor: int, to: int, drawn: int)
    requires Inv(t) && Legal(t, Send(actor, to, drawn)) && SendTarget(t, actor, to) == Create
    ensures Inv(Step(t, Send(actor, to, drawn)))
  {
    var next := Step(t, Send(actor, to, drawn));
    assert actor in t.users[to] ==> EntryOk(t, to, actor);
    forall user, key | user in next.users && key in next.users[user]
      ensures EntryOk(next, user, key)
    {
      if !((user == actor && key == to) || (user == to && key == actor)) {
        assert EntryOk(t, user, key);
      }
    }
    forall chat | chat in next.chats ensures RowOk(next, chat) {
      if chat != drawn {
        assert RowOk(t, chat);
      }
    }
  }

  lemma {:induction false} NewGroupKeepsInv(t: Tables, actor: int, drawn: int)
    requires Inv(t) && Legal(t, NewGroup(actor, drawn))
    ensures Inv(Step(t, NewGroup(actor, drawn)))
  {
    var next := Step(t, NewGroup(actor, drawn));
    forall user, key | user in next.users && key in next.users[user]
      ensures EntryOk(next, user, key)
    {
      if !(user == actor && key == drawn) {
        assert EntryOk(t, user, key);
      }
    }
    forall u | u in t.users ensures drawn !in t.users[u] {
      assert drawn in t.users[u] ==> EntryOk(t, u, drawn);
    }
    forall chat | chat in next.chats ensures RowOk(next, chat) {
      if chat != drawn {
        assert RowOk(t, chat);
      }
    }
  }

  lemma {:induction false} NewLinkKeepsInv(t: Tables, actor: int, chat: int, link: string)
    requires Inv(t) && Legal(t, NewLink(actor, chat, link))
    ensures Inv(Step(t, NewLink(actor, chat, link)))
  {
    var next := Step(t, NewLink(actor, chat, link));
    forall user, key | user in next.users && key in next.users[user]
      ensures EntryOk(next, user, key)
    {
      assert EntryOk(t, user, key);
      if key > 0 {
        assert RowOk(t, t.users[user][key]);
      }
    }
    forall c | c in next.chats ensures RowOk(next, c) {
      assert RowOk(t, c);
    }
  }

  lemma {:induction false} JoinKeepsInv(t: Tables, actor: int, link: string, found: Option<int>)
    requires Inv(t) && Legal(t, Join(actor, link, found))
    ensures Inv(Step(t, Join(actor, link, found)))
  {
    hide Pair;
    var next := Step(t, Join(actor, link, found));
    if next != t {
      var chat := found.value;
      assert RowOk(t, chat);
      forall user, key | user in next.users && key in next.users[user]
        ensures EntryOk(next, user, key)
      {
        if !(user == actor && key == chat) {
          assert EntryOk(t, user, key);
        }
      }
      var before, after := t.chats[chat].participants, next.chats[chat].participants;
      assert after == before + [actor] && actor !in before;
      forall c | c in next.chats ensures RowOk(next, c) {
        assert RowOk(t, c);
      }
    }
  }

  /** A private chat is the chat of one pair of users only. */
  lemma {:induction false} OnePairPerChat(t: Tables, a: int, b: int, user: int, key: int)
    requires Inv(t)
    requires a in t.users && b in t.users[a] && b > 0
    requires user in t.users && key in t.users[user] && t.users[user][key] == t.users[a][b]
    ensures (user == a && key == b) || (user == b && key == a)
  {
    assert EntryOk(t, a, b) && EntryOk(t, user, key);
  }

  lemma {:induction false} DeleteKeepsEntries(t: Tables, actor: int, key: int)
    requires Inv(t) && actor in t.users && key in t.users[actor]
    ensures var next := Step(t, DeleteChat(actor, key));
            forall user, k | user in next.users && k in next.users[user] :: EntryOk(next, user, k)
  {
    hide RowOk;
    var next := Step(t, DeleteChat(actor, key));
    forall user, k | user in next.users && k in next.users[user]
      ensures EntryOk(next, user, k)
    {
      assert EntryOk(t, user, k) && EntryOk(t, actor, key);
      assert k > 0 && key > 0 && t.users[user][k] == t.users[actor][key] ==>
          (user == actor && k == key) || (user == key && k == actor) by {
        if k > 0 && key > 0 && t.users[user][k] == t.users[actor][key] {
          OnePairPerChat(t, actor, key, user, k);
        }
      }
    }
  }

  lemma {:induction false} DeleteKeepsRows(t: Tables, actor: int, key: int)
    requires Inv(t) && actor in t.users && key in t.users[actor]
    ensures var next := Step(t, DeleteChat(actor, key));
            forall c | c in next.chats :: RowOk(next, c)
  {
    var next := Step(t, DeleteChat(actor, key));
    assert EntryOk(t, actor, key);
    forall c | c in next.chats ensures RowOk(next, c) {
      assert RowOk(t, c);
    }
  }

  lemma {:induction false} DeleteKeepsInv(t: Tables, actor: int, key: int)
    requires Inv(t) && Legal(t, DeleteChat(actor, key))
    ensures Inv(Step(t, DeleteChat(actor, key)))
  {
    if key in t.users[actor] {
      DeleteKeepsEntries(t, actor, key);
      DeleteKeepsRows(t, actor, key);
    }
  }

  lemma {:induction false} StepKeepsInv(t: Tables, op: Op)
    requires Inv(t) && Legal(t, op)
    ensures Inv(Step(t, op))
  {
    match op
    case Register(id) => RegisterKeepsInv(t, id);
    case Send(actor, to, drawn) =>
      if SendTarget(t, actor, to) == Create {
        CreateKeepsInv(t, actor, to, drawn);
      }
    case NewGroup(actor, drawn) => NewGroupKeepsInv(t, actor, drawn);
    case NewLink(actor, chat, link) => NewLinkKeepsInv(t, actor, chat, link);
    case Join(actor, link, found) => JoinKeepsInv(t, actor, link, found);
    case DeleteChat(actor, key) => DeleteKeepsInv(t, actor, key);
  }

  /** Chat identity holds in every state of every run. */
  lemma {:induction false} EveryRunKeepsIdentity(t: Tables, ops: seq<Op>)
    requires Inv(t) && LegalRun(t, ops)
    ensures Inv(Run(t, ops))
    decreases |ops|
  {
    if ops != [] {
      StepKeepsInv(t, ops[0]);
      EveryRunKeepsIdentity(Step(t, ops[0]), ops[1..]);
    }
  }
}
