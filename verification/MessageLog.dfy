/** The message table: one partition per chat, its rows in clustering order, newest
    first. */
module MessageLog {
  import opened ByteStrings

  const MAX_ID := 0x7FFF_FFFF
  const AS_LAST_MESSAGE_IDX := -1

  datatype Row = Row(
    id: int, isUnread: bool, fromId: int, chatId: int, edited: bool, date: int, hasReply: bool, replyTo: int,
    hasContent: bool, content: string, hasHashes: bool, hashes: seq<string>)

  datatype Message = Message(
    messageId: int, isUnread: bool, fromId: int, chatId: int, isEdited: bool, date: int,
    replyTo: Option<int>, content: Option<string>, hashes: Option<seq<string>>)

  /** The parts of a send request that are stored. */
  datatype Draft = Draft(replyTo: Option<int>, text: Option<string>, hashes: Option<seq<string>>)

  /** The optional fields of an edit request. */
  datatype Edit = Edit(
    isUnread: Option<bool>, replyTo: Option<int>, content: Option<string>, hashes: Option<seq<string>>)

  type Log = seq<Row>

  ghost predicate NewestFirst(log: Log) {
    forall i, j | 0 <= i < j < |log| :: log[i].id > log[j].id
  }

  ghost predicate Sound(log: Log) {
    NewestFirst(log) && forall i | 0 <= i < |log| :: 0 <= log[i].id <= MAX_ID
  }

  /** Every row names the chat whose partition it is in. */
  ghost predicate InChat(log: Log, chat: int) {
    forall i | 0 <= i < |log| :: log[i].chatId == chat
  }

  /** 32-bit wrap-around. */
  function Wrap32(n: int): int {
    (n + 0x8000_0000) % 0x1_0000_0000 - 0x8000_0000
  }

  // ---------- queries ----------

  function ToMessage(row: Row): Message {
    Message(row.id, row.isUnread, row.fromId, row.chatId, row.edited, row.date,
            if row.hasReply then Some(row.replyTo) else None,
            if row.hasContent then Some(row.content) else None,
            if row.hasHashes then Some(row.hashes) else None)
  }

  function ToMessages(rows: seq<Row>): seq<Message> {
    seq(|rows|, i requires 0 <= i < |rows| => ToMessage(rows[i]))
  }

  function Latest(log: Log): Option<int> {
    if log == [] then None else Some(log[0].id)
  }

  /** `id >= low AND id <= high`, in clustering order. */
  function Window(log: Log, low: int, high: int): seq<Row> {
    if log == [] then []
    else (if low <= log[0].id <= high then [log[0]] else []) + Window(log[1..], low, high)
  }

  predicate Exists(log: Log, id: int) {
    exists i :: 0 <= i < |log| && log[i].id == id
  }

  /** Stored, and in a group the actor's own. */
  ghost predicate Deletable(log: Log, actor: int, chat: int, id: int) {
    exists i :: 0 <= i < |log| && log[i].id == id && (chat < 0 ==> log[i].fromId == actor)
  }

  /** What `validate_range` makes of a range. */
  function ValidRange(start: int, end: int): (int, int) {
    var (from, to) := if end < 0 then (Wrap32(start + end), start) else (start, end);
    (if from < 0 then 0 else from, to)
  }

  /** The table's answer to `fetch_messages(chat, start..end)`. */
  function Fetch(log: Log, start: int, end: int): seq<Message> {
    var first := if start != AS_LAST_MESSAGE_IDX then start else match Latest(log) case None => 0 case Some(id) => id;
    var (from, to) := ValidRange(first, end);
    ToMessages(Window(log, from, if to != 0 then to else from))
  }

  lemma {:induction false} WindowMembers(log: Log, low: int, high: int, row: Row)
    ensures row in Window(log, low, high) <==> row in log && low <= row.id <= high
  {
    if log != [] {
      WindowMembers(log[1..], low, high, row);
      assert log == [log[0]] + log[1..];
    }
  }

  /** A window holds exactly the rows of its interval, still newest first. */
  lemma {:induction false} WindowIsTheInterval(log: Log, low: int, high: int)
    requires NewestFirst(log)
    ensures NewestFirst(Window(log, low, high))
    ensures forall row :: row in Window(log, low, high) <==> row in log && low <= row.id <= high
  {
    forall row ensures row in Window(log, low, high) <==> row in log && low <= row.id <= high {
      WindowMembers(log, low, high, row);
    }
    if log != [] {
      var rest := Window(log[1..], low, high);
      WindowIsTheInterval(log[1..], low, high);
      forall j | 0 <= j < |rest| ensures log[0].id > rest[j].id {
        assert rest[j] in rest;
      }
    }
  }

  /** The interval that a client's range stands for, from `-1` (the latest message) up:
      to a positive end, the single message for end 0, or the `-end` messages before. */
  function Interval(log: Log, start: int, end: int): (int, int) {
    var first := if start != -1 then start else if log == [] then 0 else log[0].id;
    if end > 0 then (first, end)
    else (if first + end > 0 then first + end else 0, first)
  }

  /** For every range starting at -1 or above the fetch is that interval, without
      overflow. */
  lemma {:induction false} FetchIsTheInterval(log: Log, start: int, end: int)
    requires Sound(log)
    requires -1 <= start <= MAX_ID && -MAX_ID - 1 <= end <= MAX_ID
    ensures Fetch(log, start, end) == ToMessages(Window(log, Interval(log, start, end).0, Interval(log, start, end).1))
  {
    var first := if start != -1 then start else if log == [] then 0 else log[0].id;
    assert 0 <= first <= MAX_ID;
    assert end < 0 ==> Wrap32(first + end) == first + end;
  }

  /** Below -1 the sum can wrap; it does exactly when it leaves the 32-bit range. */
  lemma {:induction false} RangeOverflow(start: int, end: int)
    requires -MAX_ID - 1 <= start <= MAX_ID && -MAX_ID - 1 <= end < 0
    ensures ValidRange(start, end) == (if start + end < 0 then 0 else start + end, start)
       <==> -MAX_ID - 1 <= start + end || start + end == -2 * MAX_ID - 2
  {
  }

  // ---------- paging ----------

  lemma {:induction false} WindowSplits(log: Log, low: int, middle: int, high: int)
    requires NewestFirst(log) && low <= middle <= high + 1
    ensures Window(log, low, high) == Window(log, middle, high) + Window(log, low, middle - 1)
  {
    if log != [] {
      WindowSplits(log[1..], low, middle, high);
      var rest := log[1..];
      var a, b := Window(rest, middle, high), Window(rest, low, middle - 1);
      if log[0].id < middle {
        NothingAbove(log, middle, high);
        NothingAbove(rest, middle, high);
        assert [] + b == b && [] + Window(log, low, middle - 1) == Window(log, low, middle - 1);
      } else {
        assert [] + b == b && [log[0]] + a + b == [log[0]] + (a + b) && [] + a == a;
      }
    }
  }

  lemma {:induction false} NothingAbove(log: Log, low: int, high: int)
    requires forall i | 0 <= i < |log| :: log[i].id < low
    ensures Window(log, low, high) == []
  {
    if log != [] {
      NothingAbove(log[1..], low, high);
    }
  }

  lemma {:induction false} WholeWindow(log: Log, low: int, high: int)
    requires forall i | 0 <= i < |log| :: low <= log[i].id <= high
    ensures Window(log, low, high) == log
  {
    if log != [] {
      WholeWindow(log[1..], low, high);
    }
  }

  /** A client that fetches `k + 1` ids at a time, from id `start` down to 0. */
  function Pages(log: Log, start: int, k: nat): seq<Message>
    decreases start + 1
  {
    if start < 0 then [] else Fetch(log, start, 0 - k) + Pages(log, start - (k + 1), k)
  }

  lemma {:induction false} PagesCoverWindow(log: Log, start: int, k: nat)
    requires Sound(log) && start <= MAX_ID && k <= MAX_ID
    ensures Pages(log, start, k) == ToMessages(Window(log, 0, start))
    decreases start + 1
  {
    if start < 0 {
      NothingIn(log, 0, start);
    } else {
      FetchIsTheInterval(log, start, 0 - k);
      PagesCoverWindow(log, start - (k + 1), k);
      OnePage(log, start, k);
    }
  }

  lemma {:induction false} OnePage(log: Log, start: int, k: nat)
    requires NewestFirst(log) && start >= 0
    ensures var low := if start - k > 0 then start - k else 0;
            ToMessages(Window(log, 0, start))
            == ToMessages(Window(log, low, start)) + ToMessages(Window(log, 0, start - (k + 1)))
  {
    var low := if start - k > 0 then start - k else 0;
    WindowSplits(log, 0, low, start);
    if start - k < 0 {
      NothingIn(log, 0, low - 1);
      NothingIn(log, 0, start - (k + 1));
    }
  }

  lemma {:induction false} NothingIn(log: Log, low: int, high: int)
    requires high < low
    ensures Window(log, low, high) == []
  {
    if log != [] {
      NothingIn(log[1..], low, high);
    }
  }

  /** Paging from the latest message down yields the whole log: no gap, no repeat. */
  lemma {:induction false} PagesAreTheLog(log: Log, k: nat)
    requires Sound(log) && log != [] && k <= MAX_ID
    ensures Pages(log, log[0].id, k) == ToMessages(log)
  {
    PagesCoverWindow(log, log[0].id, k);
    WholeWindow(log, 0, log[0].id);
  }

  // ---------- appending ----------

  function Insert(log: Log, row: Row): Log {
    if log == [] || row.id > log[0].id then [row] + log
    else if row.id == log[0].id then [row] + log[1..]
    else [log[0]] + Insert(log[1..], row)
  }

  function NextId(log: Log): int {
    match Latest(log)
    case None => 0
    case Some(id) => Wrap32(id + 1)
  }

  function NewRow(log: Log, sender: int, chat: int, date: int, draft: Draft): Row {
    Row(NextId(log), true, sender, chat, false, date,
        draft.replyTo.Some?, if draft.replyTo.Some? then draft.replyTo.value else 0,
        draft.text.Some?, if draft.text.Some? then draft.text.value else "",
        draft.hashes.Some?, if draft.hashes.Some? then draft.hashes.value else [])
  }

  /** Below the largest id an appended message gets an id above every stored one, and what
      `add_message` reads back is the message that was sent; at the largest id neither. */
  lemma {:induction false} AddedMessageIsReadBack(log: Log, sender: int, chat: int, date: int, draft: Draft)
    requires Sound(log)
    ensures var row := NewRow(log, sender, chat, date, draft);
            var sent := Message(NextId(log), true, sender, chat, false, date, draft.replyTo, draft.text, draft.hashes);
            var full := log != [] && log[0].id == MAX_ID;
            && (Fetch(Insert(log, row), -1, 0) == [sent] <==> !full)
            && (!full ==> Insert(log, row) == [row] + log && Sound(Insert(log, row)))
            && (!full ==> forall i | 0 <= i < |log| :: log[i].id < row.id)
  {
    if log == [] || log[0].id < MAX_ID {
      var row := NewRow(log, sender, chat, date, draft);
      var now := [row] + log;
      assert Insert(log, row) == now && Sound(now);
      ReadsBackTheNewest(now);
    } else {
      FullLogReadsBackTheOldest(log, NewRow(log, sender, chat, date, draft));
    }
  }

  lemma {:induction false} ReadsBackTheNewest(log: Log)
    requires Sound(log) && log != []
    ensures Fetch(log, -1, 0) == [ToMessage(log[0])]
  {
    FetchIsTheInterval(log, -1, 0);
    NewestAlone(log);
  }

  lemma {:induction false} FullLogReadsBackTheOldest(log: Log, row: Row)
    requires Sound(log) && log != [] && log[0].id == MAX_ID && row.id == -MAX_ID - 1
    ensures var read := Fetch(Insert(log, row), -1, 0);
            read != [] ==> read[0].messageId == MAX_ID
  {
    var now := Insert(log, row);
    assert now[0] == log[0];
    InsertKeepsOrder(log, row);
    var w := Window(now, MAX_ID, MAX_ID);
    WindowIsTheInterval(now, MAX_ID, MAX_ID);
    if w != [] {
      assert w[0] in w && ToMessages(w)[0].messageId == MAX_ID;
    }
  }

  lemma {:induction false} NewestAlone(log: Log)
    requires NewestFirst(log) && log != []
    ensures Window(log, log[0].id, log[0].id) == [log[0]]
  {
    NothingAbove(log[1..], log[0].id, log[0].id);
  }

  lemma {:induction false} InsertKeepsOrder(log: Log, row: Row)
    requires NewestFirst(log)
    ensures NewestFirst(Insert(log, row))
    ensures forall r | r in Insert(log, row) :: r == row || r in log
    decreases log
  {
    if log != [] && row.id < log[0].id {
      InsertKeepsOrder(log[1..], row);
      var rest := Insert(log[1..], row);
      forall j | 0 <= j < |rest| ensures rest[j].id < log[0].id {
        assert rest[j] in rest;
      }
    }
  }

  function Append(log: Log, sender: int, chat: int, date: int, draft: Draft): Log {
    Insert(log, NewRow(log, sender, chat, date, draft))
  }

  /** Ids of a log that only ever grew are 0, 1, 2, … */
  ghost predicate Dense(log: Log) {
    forall i | 0 <= i < |log| :: log[i].id == |log| - 1 - i
  }

  lemma {:induction false} AppendKeepsDense(log: Log, sender: int, chat: int, date: int, draft: Draft)
    requires Dense(log) && |log| <= MAX_ID
    ensures Dense(Append(log, sender, chat, date, draft))
    ensures |Append(log, sender, chat, date, draft)| == |log| + 1
  {
    var row := NewRow(log, sender, chat, date, draft);
    if log != [] {
      assert log[0].id == |log| - 1;
      assert Wrap32(|log|) == |log|;
    }
    assert Insert(log, row) == [row] + log;
  }

  // ---------- updates ----------

  /** `UPDATE … WHERE id = ?` on rows that exist. */
  function MarkRead(log: Log, ids: seq<int>): Log {
    seq(|log|, i requires 0 <= i < |log| =>
      if log[i].id in ids then log[i].(isUnread := false) else log[i])
  }

  function Remove(log: Log, ids: seq<int>): Log {
    if log == [] then []
    else (if log[0].id in ids then [] else [log[0]]) + Remove(log[1..], ids)
  }

  function Store(row: Row, message: Message): Row {
    row.(isUnread := message.isUnread,
         hasContent := message.content.Some?, content := if message.content.Some? then message.content.value else "",
         hasReply := message.replyTo.Some?, replyTo := if message.replyTo.Some? then message.replyTo.value else 0,
         hasHashes := message.hashes.Some?, hashes := if message.hashes.Some? then message.hashes.value else [],
         edited := true)
  }

  function Rewrite(log: Log, id: int, message: Message): Log {
    seq(|log|, i requires 0 <= i < |log| => if log[i].id == id then Store(log[i], message) else log[i])
  }

  function Overlay(edit: Edit, message: Message): Message {
    message.(isUnread := if edit.isUnread.Some? then !edit.isUnread.value else message.isUnread,
             replyTo := if edit.replyTo.Some? then edit.replyTo else message.replyTo,
             content := if edit.content.Some? then edit.content else message.content,
             hashes := edit.hashes)
  }

  function UnreadCount(log: Log): nat {
    if log == [] then 0 else (if log[0].isUnread then 1 else 0) + UnreadCount(log[1..])
  }

  /** The listed messages that are stored and unread, each once. */
  ghost function UnreadListed(log: Log, ids: seq<int>): set<int> {
    set i | 0 <= i < |log| && log[i].isUnread && log[i].id in ids :: log[i].id
  }

  lemma {:induction false} UnreadListedSplits(log: Log, ids: seq<int>)
    requires NewestFirst(log) && log != []
    ensures UnreadListed(log, ids)
         == (if log[0].isUnread && log[0].id in ids then {log[0].id} else {}) + UnreadListed(log[1..], ids)
    ensures log[0].id !in UnreadListed(log[1..], ids)
  {
    var rest := log[1..];
    forall id | id in UnreadListed(log, ids) && id != log[0].id ensures id in UnreadListed(rest, ids) {
      var i :| 0 <= i < |log| && log[i].isUnread && log[i].id in ids && log[i].id == id;
      assert rest[i - 1] == log[i];
    }
    forall id | id in UnreadListed(rest, ids) ensures id in UnreadListed(log, ids) {
      var i :| 0 <= i < |rest| && rest[i].isUnread && rest[i].id in ids && rest[i].id == id;
      assert log[i + 1] == rest[i];
    }
    if log[0].id in UnreadListed(log, ids) {
      var i :| 0 <= i < |log| && log[i].isUnread && log[i].id in ids && log[i].id == log[0].id;
      assert i == 0;
    }
  }

  /** Marking lowers the unread count by the number of distinct listed unread messages,
      whatever else the list holds and however often. */
  lemma {:induction false} MarkingLowersUnread(log: Log, ids: seq<int>)
    requires NewestFirst(log)
    ensures UnreadCount(MarkRead(log, ids)) == UnreadCount(log) - |UnreadListed(log, ids)|
    decreases log
  {
    if log == [] {
      assert UnreadListed(log, ids) == {};
    } else {
      MarkingLowersUnread(log[1..], ids);
      UnreadListedSplits(log, ids);
      var head := if log[0].isUnread && log[0].id in ids then {log[0].id} else {};
      var rest := UnreadListed(log[1..], ids);
      assert |head + rest| == |head| + |rest|;
      assert MarkRead(log, ids)[1..] == MarkRead(log[1..], ids);
    }
  }

  /** Exactly the listed messages are no longer unread; nothing else in any row changes. */
  lemma {:induction false} MarkingMeaning(log: Log, ids: seq<int>, i: nat)
    requires i < |log|
    ensures var (before, after) := (log[i], MarkRead(log, ids)[i]);
            && |MarkRead(log, ids)| == |log|
            && (after.isUnread <==> before.isUnread && before.id !in ids)
            && ToMessage(after).(isUnread := before.isUnread) == ToMessage(before)
            && after.(isUnread := before.isUnread) == before
  {
  }

  lemma {:induction false} MarkingKeepsOrder(log: Log, ids: seq<int>)
    requires Sound(log)
    ensures Sound(MarkRead(log, ids))
  {
  }

  lemma {:induction false} MarkOneMore(log: Log, ids: seq<int>, i: nat)
    requires i < |ids|
    ensures MarkRead(MarkRead(log, ids[..i]), [ids[i]]) == MarkRead(log, ids[..i + 1])
  {
    assert ids[..i + 1] == ids[..i] + [ids[i]];
  }

  lemma {:induction false} RemoveOneMore(log: Log, ids: seq<int>, i: nat)
    requires i < |ids|
    ensures Remove(Remove(log, ids[..i]), [ids[i]]) == Remove(log, ids[..i + 1])
    decreases log
  {
    assert ids[..i + 1] == ids[..i] + [ids[i]];
    if log != [] {
      RemoveOneMore(log[1..], ids, i);
      var kept, rest := Remove(log, ids[..i]), Remove(log[1..], ids[..i]);
      if log[0].id in ids[..i] {
        assert kept == rest;
        assert Remove(log, ids[..i + 1]) == Remove(log[1..], ids[..i + 1]);
      } else {
        assert kept[0] == log[0] && kept[1..] == rest;
      }
    }
  }

  lemma {:induction false} RemoveNothing(log: Log)
    ensures Remove(log, []) == log
  {
    if log != [] {
      RemoveNothing(log[1..]);
    }
  }

  /** Deletion removes the listed rows and nothing else. */
  lemma {:induction false} RemoveMeaning(log: Log, ids: seq<int>)
    ensures forall row :: row in Remove(log, ids) <==> row in log && row.id !in ids
  {
    if log != [] {
      RemoveMeaning(log[1..], ids);
      assert log == [log[0]] + log[1..];
    }
  }

  ghost predicate OthersStay(log: Log, now: Log, actor: int) {
    forall row | row in log && row.fromId != actor :: row in now
  }

  /** What may be deleted in a group is the actor's own. */
  lemma {:induction false} DeletionSparesOthers(log: Log, actor: int, chat: int, ids: seq<int>)
    requires NewestFirst(log) && forall j | 0 <= j < |ids| :: Deletable(log, actor, chat, ids[j])
    ensures chat < 0 ==> OthersStay(log, Remove(log, ids), actor)
    ensures forall j | 0 <= j < |ids| :: Exists(log, ids[j]) && !Exists(Remove(log, ids), ids[j])
  {
    RemoveMeaning(log, ids);
    if chat < 0 {
      forall row | row in log && row.fromId != actor ensures row in Remove(log, ids) {
        var k :| 0 <= k < |log| && log[k] == row;
        assert row.id !in ids;
      }
    }
    forall j | 0 <= j < |ids| ensures Exists(log, ids[j]) && !Exists(Remove(log, ids), ids[j]) {
      assert Deletable(log, actor, chat, ids[j]);
      if Exists(Remove(log, ids), ids[j]) {
        var i :| 0 <= i < |Remove(log, ids)| && Remove(log, ids)[i].id == ids[j];
        assert Remove(log, ids)[i] in Remove(log, ids);
      }
    }
  }

  lemma {:induction false} RemoveStaysBelow(log: Log, ids: seq<int>, bound: int)
    requires forall i | 0 <= i < |log| :: 0 <= log[i].id < bound
    ensures forall i | 0 <= i < |Remove(log, ids)| :: 0 <= Remove(log, ids)[i].id < bound
  {
    if log != [] {
      RemoveStaysBelow(log[1..], ids, bound);
    }
  }

  lemma {:induction false} RemoveKeepsOrder(log: Log, ids: seq<int>, chat: int)
    requires Sound(log) && InChat(log, chat)
    ensures Sound(Remove(log, ids)) && InChat(Remove(log, ids), chat)
  {
    if log != [] {
      RemoveKeepsOrder(log[1..], ids, chat);
      RemoveStaysBelow(log[1..], ids, log[0].id);
    }
  }

  lemma {:induction false} OneRow(log: Log, i: nat)
    requires NewestFirst(log) && i < |log|
    ensures Window(log, log[i].id, log[i].id) == [log[i]]
  {
    if i == 0 {
      NewestAlone(log);
    } else {
      OneRow(log[1..], i - 1);
    }
  }

  /** Fetching a stored id with end 0 returns that message alone. */
  lemma {:induction false} FetchOne(log: Log, i: nat)
    requires Sound(log) && i < |log|
    ensures Fetch(log, log[i].id, 0) == [ToMessage(log[i])]
  {
    FetchIsTheInterval(log, log[i].id, 0);
    OneRow(log, i);
  }

  /** What an edit asks for: the given text, reply and files are there, the text and the
      reply stay where none is given, files do not, `is_unread` stays where none is given
      and is else the opposite of what is given, and id, sender, chat and date are kept. */
  ghost predicate EditedAs(before: Message, edit: Edit, after: Message) {
    && (edit.content.Some? ==> after.content == Some(edit.content.value))
    && (edit.content.None? ==> after.content == before.content)
    && (edit.replyTo.Some? ==> after.replyTo == Some(edit.replyTo.value))
    && (edit.replyTo.None? ==> after.replyTo == before.replyTo)
    && after.hashes == edit.hashes
    && (edit.isUnread.Some? ==> (after.isUnread <==> !edit.isUnread.value))
    && (edit.isUnread.None? ==> (after.isUnread <==> before.isUnread))
    && after.messageId == before.messageId && after.fromId == before.fromId
    && after.chatId == before.chatId && after.date == before.date
  }

  /** The edited message, fetched by its id, is what the edit asks for, marked as edited;
      every other row is as it was. */
  ghost predicate EditReadBack(log: Log, now: Log, i: nat, edit: Edit)
    requires i < |log|
  {
    && Sound(now) && |now| == |log|
    && (forall j | 0 <= j < |log| && j != i :: now[j] == log[j])
    && var fetched := Fetch(now, log[i].id, 0);
       |fetched| == 1 && EditedAs(ToMessage(log[i]), edit, fetched[0]) && fetched[0].isEdited
  }

  /** The log changed from `log` to `now` by an edit of the actor's own message, and that
      message was sent as `message`. */
  ghost predicate OwnEdit(log: Log, now: Log, actor: int, id: int, edit: Edit, message: Message) {
    exists i ::
      0 <= i < |log| && log[i].id == id && log[i].fromId == actor && EditReadBack(log, now, i, edit) &&
      EditedAs(ToMessage(log[i]), edit, message) && message.isEdited == log[i].edited
  }

  ghost predicate HasOwn(log: Log, actor: int, id: int) {
    exists i :: 0 <= i < |log| && log[i].id == id && log[i].fromId == actor
  }

  lemma {:induction false} EditIsReadBack(log: Log, i: nat, edit: Edit)
    requires Sound(log) && i < |log|
    ensures var sent := Overlay(edit, ToMessage(log[i]));
            && EditReadBack(log, Rewrite(log, log[i].id, sent), i, edit)
            && EditedAs(ToMessage(log[i]), edit, sent) && sent.isEdited == log[i].edited
            && Fetch(Rewrite(log, log[i].id, sent), log[i].id, 0) == [sent.(isEdited := true)]
  {
    FetchOne(Rewrite(log, log[i].id, Overlay(edit, ToMessage(log[i]))), i);
  }

  /** The message sent to the other participants is the one a later fetch returns exactly
      when it had been edited before: the event's `is_edited` is the old one. */
  lemma {:induction false} EditEventIsStored(log: Log, i: nat, edit: Edit)
    requires Sound(log) && i < |log|
    ensures var sent := Overlay(edit, ToMessage(log[i]));
            Fetch(Rewrite(log, log[i].id, sent), log[i].id, 0) == [sent] <==> log[i].edited
  {
    EditIsReadBack(log, i, edit);
  }

  /** Exactly when an edit does what it says: all its given fields are then in the message
      and all others are kept. It fails for files that are not repeated and whenever an
      `is_unread` is given. */
  lemma {:induction false} EditDoesWhatItSays(edit: Edit, message: Message)
    ensures var after := Overlay(edit, message);
            && (edit.content.Some? ==> after.content == edit.content)
            && (edit.content.None? ==> after.content == message.content)
            && (edit.replyTo.Some? ==> after.replyTo == edit.replyTo)
            && (edit.replyTo.None? ==> after.replyTo == message.replyTo)
            && ((after.hashes == if edit.hashes.Some? then edit.hashes else message.hashes)
                <==> edit.hashes.Some? || message.hashes.None?)
            && ((after.isUnread == if edit.isUnread.Some? then edit.isUnread.value else message.isUnread)
                <==> edit.isUnread.None?)
  {
  }

  // ---------- the objects ----------

  class MessagesDB {
    var partitions: map<int, Log>

    function Partition(chat: int): Log
      reads this
    {
      if chat in partitions then partitions[chat] else []
    }

    ghost predicate Valid()
      reads this
    {
      forall chat | chat in partitions :: Sound(partitions[chat]) && InChat(partitions[chat], chat)
    }

    constructor ()
      ensures Valid() && partitions == map[]
    {
      partitions := map[];
    }

    method GetLatest(chat: int) returns (id: Option<int>)
      ensures id == Latest(Partition(chat))
    {
      id := Latest(Partition(chat));
    }

    method MessageExists(chat: int, id: int) returns (r: bool)
      ensures r <==> Exists(Partition(chat), id)
    {
      r := Exists(Partition(chat), id);
    }

    static method ValidateRange(start: int, end: int) returns (first: int, last: int)
      ensures (first, last) == ValidRange(start, end)
    {
      first, last := start, end;
      if last < 0 {
        var realStart := Wrap32(first + last);
        var realEnd := first;
        first := realStart;
        last := realEnd;
      }
      if first < 0 {
        first := 0;
      }
    }

    method FetchMessages(chat: int, rangeStart: int, rangeEnd: int) returns (output: seq<Message>)
      ensures output == Fetch(Partition(chat), rangeStart, rangeEnd)
    {
      var from := rangeStart;
      if from == AS_LAST_MESSAGE_IDX {
        var latest := GetLatest(chat);
        from := if latest.Some? then latest.value else 0;
      }
      var start, end := ValidateRange(from, rangeEnd);
      var rows: seq<Row>;
      if end != 0 {
        rows := Window(Partition(chat), start, end);
      } else {
        rows := Window(Partition(chat), start, start);
      }
      output := Convert(rows);
    }

    /** Drains the rows of a query into messages. */
    static method Convert(rows: seq<Row>) returns (output: seq<Message>)
      ensures output == ToMessages(rows)
    {
      output := [];
      for i := 0 to |rows|
        invariant |output| == i && forall k | 0 <= k < i :: output[k] == ToMessage(rows[k])
      {
        var row := rows[i];
        output := output + [
          Message(row.id, row.isUnread, row.fromId, row.chatId, row.edited, row.date,
                  if row.hasReply then Some(row.replyTo) else None,
                  if row.hasContent then Some(row.content) else None,
                  if row.hasHashes then Some(row.hashes) else None)];
      }
    }

    method AddMessage(draft: Draft, sender: int, chat: int, now: int) returns (message: Option<Message>)
      requires Valid()
      modifies this
      ensures partitions == old(partitions)[chat := Append(old(Partition(chat)), sender, chat, now, draft)]
      ensures Latest(old(Partition(chat))) != Some(MAX_ID) ==>
                Valid() &&
                message == Some(Message(NextId(old(Partition(chat))), true, sender, chat, false, now,
                                        draft.replyTo, draft.text, draft.hashes))
    {
      AddedMessageIsReadBack(Partition(chat), sender, chat, now, draft);
      var row := BuildRow(draft, sender, chat, now);
      partitions := partitions[chat := Insert(Partition(chat), row)];
      var messages := FetchMessages(chat, -1, 0);
      message := if messages == [] then None else Some(messages[0]);
    }

    method BuildRow(draft: Draft, sender: int, chat: int, now: int) returns (row: Row)
      ensures row == NewRow(Partition(chat), sender, chat, now, draft)
    {
      var latest := GetLatest(chat);
      var id := match latest case Some(n) => Wrap32(n + 1) case None => 0;
      var hasContent, content := false, "";
      if draft.text.Some? {
        hasContent, content := true, draft.text.value;
      }
      var hasHashes, hashes := false, [];
      if draft.hashes.Some? {
        hasHashes, hashes := true, draft.hashes.value;
      }
      row := Row(id, true, sender, chat, false, now,
                 draft.replyTo.Some?, if draft.replyTo.Some? then draft.replyTo.value else 0,
                 hasContent, content, hasHashes, hashes);
    }

    method MarkAsRead(chat: int, ids: seq<int>)
      requires Valid()
      modifies this
      ensures Valid()
      ensures Partition(chat) == MarkRead(old(Partition(chat)), ids)
      ensures forall c | c != chat :: Partition(c) == old(Partition(c))
    {
      assert MarkRead(Partition(chat), ids[..0]) == Partition(chat) && ids[..|ids|] == ids;
      for i := 0 to |ids|
        invariant Valid() && Partition(chat) == MarkRead(old(Partition(chat)), ids[..i])
        invariant forall c | c != chat :: Partition(c) == old(Partition(c))
      {
        MarkOneMore(old(Partition(chat)), ids, i);
        if chat in partitions {
          MarkingKeepsOrder(partitions[chat], [ids[i]]);
          partitions := partitions[chat := MarkRead(partitions[chat], [ids[i]])];
        }
      }
    }

    method EditMessage(id: int, chat: int, message: Message)
      requires Valid()
      modifies this
      ensures Valid() && Partition(chat) == Rewrite(old(Partition(chat)), id, message)
      ensures forall c | c != chat :: Partition(c) == old(Partition(c))
    {
      if chat in partitions {
        partitions := partitions[chat := Rewrite(partitions[chat], id, message)];
      }
    }

    method DeleteMessages(chat: int, ids: seq<int>)
      requires Valid()
      modifies this
      ensures Valid() && Partition(chat) == Remove(old(Partition(chat)), ids)
      ensures forall c | c != chat :: Partition(c) == old(Partition(c))
    {
      RemoveNothing(Partition(chat));
      assert ids[..0] == [] && ids[..|ids|] == ids;
      for i := 0 to |ids|
        invariant Valid() && Partition(chat) == Remove(old(Partition(chat)), ids[..i])
        invariant forall c | c != chat :: Partition(c) == old(Partition(c))
      {
        RemoveOneMore(old(Partition(chat)), ids, i);
        if chat in partitions {
          RemoveKeepsOrder(partitions[chat], [ids[i]], chat);
          partitions := partitions[chat := Remove(partitions[chat], [ids[i]])];
        }
      }
    }

    method DeleteAllMessages(chat: int)
      requires Valid()
      modifies this
      ensures Valid() && partitions == old(partitions) - {chat}
    {
      partitions := partitions - {chat};
    }

    method FetchUnreadCount(chat: int) returns (n: nat)
      ensures n == UnreadCount(Partition(chat))
    {
      n := UnreadCount(Partition(chat));
    }

    /** The checks of a delete request for the real chat it resolves to: every listed
        message exists and, in a group, is the actor's. */
    method CheckDeletable(actor: int, chat: int, ids: seq<int>) returns (ok: bool)
      requires Valid()
      ensures ok <==> forall j | 0 <= j < |ids| :: Deletable(Partition(chat), actor, chat, ids[j])
    {
      var log := Partition(chat);
      for k := 0 to |ids|
        invariant forall j | 0 <= j < k :: Exists(log, ids[j])
      {
        var found := MessageExists(chat, ids[k]);
        if !found {
          assert !Deletable(log, actor, chat, ids[k]);
          return false;
        }
      }
      if chat < 0 {
        for k := 0 to |ids|
          invariant forall j | 0 <= j < k :: Deletable(log, actor, chat, ids[j])
        {
          var info := FetchMessages(chat, ids[k], 0);
          var i :| 0 <= i < |log| && log[i].id == ids[k];
          FetchOne(log, i);
          if info[0].fromId != actor {
            assert !Deletable(log, actor, chat, ids[k]);
            return false;
          }
        }
      }
      ok := true;
    }

    /** A delete request is carried out whole or not at all. */
    method OnDeleteMessages(actor: int, chat: int, ids: seq<int>) returns (ok: bool)
      requires Valid()
      modifies this
      ensures Valid()
      ensures ok <==> forall j | 0 <= j < |ids| :: Deletable(old(Partition(chat)), actor, chat, ids[j])
      ensures Partition(chat) == if ok then Remove(old(Partition(chat)), ids) else old(Partition(chat))
      ensures chat < 0 ==> OthersStay(old(Partition(chat)), Partition(chat), actor)
      ensures forall c | c != chat :: Partition(c) == old(Partition(c))
    {
      ok := CheckDeletable(actor, chat, ids);
      if ok {
        DeletionSparesOthers(Partition(chat), actor, chat, ids);
        DeleteMessages(chat, ids);
      }
    }

    /** The checks and the update of an edit request; the result is the message of the
        event. Only the actor's own message changes, to what the edit asks for. */
    method OnEditMessage(actor: int, chat: int, id: int, edit: Edit) returns (event: Option<Message>)
      requires Valid()
      modifies this
      ensures Valid()
      ensures event.Some? <==> HasOwn(old(Partition(chat)), actor, id)
      ensures if event == None then Partition(chat) == old(Partition(chat))
              else OwnEdit(old(Partition(chat)), Partition(chat), actor, id, edit, event.value)
      ensures forall c | c != chat :: Partition(c) == old(Partition(c))
    {
      var log := Partition(chat);
      var found := MessageExists(chat, id);
      if !found {
        return None;
      }
      var i :| 0 <= i < |log| && log[i].id == id;
      FetchOne(log, i);
      var messages := FetchMessages(chat, id, 0);
      var existing := messages[0];
      if existing.fromId != actor {
        return None;
      }
      EditIsReadBack(log, i, edit);
      var edited := Overlay(edit, existing);
      EditMessage(id, chat, edited);
      event := Some(edited);
    }
  }
}
