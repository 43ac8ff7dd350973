/** Sessions shared by handlers: the connection list of each session, credentials written
    after a test made under an earlier lock, and the registry from user ids to sessions. A
    step is one critical section. Sessions and handlers are numbered in order of creation;
    a handler's number is also its connection's. */
module Sessions {
  import opened ByteStrings

  /** Where a handler is: waiting for a request; in an authentication, after the test under
      the read lock or after the write; waiting for a lock that it holds itself; dropped,
      before or after its clean-up ran. */
  datatype Stage = Idle | Checked | Written | Stuck | Leaving | Gone

  datatype Credentials = Credentials(userId: int, sessionId: string)

  datatype SessionRow = SessionRow(sessionId: Option<string>, userId: Option<int>, connections: seq<nat>)

  datatype HandlerRow = HandlerRow(session: nat, stage: Stage)

  datatype State = State(sessions: seq<SessionRow>, handlers: seq<HandlerRow>, registry: map<int, nat>)

  const INITIAL := State([], [], map[])

  datatype Event =
    | Connect
    | Check(handler: nat)
    | Write(handler: nat, answer: Option<Credentials>)
    | Enter(handler: nat)
    | Bind(handler: nat, user: int, sessionId: string)
    | Leave(handler: nat)
    | CleanUp(handler: nat)

  ghost predicate Shape(t: State) {
    && |t.sessions| == |t.handlers|
    && (forall h | 0 <= h < |t.handlers| :: t.handlers[h].session < |t.sessions|)
    && (forall u | u in t.registry :: t.registry[u] < |t.sessions|)
  }

  function Own(t: State, h: nat): (s: SessionRow)
    requires Shape(t) && h < |t.handlers|
  {
    t.sessions[t.handlers[h].session]
  }

  predicate IsAuthenticated(s: SessionRow) {
    s.sessionId.Some? && s.userId.Some?
  }

  /** The session registered for the user has the session id given. */
  predicate BindMatches(t: State, user: int, sessionId: string)
    requires Shape(t)
  {
    user in t.registry && t.sessions[t.registry[user]].sessionId == Some(sessionId)
  }

  /** And that is not the session the handler already has, whose lock it would take twice. */
  predicate BindsElsewhere(t: State, h: nat, user: int, sessionId: string)
    requires Shape(t) && h < |t.handlers|
  {
    BindMatches(t, user, sessionId) && t.registry[user] != t.handlers[h].session
  }

  /** A handler does one thing at a time. */
  ghost predicate Enabled(t: State, e: Event)
    requires Shape(t)
  {
    match e
    case Connect => true
    case Check(h) => h < |t.handlers| && t.handlers[h].stage == Idle
    case Write(h, answer) => h < |t.handlers| && t.handlers[h].stage == Checked
    case Enter(h) => h < |t.handlers| && t.handlers[h].stage == Written
    case Bind(h, user, sessionId) => h < |t.handlers| && t.handlers[h].stage == Idle
    case Leave(h) => h < |t.handlers| && t.handlers[h].stage == Idle
    case CleanUp(h) => h < |t.handlers| && t.handlers[h].stage == Leaving
  }

  function Without(connections: seq<nat>, c: nat): seq<nat> {
    if connections == [] then []
    else (if connections[0] != c then [connections[0]] else []) + Without(connections[1..], c)
  }

  function Staged(t: State, h: nat, stage: Stage): State
    requires h < |t.handlers|
  {
    t.(handlers := t.handlers[h := t.handlers[h].(stage := stage)])
  }

  function WithSession(t: State, s: nat, row: SessionRow): State
    requires s < |t.sessions|
  {
    t.(sessions := t.sessions[s := row])
  }

  function Step(t: State, e: Event): (next: State)
    requires Shape(t) && Enabled(t, e)
    ensures Shape(next)
  {
    match e
    case Connect =>
      State(t.sessions + [SessionRow(None, None, [|t.handlers|])],
            t.handlers + [HandlerRow(|t.sessions|, Idle)], t.registry)
    case Check(h) => if IsAuthenticated(Own(t, h)) then t else Staged(t, h, Checked)
    case Write(h, answer) =>
      if answer == None then Staged(t, h, Idle)
      else
        var written := Own(t, h).(sessionId := Some(answer.value.sessionId), userId := Some(answer.value.userId));
        Staged(WithSession(t, t.handlers[h].session, written), h, Written)
    case Enter(h) =>
      var entered := if IsAuthenticated(Own(t, h)) then t.registry[Own(t, h).userId.value := t.handlers[h].session]
                     else t.registry;
      Staged(t, h, Idle).(registry := entered)
    case Bind(h, user, sessionId) =>
      if BindsElsewhere(t, h, user, sessionId) then Moved(t, h, t.registry[user])
      else if BindMatches(t, user, sessionId) then Staged(t, h, Stuck)
      else t
    case Leave(h) => Staged(t, h, Leaving)
    case CleanUp(h) =>
      var left := Own(t, h).(connections := Without(Own(t, h).connections, h));
      var next := Staged(WithSession(t, t.handlers[h].session, left), h, Gone);
      if IsAuthenticated(left) && left.connections == [] then next.(registry := t.registry - {left.userId.value})
      else next
  }

  /** The handler's connection leaves the handler's session for session `b`. */
  function Moved(t: State, h: nat, b: nat): State
    requires Shape(t) && h < |t.handlers| && b < |t.sessions| && b != t.handlers[h].session
  {
    var s := t.handlers[h].session;
    var left := t.sessions[s].(connections := Without(t.sessions[s].connections, h));
    var joined := t.sessions[b].(connections := t.sessions[b].connections + [h]);
    var next := WithSession(WithSession(t, s, left), b, joined);
    next.(handlers := t.handlers[h := t.handlers[h].(session := b)])
  }

  /** An authentication whose three critical sections follow one another. */
  function Authentication(t: State, h: nat, answer: Option<Credentials>): State
    requires Shape(t) && Enabled(t, Check(h))
  {
    if IsAuthenticated(Own(t, h)) then t
    else
      var written := Step(Step(t, Check(h)), Write(h, answer));
      if answer == None then written else Step(written, Enter(h))
  }

  ghost predicate Runs(t: State, events: seq<Event>)
    requires Shape(t)
    decreases |events|
  {
    events == [] || (Enabled(t, events[0]) && Runs(Step(t, events[0]), events[1..]))
  }

  function Run(t: State, events: seq<Event>): (end: State)
    requires Shape(t) && Runs(t, events)
    ensures Shape(end)
    decreases |events|
  {
    if events == [] then t else Run(Step(t, events[0]), events[1..])
  }

  // ---------- what every step keeps ----------

  /** The connections listed in a session are those of its handlers that are not cleaned up. */
  ghost predicate ListOk(t: State, s: nat)
    requires Shape(t) && s < |t.sessions|
  {
    var list := t.sessions[s].connections;
    Distinct(list) &&
    forall c: nat :: c in list <==> c < |t.handlers| && t.handlers[c].stage != Gone && t.handlers[c].session == s
  }

  /** Only a session's first handler refers to it before it is authenticated. */
  ghost predicate HandlerOk(t: State, h: nat)
    requires Shape(t) && h < |t.handlers|
  {
    && (!IsAuthenticated(Own(t, h)) ==> t.handlers[h].session == h)
    && (t.handlers[h].stage == Checked ==> !IsAuthenticated(Own(t, h)))
    && (t.handlers[h].stage == Written ==> IsAuthenticated(Own(t, h)) && t.handlers[h].session == h)
  }

  ghost predicate EntryOk(t: State, u: int)
    requires Shape(t) && u in t.registry
  {
    var s := t.registry[u];
    t.sessions[s].userId == Some(u) && t.sessions[s].sessionId.Some? && t.handlers[s].stage != Written
  }

  ghost predicate Inv(t: State) {
    && Shape(t)
    && (forall s | 0 <= s < |t.sessions| :: t.sessions[s].sessionId.Some? <==> t.sessions[s].userId.Some?)
    && (forall s | 0 <= s < |t.sessions| :: ListOk(t, s))
    && (forall h | 0 <= h < |t.handlers| :: HandlerOk(t, h))
    && (forall u | u in t.registry :: EntryOk(t, u))
  }

  lemma {:induction false} WithoutStep(kept: seq<nat>, list: seq<nat>, i: nat, c: nat)
    requires i < |list|
    ensures (kept + (if list[i] != c then [list[i]] else [])) + Without(list[i + 1..], c) == kept + Without(list[i..], c)
  {
    assert list[i..][1..] == list[i + 1..];
  }

  lemma {:induction false} WithoutMeaning(list: seq<nat>, c: nat)
    requires Distinct(list)
    ensures Distinct(Without(list, c))
    ensures forall x :: x in Without(list, c) <==> x in list && x != c
  {
    if list != [] {
      var rest := Without(list[1..], c);
      WithoutMeaning(list[1..], c);
      assert list == [list[0]] + list[1..];
      forall j | 0 <= j < |rest| ensures rest[j] != list[0] {
        assert rest[j] in rest && rest[j] in list[1..];
      }
    }
  }

  lemma {:induction false} ConnectKeepsInv(t: State)
    requires Inv(t)
    ensures Inv(Step(t, Connect))
  {
    var next := Step(t, Connect);
    forall s | 0 <= s < |next.sessions| ensures ListOk(next, s) {
      if s < |t.sessions| {
        assert ListOk(t, s);
      }
    }
    forall h | 0 <= h < |next.handlers| ensures HandlerOk(next, h) {
      assert h < |t.handlers| ==> HandlerOk(t, h);
    }
    forall u | u in next.registry ensures EntryOk(next, u) {
      assert EntryOk(t, u);
    }
  }

  /** A bind that moves nothing. */
  ghost predicate Waits(t: State, e: Event)
    requires Shape(t) && Enabled(t, e)
  {
    e.Bind? && !BindsElsewhere(t, e.handler, e.user, e.sessionId)
  }

  /** A step of one handler that changes only its stage and its session's credentials, and
      writes them only where none were. */
  lemma {:induction false} AuthKeepsInv(t: State, e: Event)
    requires Inv(t) && Enabled(t, e) && (e.Check? || e.Write? || e.Enter? || e.Leave? || Waits(t, e))
    ensures Inv(Step(t, e))
  {
    var next := Step(t, e);
    assert HandlerOk(t, e.handler);
    forall s | 0 <= s < |next.sessions| ensures ListOk(next, s) {
      assert ListOk(t, s);
    }
    forall h | 0 <= h < |next.handlers| ensures HandlerOk(next, h) {
      assert HandlerOk(t, h);
    }
    forall u | u in next.registry ensures EntryOk(next, u) {
      assert u in t.registry ==> EntryOk(t, u);
    }
  }

  lemma {:induction false} BindKeepsInv(t: State, h: nat, b: nat)
    requires Inv(t) && h < |t.handlers| && t.handlers[h].stage == Idle
    requires b < |t.sessions| && b != t.handlers[h].session && IsAuthenticated(t.sessions[b])
    ensures Inv(Moved(t, h, b))
  {
    var next := Moved(t, h, b);
    assert ListOk(t, t.handlers[h].session);
    WithoutMeaning(Own(t, h).connections, h);
    forall s | 0 <= s < |next.sessions| ensures ListOk(next, s) {
      assert ListOk(t, s);
    }
    forall k | 0 <= k < |next.handlers| ensures HandlerOk(next, k) {
      assert HandlerOk(t, k);
    }
    forall u | u in next.registry ensures EntryOk(next, u) {
      assert EntryOk(t, u);
    }
  }

  lemma {:induction false} CleanUpKeepsLists(t: State, h: nat)
    requires Inv(t) && Enabled(t, CleanUp(h))
    ensures forall s | 0 <= s < |t.sessions| :: ListOk(Step(t, CleanUp(h)), s)
  {
    var next, own := Step(t, CleanUp(h)), t.handlers[h].session;
    assert ListOk(t, own);
    WithoutMeaning(t.sessions[own].connections, h);
    forall s | 0 <= s < |t.sessions| ensures ListOk(next, s) {
      assert ListOk(t, s);
      if s == own {
        assert next.sessions[s].connections == Without(t.sessions[s].connections, h);
      } else {
        assert next.sessions[s] == t.sessions[s];
      }
    }
  }

  lemma {:induction false} CleanUpKeepsInv(t: State, h: nat)
    requires Inv(t) && Enabled(t, CleanUp(h))
    ensures Inv(Step(t, CleanUp(h)))
  {
    var next := Step(t, CleanUp(h));
    CleanUpKeepsLists(t, h);
    forall k | 0 <= k < |next.handlers| ensures HandlerOk(next, k) {
      assert HandlerOk(t, k);
    }
    forall u | u in next.registry ensures EntryOk(next, u) {
      assert EntryOk(t, u);
    }
  }

  lemma {:induction false} StepKeepsInv(t: State, e: Event)
    requires Inv(t) && Enabled(t, e)
    ensures Inv(Step(t, e))
  {
    match e
    case Connect => ConnectKeepsInv(t);
    case Bind(h, user, sessionId) =>
      if BindsElsewhere(t, h, user, sessionId) {
        assert EntryOk(t, user);
        BindKeepsInv(t, h, t.registry[user]);
      } else {
        AuthKeepsInv(t, e);
      }
    case CleanUp(h) => CleanUpKeepsInv(t, h);
    case _ => AuthKeepsInv(t, e);
  }

  lemma {:induction false} RunKeepsInv(t: State, events: seq<Event>)
    requires Inv(t) && Runs(t, events)
    ensures Inv(Run(t, events))
    decreases |events|
  {
    if events != [] {
      StepKeepsInv(t, events[0]);
      RunKeepsInv(Step(t, events[0]), events[1..]);
    }
  }

  /** In every reachable state: an unauthenticated session has no handler but the first and
      is not in the registry; a registered session has the user id it is registered under
      and a session id, so a bind can read it; and the connection of a handler not cleaned
      up occurs once, in its handler's session, and in no other list. */
  lemma {:induction false} EveryReachableState(events: seq<Event>)
    requires Runs(INITIAL, events)
    ensures var t := Run(INITIAL, events);
            && (forall h, u | 0 <= h < |t.handlers| && !IsAuthenticated(Own(t, h)) ::
                  t.handlers[h].session == h && (u in t.registry ==> t.registry[u] != h))
            && (forall u | u in t.registry ::
                  t.sessions[t.registry[u]].userId == Some(u) && t.sessions[t.registry[u]].sessionId.Some?)
            && (forall h, s | 0 <= h < |t.handlers| && 0 <= s < |t.sessions| ::
                  multiset(t.sessions[s].connections)[h] ==
                  if t.handlers[h].stage != Gone && t.handlers[h].session == s then 1 else 0)
            && (forall s, i | 0 <= s < |t.sessions| && 0 <= i < |t.sessions[s].connections| ::
                  t.sessions[s].connections[i] < |t.handlers|)
  {
    RunKeepsInv(INITIAL, events);
    var t := Run(INITIAL, events);
    forall h, u | 0 <= h < |t.handlers| && !IsAuthenticated(Own(t, h))
      ensures t.handlers[h].session == h && (u in t.registry ==> t.registry[u] != h)
    {
      assert HandlerOk(t, h) && (u in t.registry ==> EntryOk(t, u));
    }
    forall u | u in t.registry
      ensures t.sessions[t.registry[u]].userId == Some(u) && t.sessions[t.registry[u]].sessionId.Some?
    {
      assert EntryOk(t, u);
    }
    forall h, s | 0 <= h < |t.handlers| && 0 <= s < |t.sessions|
      ensures multiset(t.sessions[s].connections)[h] ==
              if t.handlers[h].stage != Gone && t.handlers[h].session == s then 1 else 0
    {
      assert ListOk(t, s);
      OccursOnce(t.sessions[s].connections, h);
    }
    forall s, i | 0 <= s < |t.sessions| && 0 <= i < |t.sessions[s].connections|
      ensures t.sessions[s].connections[i] < |t.handlers|
    {
      var c := t.sessions[s].connections[i];
      assert ListOk(t, s) && c in t.sessions[s].connections;
    }
  }

  lemma {:induction false} OccursOnce(list: seq<nat>, c: nat)
    requires Distinct(list)
    ensures multiset(list)[c] == if c in list then 1 else 0
  {
    if list != [] {
      OccursOnce(list[1..], c);
      assert list == [list[0]] + list[1..];
      assert list[0] !in list[1..];
    }
  }

  /** Credentials once written never change, although the test and the write are separate. */
  lemma {:induction false} CredentialsAreWriteOnce(t: State, events: seq<Event>, s: nat)
    requires Inv(t) && Runs(t, events) && s < |t.sessions| && IsAuthenticated(t.sessions[s])
    ensures var end := Run(t, events);
            s < |end.sessions| && end.sessions[s].userId == t.sessions[s].userId &&
            end.sessions[s].sessionId == t.sessions[s].sessionId
    decreases |events|
  {
    if events != [] {
      var e := events[0];
      var next := Step(t, e);
      StepKeepsInv(t, e);
      CredentialsStay(t, e, s);
      CredentialsAreWriteOnce(next, events[1..], s);
    }
  }

  // ---------- who is let in ----------

  /** A bind by a handler, from outside, to the session registered for the user, with that
      session's id. */
  ghost predicate LetsIn(t: State, e: Event, h: nat, b: nat)
    requires Shape(t) && h < |t.handlers|
  {
    e.Bind? && e.handler == h && e.user in t.registry && t.registry[e.user] == b &&
    t.sessions[b].sessionId == Some(e.sessionId) && b != t.handlers[h].session
  }

  /** A handler moves to another session exactly at such a bind, to that session, and its
      connection goes from the one list to the end of the other. */
  lemma {:induction false} HandlersMoveAtBinds(t: State, e: Event, h: nat)
    requires Inv(t) && Enabled(t, e) && h < |t.handlers|
    ensures var (next, s) := (Step(t, e), t.handlers[h].session);
            && (forall b :: next.handlers[h].session == b && b != s <==> LetsIn(t, e, h, b))
            && (next.handlers[h].session != s ==>
                  var b := next.handlers[h].session;
                  h !in next.sessions[s].connections && next.sessions[b].connections == t.sessions[b].connections + [h])
  {
    var s := t.handlers[h].session;
    assert ListOk(t, s);
    if Step(t, e).handlers[h].session != s {
      WithoutMeaning(t.sessions[s].connections, h);
    }
  }

  /** Which means that it presents the session's id and user. */
  lemma {:induction false} MovesPresentTheId(t: State, e: Event, h: nat)
    requires Inv(t) && Enabled(t, e)
    ensures var next := Step(t, e);
            && |t.handlers| <= |next.handlers|
            && (|t.handlers| <= h < |next.handlers| ==> next.handlers[h].session == h)
            && (h < |t.handlers| && next.handlers[h].session != t.handlers[h].session ==>
                  var s := next.sessions[next.handlers[h].session];
                  IsAuthenticated(s) && e == Bind(h, s.userId.value, s.sessionId.value))
  {
    if h < |t.handlers| && Step(t, e).handlers[h].session != t.handlers[h].session {
      HandlersMoveAtBinds(t, e, h);
      assert EntryOk(t, e.user);
    }
  }

  /** In every run, whoever is in a session that is not its own has presented its id. */
  lemma {:induction false} GuestsPresentedTheId(t: State, events: seq<Event>, h: nat)
    requires Inv(t) && Runs(t, events) && h < |Run(t, events).handlers|
    requires h < |t.handlers| ==> t.handlers[h].session == h
    ensures var end := Run(t, events);
            var s := end.sessions[end.handlers[h].session];
            end.handlers[h].session == h ||
            (IsAuthenticated(s) && Bind(h, s.userId.value, s.sessionId.value) in events)
    decreases |events|
  {
    hide Step, Enabled;
    if events != [] {
      var (e, rest) := (events[0], events[1..]);
      var next := Step(t, e);
      StepKeepsInv(t, e);
      MovesPresentTheId(t, e, h);
      assert events == [e] + rest && e in events;
      if h < |next.handlers| && next.handlers[h].session != h {
        GuestWasLetIn(next, rest, h, e.user, e.sessionId);
      } else {
        GuestsPresentedTheId(next, rest, h);
      }
    }
  }

  /** The same for a handler that is a guest already. */
  lemma {:induction false} GuestWasLetIn(t: State, events: seq<Event>, h: nat, user: int, sessionId: string)
    requires Inv(t) && Runs(t, events) && h < |t.handlers|
    requires var s := t.sessions[t.handlers[h].session]; s.userId == Some(user) && s.sessionId == Some(sessionId)
    ensures var end := Run(t, events);
            && h < |end.handlers|
            && var s := end.sessions[end.handlers[h].session];
               IsAuthenticated(s) &&
               ((s.userId == Some(user) && s.sessionId == Some(sessionId)) ||
                Bind(h, s.userId.value, s.sessionId.value) in events)
    decreases |events|
  {
    hide Step, Enabled;
    if events != [] {
      var (e, rest) := (events[0], events[1..]);
      var next := Step(t, e);
      StepKeepsInv(t, e);
      MovesPresentTheId(t, e, h);
      CredentialsStay(t, e, t.handlers[h].session);
      assert events == [e] + rest && e in events;
      if next.handlers[h].session == t.handlers[h].session {
        GuestWasLetIn(next, rest, h, user, sessionId);
      } else {
        GuestWasLetIn(next, rest, h, e.user, e.sessionId);
      }
    }
  }

  lemma {:induction false} CredentialsStay(t: State, e: Event, s: nat)
    requires Inv(t) && Enabled(t, e) && s < |t.sessions| && IsAuthenticated(t.sessions[s])
    ensures var next := Step(t, e);
            next.sessions[s].userId == t.sessions[s].userId && next.sessions[s].sessionId == t.sessions[s].sessionId
  {
    assert e.Write? ==> HandlerOk(t, e.handler);
  }

  /** In every run a session has the credentials that the users table answered to its own
      first handler, and no others. */
  lemma {:induction false} CredentialsWereAnswered(t: State, events: seq<Event>, s: nat)
    requires Inv(t) && Runs(t, events) && s < |Run(t, events).sessions|
    requires s < |t.sessions| ==> !IsAuthenticated(t.sessions[s])
    ensures var row := Run(t, events).sessions[s];
            IsAuthenticated(row) ==> Write(s, Some(Credentials(row.userId.value, row.sessionId.value))) in events
    decreases |events|
  {
    if events != [] {
      var (e, rest) := (events[0], events[1..]);
      var next := Step(t, e);
      StepKeepsInv(t, e);
      assert events == [e] + rest && e in events;
      assert forall x | x in rest :: x in events;
      if s < |t.sessions| && IsAuthenticated(next.sessions[s]) {
        assert HandlerOk(t, e.handler);
        assert e == Write(s, Some(Credentials(next.sessions[s].userId.value, next.sessions[s].sessionId.value)));
        CredentialsAreWriteOnce(next, rest, s);
      } else {
        CredentialsWereAnswered(next, rest, s);
      }
    }
  }

  // ---------- the registry and the live sessions ----------

  ghost predicate Registered(t: State, s: nat)
    requires s < |t.sessions|
  {
    t.sessions[s].userId.Some? && t.sessions[s].userId.value in t.registry &&
    t.registry[t.sessions[s].userId.value] == s
  }

  /** Authenticated, with a connection, and past the write that precedes its registration. */
  ghost predicate Live(t: State, s: nat)
    requires Shape(t) && s < |t.sessions|
  {
    t.sessions[s].userId.Some? && t.sessions[s].connections != [] && t.handlers[s].stage != Written
  }

  ghost predicate Agrees(t: State)
    requires Shape(t)
  {
    forall s | 0 <= s < |t.sessions| :: Registered(t, s) <==> Live(t, s)
  }

  /** A user enters the registry only when not in it, and a bind does not take the last
      connection out of an authenticated session. */
  ghost predicate Polite(t: State, e: Event)
    requires Shape(t) && Enabled(t, e)
  {
    match e
    case Enter(h) => Own(t, h).userId.Some? ==> Own(t, h).userId.value !in t.registry
    case Bind(h, user, sessionId) =>
      BindsElsewhere(t, h, user, sessionId) ==> Own(t, h).userId == None || |Own(t, h).connections| > 1
    case _ => true
  }

  lemma {:induction false} WithoutLast(list: seq<nat>, c: nat)
    requires Distinct(list) && c in list
    ensures Without(list, c) == [] <==> |list| == 1
  {
    WithoutMeaning(list, c);
    if |list| > 1 {
      var other := if list[0] == c then list[1] else list[0];
      assert other in list && other in Without(list, c);
    } else {
      assert list == [c];
      assert Without([c], c) == [];
    }
  }

  lemma {:induction false} EnterAgreement(t: State, h: nat)
    requires Inv(t) && Agrees(t) && Enabled(t, Enter(h))
    ensures Agrees(Step(t, Enter(h))) <==> Polite(t, Enter(h))
  {
    var next := Step(t, Enter(h));
    assert HandlerOk(t, h) && ListOk(t, h) && h in t.sessions[h].connections;
    var u := t.sessions[h].userId.value;
    if u in t.registry {
      var older := t.registry[u];
      assert EntryOk(t, u);
      assert Registered(t, older) && Live(t, older);
      assert Live(next, older) && !Registered(next, older);
    } else {
      forall s | 0 <= s < |next.sessions| ensures Registered(next, s) <==> Live(next, s) {
        assert Registered(t, s) <==> Live(t, s);
      }
    }
  }

  lemma {:induction false} BindAgreement(t: State, h: nat, b: nat)
    requires Inv(t) && Agrees(t) && h < |t.handlers| && t.handlers[h].stage == Idle
    requires b < |t.sessions| && b != t.handlers[h].session && Registered(t, b)
    ensures Agrees(Moved(t, h, b)) <==> Own(t, h).userId == None || |Own(t, h).connections| > 1
  {
    var next := Moved(t, h, b);
    var s := t.handlers[h].session;
    assert ListOk(t, s) && HandlerOk(t, h);
    WithoutLast(t.sessions[s].connections, h);
    assert Registered(t, b) <==> Live(t, b);
    forall k | 0 <= k < |t.sessions| && k != s ensures Registered(next, k) <==> Live(next, k) {
      assert Registered(t, k) <==> Live(t, k);
    }
    assert Registered(t, s) <==> Live(t, s);
    assert HandlerOk(t, s);
    assert t.handlers[s].stage == Written ==> s in t.sessions[s].connections && h in t.sessions[s].connections && s != h;
    assert Agrees(next) <==> (Registered(next, s) <==> Live(next, s));
  }

  lemma {:induction false} CleanUpAgreement(t: State, h: nat)
    requires Inv(t) && Agrees(t) && Enabled(t, CleanUp(h))
    ensures Agrees(Step(t, CleanUp(h)))
  {
    var next := Step(t, CleanUp(h));
    var s := t.handlers[h].session;
    assert ListOk(t, s) && HandlerOk(t, h) && HandlerOk(t, s);
    WithoutMeaning(t.sessions[s].connections, h);
    forall k | 0 <= k < |next.sessions| ensures Registered(next, k) <==> Live(next, k) {
      assert Registered(t, k) <==> Live(t, k);
      assert Registered(t, s) <==> Live(t, s);
    }
  }

  lemma {:induction false} OtherAgreement(t: State, e: Event)
    requires Inv(t) && Agrees(t) && Enabled(t, e) && (e.Connect? || e.Check? || e.Write? || e.Leave? || Waits(t, e))
    ensures Agrees(Step(t, e))
  {
    var next := Step(t, e);
    assert !e.Connect? ==> HandlerOk(t, e.handler);
    forall s | 0 <= s < |next.sessions| ensures Registered(next, s) <==> Live(next, s) {
      if s < |t.sessions| {
        assert Registered(t, s) <==> Live(t, s);
        assert HandlerOk(t, s);
      }
    }
  }

  lemma {:induction false} StepAgreement(t: State, e: Event)
    requires Inv(t) && Agrees(t) && Enabled(t, e)
    ensures Agrees(Step(t, e)) <==> Polite(t, e)
  {
    match e
    case Enter(h) => EnterAgreement(t, h); assert HandlerOk(t, h);
    case Bind(h, user, sessionId) =>
      if BindsElsewhere(t, h, user, sessionId) {
        assert EntryOk(t, user);
        BindAgreement(t, h, t.registry[user]);
      } else {
        OtherAgreement(t, e);
      }
    case CleanUp(h) => CleanUpAgreement(t, h);
    case _ => OtherAgreement(t, e);
  }

  ghost predicate PoliteRun(t: State, events: seq<Event>)
    requires Shape(t) && Runs(t, events)
    decreases |events|
  {
    events == [] || (Polite(t, events[0]) && PoliteRun(Step(t, events[0]), events[1..]))
  }

  ghost predicate AlwaysAgrees(t: State, events: seq<Event>)
    requires Shape(t) && Runs(t, events)
    decreases |events|
  {
    Agrees(t) && (events == [] || AlwaysAgrees(Step(t, events[0]), events[1..]))
  }

  /** The registry holds exactly the live sessions throughout a run if and only if nobody
      logs in while registered and no bind takes the last connection of an authenticated
      session. */
  lemma {:induction false} RegistryAgreement(t: State, events: seq<Event>)
    requires Inv(t) && Agrees(t) && Runs(t, events)
    ensures AlwaysAgrees(t, events) <==> PoliteRun(t, events)
    decreases |events|
  {
    if events != [] {
      var next := Step(t, events[0]);
      StepKeepsInv(t, events[0]);
      StepAgreement(t, events[0]);
      if Agrees(next) {
        RegistryAgreement(next, events[1..]);
      }
    }
  }

  /** Cleaning up after the older of two sessions of one user takes the newer one, live and
      with its connections, out of the registry. */
  lemma {:induction false} OlderSessionForgetsNewer(t: State, h: nat, user: int)
    requires Inv(t) && Enabled(t, CleanUp(h)) && user in t.registry
    requires Own(t, h).userId == Some(user) && Own(t, h).connections == [h]
    requires t.registry[user] != t.handlers[h].session && Live(t, t.registry[user])
    ensures var next := Step(t, CleanUp(h));
            user !in next.registry && Live(next, t.registry[user])
  {
    assert ListOk(t, t.handlers[h].session) && EntryOk(t, user);
    WithoutLast(Own(t, h).connections, h);
  }

  // ---------- sending to a user's first connection ----------

  ghost predicate InRange(t: State)
    requires Shape(t)
  {
    forall u | u in t.registry :: t.sessions[t.registry[u]].connections != []
  }

  /** The bind that takes the last connection of a registered session. */
  ghost predicate Strands(t: State, e: Event)
    requires Shape(t) && Enabled(t, e)
  {
    e.Bind? && BindsElsewhere(t, e.handler, e.user, e.sessionId) &&
    Registered(t, t.handlers[e.handler].session) && |Own(t, e.handler).connections| == 1
  }

  lemma {:induction false} StepInRange(t: State, e: Event)
    requires Inv(t) && InRange(t) && Enabled(t, e)
    ensures InRange(Step(t, e)) <==> !Strands(t, e)
  {
    var next := Step(t, e);
    assert !e.Connect? ==> HandlerOk(t, e.handler) && ListOk(t, t.handlers[e.handler].session);
    if e.Bind? || e.CleanUp? {
      var h, s := e.handler, t.handlers[e.handler].session;
      assert h in t.sessions[s].connections;
      WithoutLast(t.sessions[s].connections, h);
    }
    if Strands(t, e) {
      var u := Own(t, e.handler).userId.value;
      assert u in next.registry && next.sessions[next.registry[u]].connections == [];
      assert !InRange(next);
    } else {
      forall u | u in next.registry ensures next.sessions[next.registry[u]].connections != [] {
        assert u in t.registry ==> EntryOk(t, u);
        assert e.Enter? ==> e.handler in Own(t, e.handler).connections;
      }
    }
  }

  ghost predicate NeverStrands(t: State, events: seq<Event>)
    requires Shape(t) && Runs(t, events)
    decreases |events|
  {
    events == [] || (!Strands(t, events[0]) && NeverStrands(Step(t, events[0]), events[1..]))
  }

  ghost predicate AlwaysInRange(t: State, events: seq<Event>)
    requires Shape(t) && Runs(t, events)
    decreases |events|
  {
    InRange(t) && (events == [] || AlwaysInRange(Step(t, events[0]), events[1..]))
  }

  /** Sending an event to a registered user's connection 0 is in range throughout a run if
      and only if no bind takes the last connection of a registered session. */
  lemma {:induction false} EventsReachAConnection(t: State, events: seq<Event>)
    requires Inv(t) && InRange(t) && Runs(t, events)
    ensures AlwaysInRange(t, events) <==> NeverStrands(t, events)
    decreases |events|
  {
    if events != [] {
      var next := Step(t, events[0]);
      StepKeepsInv(t, events[0]);
      StepInRange(t, events[0]);
      if InRange(next) {
        EventsReachAConnection(next, events[1..]);
      }
    }
  }

  // ---------- runs that reach the failing states ----------

  lemma {:induction false} RunsCons(t: State, e: Event, events: seq<Event>)
    requires Shape(t) && Enabled(t, e) && Runs(Step(t, e), events)
    ensures Runs(t, [e] + events) && Run(t, [e] + events) == Run(Step(t, e), events)
  {
    hide Enabled, Step;
    assert ([e] + events)[1..] == events;
  }

  lemma {:induction false} RunsConcat(t: State, a: seq<Event>, b: seq<Event>)
    requires Shape(t) && Runs(t, a) && Runs(Run(t, a), b)
    ensures Runs(t, a + b) && Run(t, a + b) == Run(Run(t, a), b)
    decreases |a|
  {
    hide Enabled, Step;
    if a == [] {
      assert a + b == b;
    } else {
      assert (a + b)[1..] == a[1..] + b;
      RunsConcat(Step(t, a[0]), a[1..], b);
    }
  }

  function LogIn(h: nat, c: Credentials): seq<Event> {
    [Check(h)] + ([Write(h, Some(c))] + [Enter(h)])
  }

  lemma {:induction false} LogsIn(t: State, h: nat, c: Credentials)
    requires Shape(t) && h < |t.handlers| && t.handlers[h] == HandlerRow(h, Idle) && !IsAuthenticated(Own(t, h))
    ensures var row := Own(t, h).(sessionId := Some(c.sessionId), userId := Some(c.userId));
            Runs(t, LogIn(h, c)) &&
            Run(t, LogIn(h, c)) == State(t.sessions[h := row], t.handlers, t.registry[c.userId := h])
  {
    var checked := Step(t, Check(h));
    var written := Step(checked, Write(h, Some(c)));
    var entered := Step(written, Enter(h));
    assert entered.handlers == t.handlers;
    RunsCons(written, Enter(h), []);
    assert [Enter(h)] + [] == [Enter(h)];
    RunsCons(checked, Write(h, Some(c)), [Enter(h)]);
    RunsCons(t, Check(h), [Write(h, Some(c))] + [Enter(h)]);
  }

  /** Two connections, each logged in. */
  function TwoLogins(a: Credentials, b: Credentials): seq<Event> {
    [Connect, Connect] + (LogIn(0, a) + LogIn(1, b))
  }

  lemma {:induction false} TwoAreLoggedIn(a: Credentials, b: Credentials)
    ensures Runs(INITIAL, TwoLogins(a, b))
    ensures Run(INITIAL, TwoLogins(a, b))
         == State([SessionRow(Some(a.sessionId), Some(a.userId), [0]), SessionRow(Some(b.sessionId), Some(b.userId), [1])],
                  [HandlerRow(0, Idle), HandlerRow(1, Idle)], map[a.userId := 0][b.userId := 1])
  {
    var one := State([SessionRow(None, None, [0])], [HandlerRow(0, Idle)], map[]);
    var two := State([SessionRow(None, None, [0]), SessionRow(None, None, [1])],
                     [HandlerRow(0, Idle), HandlerRow(1, Idle)], map[]);
    assert Step(INITIAL, Connect) == one && Step(one, Connect) == two;
    RunsCons(one, Connect, []);
    RunsCons(INITIAL, Connect, [Connect] + []);
    assert [Connect] + ([Connect] + []) == [Connect, Connect];
    LogsIn(two, 0, a);
    var first := Run(two, LogIn(0, a));
    LogsIn(first, 1, b);
    RunsConcat(two, LogIn(0, a), LogIn(1, b));
    RunsConcat(INITIAL, [Connect, Connect], LogIn(0, a) + LogIn(1, b));
  }

  function Departure(h: nat): seq<Event> {
    [Leave(h)] + [CleanUp(h)]
  }

  lemma {:induction false} Departs(t: State, h: nat)
    requires Shape(t) && h < |t.handlers| && t.handlers[h].stage == Idle
    requires Own(t, h).connections == [h] && Own(t, h).userId.Some? && Own(t, h).sessionId.Some?
    ensures Runs(t, Departure(h))
    ensures var end := Run(t, Departure(h));
            && end.registry == t.registry - {Own(t, h).userId.value} && |end.sessions| == |t.sessions|
            && forall s | 0 <= s < |t.sessions| && s != t.handlers[h].session && s != h ::
                 end.sessions[s] == t.sessions[s] && end.handlers[s] == t.handlers[s]
  {
    var left := Step(t, Leave(h));
    assert [CleanUp(h)] + [] == [CleanUp(h)];
    assert Without([h], h) == Without([h][1..], h) == [];
    RunsCons(left, CleanUp(h), []);
    RunsCons(t, Leave(h), [CleanUp(h)]);
  }

  /** One user logs in on two connections and leaves the first: the second, still live, is
      no longer registered. */
  lemma {:induction false} SecondLoginExample()
    ensures var events := TwoLogins(Credentials(7, "a"), Credentials(7, "b")) + Departure(0);
            Runs(INITIAL, events) &&
            var end := Run(INITIAL, events);
            |end.sessions| == 2 && Live(end, 1) && 7 !in end.registry
  {
    hide Run, Runs, Step, LogIn, TwoLogins;
    var logins := TwoLogins(Credentials(7, "a"), Credentials(7, "b"));
    TwoAreLoggedIn(Credentials(7, "a"), Credentials(7, "b"));
    Departs(Run(INITIAL, logins), 0);
    RunsConcat(INITIAL, logins, Departure(0));
  }

  /** A user logs in and then binds the same connection to another user's session: the
      user stays registered without a connection, and the next event to it is out of range. */
  lemma {:induction false} StrandedSessionExample()
    ensures var events := TwoLogins(Credentials(7, "a"), Credentials(8, "b")) + [Bind(0, 8, "b")];
            Runs(INITIAL, events) && 7 in Run(INITIAL, events).registry && !InRange(Run(INITIAL, events))
  {
    hide LogIn, TwoLogins;
    var logins := TwoLogins(Credentials(7, "a"), Credentials(8, "b"));
    TwoAreLoggedIn(Credentials(7, "a"), Credentials(8, "b"));
    var both := Run(INITIAL, logins);
    var bound := Step(both, Bind(0, 8, "b"));
    assert [Bind(0, 8, "b")] + [] == [Bind(0, 8, "b")];
    RunsCons(both, Bind(0, 8, "b"), []);
    RunsConcat(INITIAL, logins, [Bind(0, 8, "b")]);
    assert Without([0], 0) == Without([0][1..], 0) == [];
    assert bound.sessions[bound.registry[7]].connections == [];
  }
}
