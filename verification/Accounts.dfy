/** Accounts and their login tokens: the window of the three newest tokens that register
    and login keep, and what `authenticate` accepts. */
module Accounts {
  import opened ByteStrings

  const WINDOW := 3

  datatype Account = Account(username: string, password: string, tokens: seq<string>)

  /** `issued` is history: every token given to the user, oldest first. */
  datatype State = State(accounts: map<int, Account>, issued: map<int, seq<string>>)

  const EMPTY := State(map[], map[])

  /** A registration is an insertion followed by a session; a login is a session. */
  datatype Event =
    | InsertUser(id: int, username: string, password: string)
    | CreateSession(id: int, token: string)

  ghost predicate Taken(t: State, username: string) {
    exists id :: id in t.accounts && t.accounts[id].username == username
  }

  /** What is drawn is new. */
  ghost predicate Fresh(t: State, e: Event) {
    match e
    case InsertUser(id, username, password) => id !in t.accounts && id !in t.issued
    case CreateSession(id, token) => forall u | u in t.issued :: token !in t.issued[u]
  }

  /** Drop the oldest of three, then append. */
  function Push(tokens: seq<string>, token: string): seq<string> {
    (if |tokens| == WINDOW then tokens[1..] else tokens) + [token]
  }

  ghost function Step(t: State, e: Event): State {
    match e
    case InsertUser(id, username, password) =>
      if Taken(t, username) then t
      else State(t.accounts[id := Account(username, password, [])], t.issued[id := []])
    case CreateSession(id, token) =>
      if id in t.accounts && id in t.issued then
        var account := t.accounts[id];
        State(t.accounts[id := account.(tokens := Push(account.tokens, token))],
              t.issued[id := t.issued[id] + [token]])
      else t
  }

  ghost predicate Runs(t: State, events: seq<Event>)
    decreases |events|
  {
    events == [] || (Fresh(t, events[0]) && Runs(Step(t, events[0]), events[1..]))
  }

  ghost function Run(t: State, events: seq<Event>): State
    decreases |events|
  {
    if events == [] then t else Run(Step(t, events[0]), events[1..])
  }

  predicate Accepts(t: State, id: int, token: string) {
    id in t.accounts && (t.accounts[id].tokens == [] || token in t.accounts[id].tokens)
  }

  function Newest(issued: seq<string>): seq<string> {
    if |issued| <= WINDOW then issued else issued[|issued| - WINDOW..]
  }

  ghost predicate AccountOk(t: State, id: int)
    requires id in t.accounts
  {
    id in t.issued && Distinct(t.issued[id]) && t.accounts[id].tokens == Newest(t.issued[id])
  }

  ghost predicate Inv(t: State) {
    && t.accounts.Keys == t.issued.Keys
    && (forall id | id in t.accounts :: AccountOk(t, id))
    && (forall a, b | a in t.accounts && b in t.accounts && a != b ::
          t.accounts[a].username != t.accounts[b].username)
  }

  lemma {:induction false} PushKeepsNewest(issued: seq<string>, token: string)
    ensures Push(Newest(issued), token) == Newest(issued + [token])
  {
  }

  lemma {:induction false} StepKeepsInv(t: State, e: Event)
    requires Inv(t) && Fresh(t, e)
    ensures Inv(Step(t, e))
  {
    var next := Step(t, e);
    forall id | id in next.accounts ensures AccountOk(next, id) {
      assert id in t.accounts ==> AccountOk(t, id);
      if e.CreateSession? && id == e.id && id in t.issued {
        var issued := t.issued[id];
        PushKeepsNewest(issued, e.token);
        forall i, j | 0 <= i < j < |issued| + 1
          ensures (issued + [e.token])[i] != (issued + [e.token])[j]
        {
          assert issued[i] in issued;
        }
      }
    }
  }

  lemma {:induction false} RunKeepsInv(t: State, events: seq<Event>)
    requires Inv(t) && Runs(t, events)
    ensures Inv(Run(t, events))
    decreases |events|
  {
    if events != [] {
      StepKeepsInv(t, events[0]);
      RunKeepsInv(Step(t, events[0]), events[1..]);
    }
  }

  /** After any run, a token ever issued to the user is accepted exactly while fewer than
      three newer ones were issued; any other token is accepted only for a user who was
      never issued one. */
  lemma {:induction false} ThreeNewestAreAccepted(events: seq<Event>, id: int)
    requires Runs(EMPTY, events) && id in Run(EMPTY, events).accounts
    ensures var t := Run(EMPTY, events);
            && id in t.issued && t.accounts[id].tokens == Newest(t.issued[id])
            && (forall i | 0 <= i < |t.issued[id]| ::
                  Accepts(t, id, t.issued[id][i]) <==> |t.issued[id]| - i <= WINDOW)
            && (forall token | token !in t.issued[id] :: Accepts(t, id, token) <==> t.issued[id] == [])
  {
    RunKeepsInv(EMPTY, events);
    var t := Run(EMPTY, events);
    assert AccountOk(t, id);
    var issued, tokens := t.issued[id], t.accounts[id].tokens;
    forall i | 0 <= i < |issued|
      ensures Accepts(t, id, issued[i]) <==> |issued| - i <= WINDOW
    {
      if |issued| - i <= WINDOW {
        assert issued[i] == tokens[i - (|issued| - |tokens|)];
      }
    }
  }

  /** Once a registration has issued its token the list never becomes empty again, so a
      token that was never issued is refused from then on. */
  lemma {:induction false} NeverEmptyAgain(t: State, events: seq<Event>, id: int)
    requires Inv(t) && Runs(t, events) && id in t.accounts && t.issued[id] != []
    ensures var end := Run(t, events);
            id in end.accounts && end.accounts[id].tokens != [] && id in end.issued && t.issued[id] <= end.issued[id]
    decreases |events|
  {
    assert AccountOk(t, id);
    if events != [] {
      StepKeepsInv(t, events[0]);
      var next := Step(t, events[0]);
      assert t.issued[id] <= next.issued[id];
      NeverEmptyAgain(next, events[1..], id);
    }
  }

  // ---------- usernames and passwords ----------

  /** A login with these would be answered with a token. */
  ghost predicate CanLogIn(accounts: map<int, Account>, username: string, password: string) {
    exists id :: id in accounts && accounts[id].username == username && accounts[id].password == password
  }

  /** No run changes the username or the password of an account that is there. */
  lemma {:induction false} AccountsStay(t: State, events: seq<Event>, id: int)
    requires Runs(t, events) && id in t.accounts && t.accounts.Keys == t.issued.Keys
    ensures var end := Run(t, events);
            id in end.accounts && end.accounts[id].username == t.accounts[id].username &&
            end.accounts[id].password == t.accounts[id].password
    decreases |events|
  {
    if events != [] {
      AccountsStay(Step(t, events[0]), events[1..], id);
    }
  }

  /** After any run every account was made by an insertion with its username and password. */
  lemma {:induction false} AccountsAreAsInserted(events: seq<Event>, id: int)
    requires Runs(EMPTY, events) && id in Run(EMPTY, events).accounts
    ensures var account := Run(EMPTY, events).accounts[id];
            InsertUser(id, account.username, account.password) in events
  {
    AsInsertedFrom(EMPTY, events, id);
  }

  lemma {:induction false} AsInsertedFrom(t: State, events: seq<Event>, id: int)
    requires Runs(t, events) && t.accounts.Keys == t.issued.Keys
    requires id !in t.accounts && id in Run(t, events).accounts
    ensures var account := Run(t, events).accounts[id];
            InsertUser(id, account.username, account.password) in events
    decreases |events|
  {
    var next := Step(t, events[0]);
    assert events == [events[0]] + events[1..];
    if id in next.accounts {
      AccountsStay(next, events[1..], id);
      var made := events[0];
      assert made in events && made == InsertUser(id, next.accounts[id].username, next.accounts[id].password);
    } else {
      AsInsertedFrom(next, events[1..], id);
    }
  }

  /** An insertion takes effect exactly when nobody has the username; from then on, after
      any run, a login under it is answered exactly for the password given then. */
  lemma {:induction false} LoginNeedsTheRegisteredPassword(
    t: State, id: int, username: string, password: string, events: seq<Event>, tried: string)
    requires Inv(t) && Runs(t, [InsertUser(id, username, password)] + events)
    ensures var inserted := InsertUser(id, username, password);
            id in Step(t, inserted).accounts
            <==> forall u | u in t.accounts :: t.accounts[u].username != username
    ensures (forall u | u in t.accounts :: t.accounts[u].username != username) ==>
              (CanLogIn(Run(t, [InsertUser(id, username, password)] + events).accounts, username, tried)
               <==> tried == password)
  {
    var inserted := InsertUser(id, username, password);
    var next := Step(t, inserted);
    assert ([inserted] + events)[1..] == events;
    if forall u | u in t.accounts :: t.accounts[u].username != username {
      StepKeepsInv(t, inserted);
      RunKeepsInv(next, events);
      AccountsStay(next, events, id);
      var end := Run(next, events);
      assert end.accounts[id].username == username && end.accounts[id].password == password;
      assert forall u | u in end.accounts :: end.accounts[u].username == username ==> u == id;
    }
  }

  class UsersDB {
    var accounts: map<int, Account>
    ghost var issued: map<int, seq<string>>

    ghost function View(): State
      reads this
    {
      State(accounts, issued)
    }

    constructor ()
      ensures View() == EMPTY
    {
      accounts, issued := map[], map[];
    }

    /** `None` when the user is not there. */
    method CreateSession(id: int, token: string) returns (session: Option<string>)
      requires accounts.Keys == issued.Keys
      modifies this
      ensures View() == Step(old(View()), Event.CreateSession(id, token))
      ensures session == if id in old(accounts) then Some(token) else None
    {
      if id !in accounts {
        return None;
      }
      var tokens := accounts[id].tokens;
      if |tokens| == 3 {
        tokens := tokens[1..];
      }
      tokens := tokens + [token];
      accounts := accounts[id := accounts[id].(tokens := tokens)];
      issued := issued[id := issued[id] + [token]];
      session := Some(token);
    }

    /** `valid`: the checks of the name and the username. The id and the token are drawn. */
    method Register(valid: bool, id: int, username: string, password: string, token: string)
      returns (session: Option<string>)
      requires Inv(View()) && Fresh(View(), InsertUser(id, username, password))
      requires Fresh(View(), Event.CreateSession(id, token))
      modifies this
      ensures if valid && !old(Taken(View(), username))
              then session == Some(token) &&
                   View() == Run(old(View()), [InsertUser(id, username, password), Event.CreateSession(id, token)])
              else session == None && View() == old(View())
      ensures session.Some? <==> valid && forall u | u in old(accounts) :: old(accounts)[u].username != username
      ensures Inv(View()) && (session.Some? ==> id in issued && issued[id] == [token])
      ensures session.Some? ==> accounts == old(accounts)[id := Account(username, password, [token])]
    {
      session := None;
      if !valid {
        return;
      }
      if exists u | u in accounts :: accounts[u].username == username {
        return;
      }
      ghost var was := View();
      accounts := accounts[id := Account(username, password, [])];
      issued := issued[id := []];
      var insert, create := InsertUser(id, username, password), Event.CreateSession(id, token);
      assert View() == Step(was, insert);
      StepKeepsInv(was, insert);
      StepKeepsInv(View(), create);
      session := CreateSession(id, token);
      assert [insert, create][1..] == [create] && [create][1..] == [];
      assert Run(was, [insert, create]) == Run(Step(was, insert), [create]) == View();
    }

    /** `found` is the row the query by username answers. */
    method Login(username: string, password: string, found: Option<int>, token: string)
      returns (session: Option<string>)
      requires Inv(View()) && Fresh(View(), Event.CreateSession(0, token))
      requires match found
               case Some(id) => id in accounts && accounts[id].username == username
               case None => !Taken(View(), username)
      modifies this
      ensures Inv(View())
      ensures session.Some? <==> CanLogIn(old(accounts), username, password)
      ensures if session.Some? then session == Some(token) && found.Some? &&
                                    View() == Step(old(View()), Event.CreateSession(found.value, token))
              else View() == old(View())
    {
      session := None;
      if found == None {
        return;
      }
      var id := found.value;
      if accounts[id].password != password {
        return;
      }
      StepKeepsInv(View(), Event.CreateSession(id, token));
      session := CreateSession(id, token);
    }

    method Authenticate(id: int, token: string) returns (ok: bool)
      ensures ok == Accepts(View(), id, token)
    {
      if id !in accounts {
        return false;
      }
      var tokens := accounts[id].tokens;
      if tokens != [] && token !in tokens {
        return false;
      }
      ok := true;
    }
  }
}
