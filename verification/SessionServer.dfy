/** The shared objects behind `Sessions`: sessions that several handlers refer to, the
    handlers, and the registry. Each method is one step of `Sessions.Step`. */
module SessionServers {
  import opened ByteStrings
  import opened Sessions

  datatype BindAnswer = Bound | Refused | NeverReturns

  class TCPConnection {
    ghost const id: nat

    constructor (ghost id: nat)
      ensures this.id == id
    {
      this.id := id;
    }
  }

  ghost function Ids(connections: seq<TCPConnection>): (ids: seq<nat>)
    ensures |ids| == |connections|
    ensures forall i | 0 <= i < |ids| :: ids[i] == connections[i].id
  {
    seq(|connections|, i requires 0 <= i < |connections| => connections[i].id)
  }

  class Session {
    ghost const id: nat
    var sessionId: Option<string>
    var userId: Option<int>
    var connections: seq<TCPConnection>

    ghost function Row(): SessionRow
      reads this
    {
      SessionRow(sessionId, userId, Ids(connections))
    }

    constructor (ghost id: nat, connection: TCPConnection)
      ensures this.id == id && connections == [connection] && Row() == SessionRow(None, None, [connection.id])
    {
      this.id, sessionId, userId, connections := id, None, None, [connection];
    }

    method Authenticate(credentials: Credentials)
      modifies this`sessionId, this`userId
      ensures sessionId == Some(credentials.sessionId) && userId == Some(credentials.userId)
    {
      sessionId, userId := Some(credentials.sessionId), Some(credentials.userId);
    }

    method AddConnection(connection: TCPConnection)
      modifies this`connections
      ensures connections == old(connections) + [connection]
      ensures Ids(connections) == old(Ids(connections)) + [connection.id]
    {
      connections := connections + [connection];
    }

    method RemoveConnection(connection: TCPConnection)
      requires forall i | 0 <= i < |connections| :: connections[i].id == connection.id ==> connections[i] == connection
      modifies this`connections
      ensures forall i | 0 <= i < |connections| :: connections[i] in old(connections)
      ensures Ids(connections) == Without(old(Ids(connections)), connection.id)
    {
      var all := connections;
      ghost var ids := Ids(all);
      var kept: seq<TCPConnection> := [];
      for i := 0 to |all|
        invariant connections == all
        invariant forall k | 0 <= k < |kept| :: kept[k] in all
        invariant Ids(kept) + Without(ids[i..], connection.id) == Without(ids, connection.id)
      {
        WithoutStep(Ids(kept), ids, i, connection.id);
        if all[i] != connection {
          assert Ids(kept + [all[i]]) == Ids(kept) + [ids[i]];
          kept := kept + [all[i]];
        } else {
          assert Ids(kept) + [] == Ids(kept);
        }
      }
      assert Ids(kept) + [] == Ids(kept);
      connections := kept;
    }

    method GetCredentials() returns (credentials: Option<Credentials>)
      ensures credentials.Some? <==> IsAuthenticated(Row())
      ensures credentials.Some? ==>
                userId == Some(credentials.value.userId) && sessionId == Some(credentials.value.sessionId)
    {
      credentials := if sessionId.Some? && userId.Some? then Some(Credentials(userId.value, sessionId.value)) else None;
    }
  }

  class Client {
    ghost const id: nat
    var session: Session
    const output: TCPConnection
    ghost var stage: Stage

    constructor (ghost id: nat, session: Session, output: TCPConnection)
      ensures this.id == id && this.session == session && this.output == output && stage == Idle
    {
      this.id, this.session, this.output, stage := id, session, output, Idle;
    }

    ghost function Row(): HandlerRow
      reads this
    {
      HandlerRow(session.id, stage)
    }
  }

  class Server {
    ghost var handlers: seq<Client>
    ghost var all: seq<Session>
    var sessions: map<int, Session>

    ghost predicate Knows(session: Session)
      reads this
    {
      session.id < |all| && all[session.id] == session
    }

    ghost predicate Has(handler: Client)
      reads this
    {
      handler.id < |handlers| && handlers[handler.id] == handler
    }

    /** A listed connection is its handler's. */
    ghost predicate ListsHandlers(session: Session)
      reads this, session
    {
      forall i | 0 <= i < |session.connections| ::
        var c := session.connections[i];
        c.id < |handlers| && handlers[c.id].output == c
    }

    ghost predicate Valid()
      reads this, handlers, all
    {
      && |all| == |handlers|
      && (forall i | 0 <= i < |all| :: all[i].id == i && ListsHandlers(all[i]))
      && (forall i | 0 <= i < |handlers| ::
            handlers[i].id == i && handlers[i].output.id == i && Knows(handlers[i].session))
      && (forall u | u in sessions :: Knows(sessions[u]))
    }

    ghost function View(): (t: State)
      requires Valid()
      reads this, handlers, all
      ensures Shape(t)
    {
      State(seq(|all|, i requires 0 <= i < |all| reads this, all => all[i].Row()),
            seq(|handlers|, i requires 0 <= i < |handlers| reads this, handlers => handlers[i].Row()),
            map u | u in sessions :: sessions[u].id)
    }

    /** The view, row by row. */
    lemma {:induction false} ViewIs(t: State)
      requires Valid() && |t.sessions| == |t.handlers| == |all| && t.registry.Keys == sessions.Keys
      requires forall i | 0 <= i < |all| :: t.sessions[i] == all[i].Row() && t.handlers[i] == handlers[i].Row()
      requires forall u | u in sessions :: t.registry[u] == sessions[u].id
      ensures View() == t
    {
      assert View().sessions == t.sessions;
      assert View().handlers == t.handlers;
      var registry := View().registry;
      assert registry.Keys == t.registry.Keys;
      forall u | u in registry ensures registry[u] == t.registry[u] {
        assert u in sessions;
      }
      assert registry == t.registry;
    }

    constructor ()
      ensures Valid() && View() == INITIAL
    {
      handlers, all, sessions := [], [], map[];
    }

    method Accept() returns (handler: Client)
      requires Valid()
      modifies this
      ensures Valid() && fresh(handler) && Has(handler) && sessions == old(sessions)
      ensures View() == Step(old(View()), Connect)
    {
      ghost var next := Step(View(), Connect);
      var connection := new TCPConnection(|handlers|);
      var session := new Session(|handlers|, connection);
      handler := new Client(|handlers|, session, connection);
      handlers, all := handlers + [handler], all + [session];
      ViewIs(next);
    }

    // ---------- single updates ----------

    ghost method SetStage(handler: Client, stage: Stage)
      requires Valid() && Has(handler)
      modifies handler`stage
      ensures Valid() && handler.stage == stage && View() == Staged(old(View()), handler.id, stage)
    {
      ghost var next := Staged(View(), handler.id, stage);
      handler.stage := stage;
      ViewIs(next);
    }

    method Authenticate(session: Session, credentials: Credentials)
      requires Valid() && Knows(session)
      modifies session`sessionId, session`userId
      ensures Valid()
      ensures View() == WithSession(old(View()), session.id,
                                    old(session.Row()).(sessionId := Some(credentials.sessionId),
                                                        userId := Some(credentials.userId)))
    {
      ghost var row := session.Row().(sessionId := Some(credentials.sessionId), userId := Some(credentials.userId));
      ghost var next := WithSession(View(), session.id, row);
      session.Authenticate(credentials);
      ViewIs(next);
    }

    method AddTo(target: Session, handler: Client)
      requires Valid() && Has(handler) && Knows(target)
      modifies target
      ensures Valid()
      ensures View() == WithSession(old(View()), target.id,
                                    old(target.Row()).(connections := old(target.Row()).connections + [handler.id]))
      ensures target.connections == old(target.connections) + [handler.output]
    {
      ghost var row := target.Row().(connections := target.Row().connections + [handler.id]);
      ghost var next := WithSession(View(), target.id, row);
      target.AddConnection(handler.output);
      ViewIs(next);
    }

    method RemoveFrom(session: Session, handler: Client)
      requires Valid() && Has(handler) && Knows(session)
      modifies session
      ensures Valid()
      ensures View() == WithSession(old(View()), session.id,
                                    old(session.Row()).(connections := Without(old(session.Row()).connections, handler.id)))
    {
      ghost var row := session.Row().(connections := Without(session.Row().connections, handler.id));
      ghost var next := WithSession(View(), session.id, row);
      session.RemoveConnection(handler.output);
      ViewIs(next);
    }

    method SetSession(handler: Client, target: Session)
      requires Valid() && Has(handler) && Knows(target)
      modifies handler
      ensures Valid() && handler.session == target
      ensures View() == old(View()).(handlers := old(View()).handlers[handler.id := HandlerRow(target.id, old(handler.stage))])
    {
      ghost var next := View().(handlers := View().handlers[handler.id := HandlerRow(target.id, handler.stage)]);
      handler.session := target;
      ViewIs(next);
    }

    method InsertEntry(user: int, session: Session)
      requires Valid() && Knows(session)
      modifies this`sessions
      ensures Valid() && View() == old(View()).(registry := old(View()).registry[user := session.id])
      ensures sessions == old(sessions)[user := session]
    {
      ghost var next := View().(registry := View().registry[user := session.id]);
      sessions := sessions[user := session];
      ViewIs(next);
    }

    method RemoveEntry(user: int)
      requires Valid()
      modifies this`sessions
      ensures Valid() && View() == old(View()).(registry := old(View()).registry - {user})
    {
      ghost var next := View().(registry := View().registry - {user});
      sessions := sessions - {user};
      ViewIs(next);
    }

    lemma {:induction false} OwnRow(handler: Client)
      requires Valid() && Has(handler)
      ensures Own(View(), handler.id) == handler.session.Row() && View().handlers[handler.id] == handler.Row()
    {
      assert View().handlers[handler.id] == handler.Row();
      assert View().sessions[handler.session.id] == handler.session.Row();
    }

    // ---------- authentication ----------

    method CheckAuthenticated(handler: Client) returns (refused: bool)
      requires Valid() && Has(handler) && Enabled(View(), Check(handler.id))
      modifies handler`stage
      ensures Valid() && View() == Step(old(View()), Check(handler.id))
      ensures refused <==> IsAuthenticated(handler.session.Row())
    {
      OwnRow(handler);
      var credentials := handler.session.GetCredentials();
      refused := credentials.Some?;
      if !refused {
        SetStage(handler, Checked);
      }
    }

    /** `answer` is what the users table says to the credentials in the request. */
    method WriteCredentials(handler: Client, answer: Option<Credentials>)
      requires Valid() && Has(handler) && Enabled(View(), Write(handler.id, answer))
      modifies handler`stage, handler.session`sessionId, handler.session`userId
      ensures Valid() && View() == Step(old(View()), Write(handler.id, answer))
    {
      OwnRow(handler);
      if answer.Some? {
        Authenticate(handler.session, answer.value);
      }
      SetStage(handler, if answer.Some? then Written else Idle);
    }

    method EnterRegistry(handler: Client)
      requires Valid() && Has(handler) && Enabled(View(), Enter(handler.id))
      modifies this`sessions, handler`stage
      ensures Valid() && View() == Step(old(View()), Enter(handler.id))
      ensures handler.session.userId.Some? && handler.session.sessionId.Some? ==>
                sessions == old(sessions)[handler.session.userId.value := handler.session]
    {
      hide Shape;
      OwnRow(handler);
      var credentials := handler.session.GetCredentials();
      if credentials.Some? {
        InsertEntry(credentials.value.userId, handler.session);
      }
      SetStage(handler, Idle);
    }

    /** The three critical sections of an authentication, with nothing in between. */
    method HandleAuth(handler: Client, answer: Option<Credentials>) returns (ok: bool)
      requires Valid() && Has(handler) && Enabled(View(), Check(handler.id))
      modifies this`sessions, handler`stage, handler.session`sessionId, handler.session`userId
      ensures Valid() && View() == Authentication(old(View()), handler.id, answer)
      ensures ok <==> answer.Some? && !old(IsAuthenticated(Own(View(), handler.id)))
      ensures ok ==> handler.session.userId == Some(answer.value.userId) &&
                     handler.session.sessionId == Some(answer.value.sessionId) &&
                     sessions == old(sessions)[answer.value.userId := handler.session]
      ensures !ok ==> sessions == old(sessions) && handler.session.userId == old(handler.session.userId) &&
                      handler.session.sessionId == old(handler.session.sessionId)
    {
      OwnRow(handler);
      var refused := CheckAuthenticated(handler);
      if refused {
        return false;
      }
      WriteCredentials(handler, answer);
      if answer == None {
        return false;
      }
      EnterRegistry(handler);
      ok := true;
    }

    // ---------- bind ----------

    method MoveConnection(handler: Client, target: Session)
      requires Valid() && Has(handler) && Knows(target) && target != handler.session
      modifies handler, handler.session, target
      ensures Valid() && View() == Moved(old(View()), handler.id, target.id)
      ensures handler.session == target && target.connections == old(target.connections) + [handler.output]
    {
      OwnRow(handler);
      assert View().sessions[target.id] == target.Row();
      RemoveFrom(handler.session, handler);
      AddTo(target, handler);
      SetSession(handler, target);
    }

    /** The session id of a registered session is read without a test; the invariant says
        it is there. A bind to the client's own session waits for a lock it holds. */
    method HandleBind(handler: Client, user: int, sessionId: string) returns (answer: BindAnswer)
      requires Valid() && Has(handler) && Inv(View()) && Enabled(View(), Bind(handler.id, user, sessionId))
      modifies handler, handler.session, all
      ensures Valid() && View() == Step(old(View()), Bind(handler.id, user, sessionId))
      ensures answer == Refused <==> !(user in old(sessions) && old(sessions[user].sessionId) == Some(sessionId))
      ensures answer == NeverReturns <==> answer != Refused && old(sessions[user] == handler.session)
      ensures answer == Bound ==>
                handler.session == old(sessions)[user] &&
                handler.session.connections == old(sessions[user].connections) + [handler.output]
      ensures answer != Bound ==> handler.session == old(handler.session)
    {
      OwnRow(handler);
      if user !in sessions {
        return Refused;
      }
      var target := sessions[user];
      assert View().registry[user] == target.id && View().sessions[target.id] == target.Row();
      assert EntryOk(View(), user);
      if target.sessionId.value != sessionId {
        return Refused;
      }
      if target == handler.session {
        SetStage(handler, Stuck);
        return NeverReturns;
      }
      MoveConnection(handler, target);
      answer := Bound;
    }

    // ---------- leaving ----------

    method Drop(handler: Client)
      requires Valid() && Has(handler) && Enabled(View(), Leave(handler.id))
      modifies handler
      ensures Valid() && View() == Step(old(View()), Leave(handler.id))
    {
      SetStage(handler, Leaving);
    }

    method RunCleanUp(handler: Client)
      requires Valid() && Has(handler) && Enabled(View(), CleanUp(handler.id))
      modifies this`sessions, handler, handler.session
      ensures Valid() && View() == Step(old(View()), CleanUp(handler.id))
    {
      hide Without;
      OwnRow(handler);
      ghost var left := Own(View(), handler.id).(connections := Without(Own(View(), handler.id).connections, handler.id));
      RemoveFrom(handler.session, handler);
      SetStage(handler, Gone);
      var credentials := handler.session.GetCredentials();
      var unused := handler.session.connections == [];
      OwnRow(handler);
      assert handler.session.Row() == left && (unused <==> |left.connections| == 0);
      if credentials.Some? && unused {
        RemoveEntry(credentials.value.userId);
      }
    }

    // ---------- events ----------

    /** Goes to connection 0 of the session registered for the user; with none there the
        index is out of range and the sending task panics. */
    method SendEvent(user: int) returns (receiver: Option<TCPConnection>, panicked: bool)
      requires Valid()
      ensures panicked <==> user in sessions && sessions[user].connections == []
      ensures receiver.Some? <==> user in sessions && !panicked
      ensures receiver.Some? ==> receiver.value == sessions[user].connections[0] &&
                                 receiver.value.id < |handlers| && handlers[receiver.value.id].output == receiver.value
      ensures InRange(View()) ==> !panicked
    {
      receiver, panicked := None, false;
      if user in sessions {
        var session := sessions[user];
        assert View().registry[user] == session.id && View().sessions[session.id] == session.Row();
        if session.connections == [] {
          panicked := true;
        } else {
          receiver := Some(session.connections[0]);
        }
      }
    }
  }
}
