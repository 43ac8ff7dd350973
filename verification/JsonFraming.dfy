/** The JSON port: frames arrive cut into TCP reads, and each complete frame is
    handed to the message dispatcher. */
module JsonFraming {
  import opened ByteStrings
  import opened MessageBuilders

  const MAX_JSON_MSG_SIZE := 4096

  /** Where a connection stands between two reads.
      - `Deaf`: the first read of a frame held fewer than four bytes, so there is no
        builder although a frame has begun; every later read is ignored.
      - `Crashed`: the parser's slice was out of range and the task is gone. */
  datatype Phase = Idle | Receiving(frame: Frame) | Deaf | Crashed

  /** The phase after a run of reads, the frame bodies dispatched and the number of
      frames refused for their size. */
  datatype Outcome = Outcome(phase: Phase, dispatched: seq<Bytes>, refused: nat)

  function Step(phase: Phase, read: Bytes): Outcome {
    match phase
    case Deaf => Outcome(Deaf, [], 0)
    case Crashed => Outcome(Crashed, [], 0)
    case Receiving(frame) => Deliver(frame.(content := frame.content + read))
    case Idle =>
      match ParseFrame(read)
      case TooShort => Outcome(Deaf, [], 0)
      case SliceOutOfRange => Outcome(Crashed, [], 0)
      case Parsed(frame) =>
        if 1 <= frame.size <= MAX_JSON_MSG_SIZE then Deliver(frame) else Outcome(Idle, [], 1)
  }

  function Deliver(frame: Frame): Outcome {
    if |frame.content| >= frame.size then Outcome(Idle, [frame.content], 0) else Outcome(Receiving(frame), [], 0)
  }

  function Run(phase: Phase, segments: seq<Bytes>): Outcome
    decreases segments
  {
    if segments == [] then Outcome(phase, [], 0)
    else
      var first := Step(phase, segments[0]);
      var rest := Run(first.phase, segments[1..]);
      Outcome(rest.phase, first.dispatched + rest.dispatched, first.refused + rest.refused)
  }

  predicate Packable(bodies: seq<Bytes>) {
    forall i | 0 <= i < |bodies| :: |bodies[i]| < U32
  }

  /** The byte stream of a client that sends these bodies one after the other. */
  function Stream(bodies: seq<Bytes>): Bytes
    requires Packable(bodies)
  {
    if bodies == [] then [] else Pack(bodies[0]) + Stream(bodies[1..])
  }

  /** How many reads deliver exactly the next `n` bytes, if a read ends there. */
  function ReadsCovering(segments: seq<Bytes>, n: nat): Option<nat> {
    if n == 0 then Some(0)
    else if segments == [] || |segments[0]| > n then None
    else
      match ReadsCovering(segments[1..], n - |segments[0]|)
      case None => None
      case Some(k) => Some(k + 1)
  }

  /** What the code needs of the cutting: every frame ends where a read ends, its size
      is accepted, and its first read holds the length field and is not one to three
      bytes short of the whole frame. */
  predicate GoodCut(bodies: seq<Bytes>, segments: seq<Bytes>) {
    if bodies == [] then segments == []
    else
      1 <= |bodies[0]| <= 4096 &&
      match ReadsCovering(segments, 4 + |bodies[0]|)
      case None => false
      case Some(k) =>
        k <= |segments| && segments != [] &&
        GoodFirstRead(|bodies[0]|, |segments[0]|) &&
        GoodCut(bodies[1..], segments[k..])
  }

  predicate GoodFirstRead(bodyLength: nat, readLength: nat) {
    4 <= readLength && !(1 <= 4 + bodyLength - readLength <= 3)
  }

  lemma {:induction false} NothingLeft(segments: seq<Bytes>)
    requires NonEmpty(segments) && Flatten(segments) == []
    ensures segments == []
  {
  }

  // ---------- runs ----------

  lemma {:induction false} RunConcat(phase: Phase, a: seq<Bytes>, b: seq<Bytes>)
    ensures Run(phase, a + b).phase == Run(Run(phase, a).phase, b).phase
    ensures Run(phase, a + b).dispatched == Run(phase, a).dispatched + Run(Run(phase, a).phase, b).dispatched
    ensures Run(phase, a + b).refused == Run(phase, a).refused + Run(Run(phase, a).phase, b).refused
    decreases a
  {
    hide Step;
    if a == [] {
      assert a + b == b;
    } else {
      assert (a + b)[1..] == a[1..] + b;
      var first := Step(phase, a[0]);
      RunConcat(first.phase, a[1..], b);
      var front := Run(first.phase, a[1..]).dispatched;
      var back := Run(Run(phase, a).phase, b).dispatched;
      assert (first.dispatched + front) + back == first.dispatched + (front + back);
    }
  }

  function Then(before: Outcome, read: Bytes): Outcome {
    var step := Step(before.phase, read);
    Outcome(step.phase, before.dispatched + step.dispatched, before.refused + step.refused)
  }

  lemma {:induction false} RunSnoc(phase: Phase, segments: seq<Bytes>, i: nat)
    requires i < |segments|
    ensures Run(phase, segments[..i + 1]) == Then(Run(phase, segments[..i]), segments[i])
  {
    var last := [segments[i]];
    assert segments[..i + 1] == segments[..i] + last;
    RunConcat(phase, segments[..i], last);
    assert last[1..] == [];
  }

  lemma {:induction false} DeadPhasesStayDead(phase: Phase, segments: seq<Bytes>)
    requires phase.Deaf? || phase.Crashed?
    ensures Run(phase, segments) == Outcome(phase, [], 0)
  {
    if segments != [] {
      DeadPhasesStayDead(phase, segments[1..]);
    }
  }

  /** The bytes the wire must carry for these bodies to be dispatched. */
  function Cost(bodies: seq<Bytes>): nat {
    if bodies == [] then 0 else 4 + |bodies[0]| + Cost(bodies[1..])
  }

  lemma {:induction false} CostOfOne(body: Bytes)
    ensures Cost([body]) == 4 + |body|
  {
  }

  lemma {:induction false} CostConcat(a: seq<Bytes>, b: seq<Bytes>)
    ensures Cost(a + b) == Cost(a) + Cost(b)
  {
    if a == [] {
      assert a + b == b;
    } else {
      assert (a + b)[1..] == a[1..] + b;
      CostConcat(a[1..], b);
    }
  }

  function Credit(phase: Phase): nat {
    if phase.Receiving? then 4 + |phase.frame.content| else 0
  }

  lemma {:induction false} StepIsPaidFor(phase: Phase, read: Bytes)
    ensures Cost(Step(phase, read).dispatched) + Credit(Step(phase, read).phase) <= Credit(phase) + |read|
  {
    var step := Step(phase, read);
    if step.dispatched != [] {
      CostOfOne(step.dispatched[0]);
    }
  }

  /** Conservation: whatever arrives, in whatever pieces, a dispatched body has been
      paid for by its own four header bytes and its own content. */
  lemma {:induction false} DispatchedBytesWereReceived(phase: Phase, segments: seq<Bytes>)
    ensures Cost(Run(phase, segments).dispatched) + Credit(Run(phase, segments).phase)
         <= Credit(phase) + |Flatten(segments)|
    decreases segments
  {
    if segments != [] {
      var first := Step(phase, segments[0]);
      DispatchedBytesWereReceived(first.phase, segments[1..]);
      CostConcat(first.dispatched, Run(first.phase, segments[1..]).dispatched);
      StepIsPaidFor(phase, segments[0]);
    }
  }

  lemma {:induction false} StreamLength(bodies: seq<Bytes>)
    requires Packable(bodies)
    ensures |Stream(bodies)| == Cost(bodies)
  {
    if bodies != [] {
      StreamLength(bodies[1..]);
    }
  }

  lemma {:induction false} CoveringReads(segments: seq<Bytes>, n: nat)
    requires NonEmpty(segments)
    ensures var c := ReadsCovering(segments, n);
            c.Some? ==>
              c.value <= |segments| && |Flatten(segments[..c.value])| == n &&
              Flatten(segments) == Flatten(segments[..c.value]) + Flatten(segments[c.value..])
    decreases segments
  {
    var c := ReadsCovering(segments, n);
    if n != 0 && c.Some? {
      CoveringReads(segments[1..], n - |segments[0]|);
      assert segments[..c.value] == [segments[0]] + segments[1..][..c.value - 1];
      assert segments[..c.value][1..] == segments[1..][..c.value - 1];
    }
    if c.Some? {
      assert segments == segments[..c.value] + segments[c.value..];
      FlattenConcat(segments[..c.value], segments[c.value..]);
    }
  }

  lemma {:induction false} CoveringIsUnique(segments: seq<Bytes>, k: nat)
    requires NonEmpty(segments) && k <= |segments|
    ensures ReadsCovering(segments, |Flatten(segments[..k])|) == Some(k)
  {
    if k > 0 {
      assert segments[..k][1..] == segments[1..][..k - 1];
      CoveringIsUnique(segments[1..], k - 1);
    }
  }

  // ---------- one frame ----------

  lemma {:induction false} ReceiveRest(body: Bytes, got: nat, segments: seq<Bytes>)
    requires got < |body| && NonEmpty(segments)
    requires Flatten(segments) == body[got..]
    ensures Run(Receiving(Frame(|body|, body[..got])), segments) == Outcome(Idle, [body], 0)
    decreases segments
  {
    assert segments != [];
    var next := got + |segments[0]|;
    assert segments[0] == body[got..][..|segments[0]|];
    assert body[..got] + segments[0] == body[..next];
    assert Flatten(segments[1..]) == body[got..][|segments[0]|..] == body[next..];
    if next < |body| {
      ReceiveRest(body, next, segments[1..]);
    } else {
      assert body[..next] == body;
      NothingLeft(segments[1..]);
    }
  }

  lemma {:induction false} FrameDelivered(body: Bytes, segments: seq<Bytes>)
    requires 1 <= |body| <= MAX_JSON_MSG_SIZE && NonEmpty(segments)
    requires Flatten(segments) == Pack(body)
    requires GoodFirstRead(|body|, |segments[0]|)
    ensures Run(Idle, segments) == Outcome(Idle, [body], 0)
  {
    var read := segments[0];
    assert Pack(body) == read + Flatten(segments[1..]);
    assert read <= Pack(body) + [];
    ParseReadOfFrame(body, [], read);
    if |read| < 4 + |body| {
      var got := |read| - 4;
      assert Flatten(segments[1..]) == Pack(body)[|read|..] == body[got..];
      ReceiveRest(body, got, segments[1..]);
    } else {
      assert Flatten(segments[1..]) == [];
      NothingLeft(segments[1..]);
    }
  }

  /** A frame whose first read or size the handler cannot take is never dispatched
      from its own bytes. */
  lemma {:induction false} FrameLost(body: Bytes, segments: seq<Bytes>)
    requires |body| < U32 && segments != []
    requires Flatten(segments) == Pack(body)
    requires !(1 <= |body| <= MAX_JSON_MSG_SIZE && GoodFirstRead(|body|, |segments[0]|))
    ensures Run(Idle, segments).dispatched != [body]
  {
    var read := segments[0];
    assert Pack(body) == read + Flatten(segments[1..]);
    assert read <= Pack(body) + [];
    ParseReadOfFrame(body, [], read);
    var first := Step(Idle, read);
    if !GoodFirstRead(|body|, |read|) {
      DeadPhasesStayDead(first.phase, segments[1..]);
    } else {
      DispatchedBytesWereReceived(Idle, segments[1..]);
      assert Cost([body]) == 4 + |body|;
    }
  }

  /** A frame of refused size whose first read is taken is answered once, by an error, and
      the reads after it are handled as if it had not been there. */
  lemma {:induction false} RefusedFrame(body: Bytes, read: Bytes, segments: seq<Bytes>)
    requires |body| < U32 && !(1 <= |body| <= MAX_JSON_MSG_SIZE)
    requires read <= Pack(body) && GoodFirstRead(|body|, |read|)
    ensures var later := Run(Idle, segments);
            Run(Idle, [read] + segments) == Outcome(later.phase, later.dispatched, 1 + later.refused)
  {
    assert read <= Pack(body) + [];
    ParseReadOfFrame(body, [], read);
    assert ([read] + segments)[1..] == segments;
    assert [] + Run(Idle, segments).dispatched == Run(Idle, segments).dispatched;
  }

  /** So behind a refused frame in one read, well-cut frames are dispatched in order. */
  lemma {:induction false} DispatchBehindRefused(body: Bytes, bodies: seq<Bytes>, segments: seq<Bytes>)
    requires |body| < U32 && !(1 <= |body| <= MAX_JSON_MSG_SIZE)
    requires Packable(bodies) && NonEmpty(segments) && Flatten(segments) == Stream(bodies) && GoodCut(bodies, segments)
    ensures Run(Idle, [Pack(body)] + segments) == Outcome(Idle, bodies, 1)
  {
    RefusedFrame(body, Pack(body), segments);
    GoodCutDispatches(bodies, segments);
  }

  /** The body `{}` in two reads: cut inside the length field it is never dispatched and
      nothing after it is; cut one byte before its end it stops the task. */
  lemma {:induction false} LostFrameExample()
    ensures Pack([123, 125]) == [0, 0, 0, 2, 123, 125]
    ensures Run(Idle, [[0, 0], [0, 2, 123, 125]]) == Outcome(Deaf, [], 0)
    ensures Run(Idle, [[0, 0, 0, 2, 123], [125]]) == Outcome(Crashed, [], 0)
  {
    assert Pack([123, 125]) == [0, 0, 0, 2, 123, 125];
    var shortReads: seq<Bytes> := [[0, 0], [0, 2, 123, 125]];
    var lateReads: seq<Bytes> := [[0, 0, 0, 2, 123], [125]];
    assert lateReads[0] <= Pack([123, 125]) + [];
    ParseReadOfFrame([123, 125], [], lateReads[0]);
    DeadPhasesStayDead(Deaf, shortReads[1..]);
    DeadPhasesStayDead(Crashed, lateReads[1..]);
  }

  // ---------- whole streams ----------

  lemma {:induction false} StepDispatchesOne(phase: Phase, read: Bytes)
    ensures var step := Step(phase, read);
            step.dispatched == [] || (step.phase == Idle && |step.dispatched| == 1)
  {
  }

  /** The reads up to and including the one that completes the first dispatch. */
  lemma {:induction false} FirstDispatch(phase: Phase, segments: seq<Bytes>) returns (k: nat)
    requires Run(phase, segments).dispatched != []
    ensures 1 <= k <= |segments|
    ensures Run(phase, segments[..k]).phase == Idle
    ensures Run(phase, segments[..k]).dispatched == Run(phase, segments).dispatched[..1]
    ensures Run(Idle, segments[k..]).dispatched == Run(phase, segments).dispatched[1..]
    ensures Run(Idle, segments[k..]).phase == Run(phase, segments).phase
    decreases segments
  {
    hide Step;
    var first := Step(phase, segments[0]);
    StepDispatchesOne(phase, segments[0]);
    if first.dispatched != [] {
      k := 1;
      assert segments[..1][1..] == [];
    } else {
      var j := FirstDispatch(first.phase, segments[1..]);
      k := j + 1;
      assert segments[..k][1..] == segments[1..][..j];
      assert segments[k..] == segments[1..][j..];
    }
  }

  /** Segmentation independence, and exactly how far it goes: for every list of bodies
      and every cutting of their stream into reads, the handler dispatches precisely
      that list, in order, if and only if the cut is good. */
  lemma {:induction false} DispatchesExactlyTheBodies(bodies: seq<Bytes>, segments: seq<Bytes>)
    requires Packable(bodies)
    requires NonEmpty(segments)
    requires Flatten(segments) == Stream(bodies)
    ensures Run(Idle, segments).dispatched == bodies <==> GoodCut(bodies, segments)
    ensures GoodCut(bodies, segments) ==> Run(Idle, segments) == Outcome(Idle, bodies, 0)
    decreases |bodies|
  {
    if bodies == [] {
      NothingLeft(segments);
    } else {
      if GoodCut(bodies, segments) {
        GoodCutDispatches(bodies, segments);
      }
      if Run(Idle, segments).dispatched == bodies {
        DispatchNeedsGoodCut(bodies, segments);
      }
    }
  }

  /** The reads of the first frame of a good cut. */
  lemma {:induction false} GoodCutSplits(bodies: seq<Bytes>, segments: seq<Bytes>) returns (k: nat)
    requires bodies != [] && Packable(bodies) && NonEmpty(segments)
    requires Flatten(segments) == Stream(bodies) && GoodCut(bodies, segments)
    ensures 1 <= k <= |segments| && GoodCut(bodies[1..], segments[k..])
    ensures Flatten(segments[..k]) == Pack(bodies[0]) && Flatten(segments[k..]) == Stream(bodies[1..])
  {
    CoveringReads(segments, 4 + |bodies[0]|);
    k := ReadsCovering(segments, 4 + |bodies[0]|).value;
    SplitEqual(Flatten(segments[..k]), Flatten(segments[k..]), Pack(bodies[0]), Stream(bodies[1..]));
  }

  lemma {:induction false} GoodCutDispatches(bodies: seq<Bytes>, segments: seq<Bytes>)
    requires Packable(bodies)
    requires NonEmpty(segments)
    requires Flatten(segments) == Stream(bodies)
    requires GoodCut(bodies, segments)
    ensures Run(Idle, segments) == Outcome(Idle, bodies, 0)
  {
    hide Step, ReadsCovering;
    if bodies != [] {
      var k := GoodCutSplits(bodies, segments);
      var front, back := segments[..k], segments[k..];
      assert front[0] == segments[0];
      FrameDelivered(bodies[0], front);
      GoodCutDispatches(bodies[1..], back);
      assert segments == front + back;
      RunConcat(Idle, front, back);
    }
  }

  lemma {:induction false} GoodCutCons(bodies: seq<Bytes>, segments: seq<Bytes>, k: nat)
    requires bodies != [] && 1 <= k <= |segments|
    requires ReadsCovering(segments, 4 + |bodies[0]|) == Some(k)
    requires 1 <= |bodies[0]| <= MAX_JSON_MSG_SIZE && GoodFirstRead(|bodies[0]|, |segments[0]|)
    requires GoodCut(bodies[1..], segments[k..])
    ensures GoodCut(bodies, segments)
  {
  }

  lemma {:induction false} DispatchNeedsGoodCut(bodies: seq<Bytes>, segments: seq<Bytes>)
    requires Packable(bodies)
    requires NonEmpty(segments)
    requires Flatten(segments) == Stream(bodies)
    requires Run(Idle, segments).dispatched == bodies
    ensures GoodCut(bodies, segments)
    decreases |bodies|
  {
    if bodies == [] {
      NothingLeft(segments);
    } else {
      var k := FirstFrameReads(bodies, segments);
      DispatchNeedsGoodCut(bodies[1..], segments[k..]);
      CoveringIsUnique(segments, k);
      GoodCutCons(bodies, segments, k);
    }
  }

  lemma {:induction false} NothingToSpare(bodies: seq<Bytes>, front: seq<Bytes>, back: seq<Bytes>)
    requires bodies != [] && Packable(bodies)
    requires Flatten(front) + Flatten(back) == Stream(bodies)
    requires Run(Idle, front).dispatched == [bodies[0]] && Run(Idle, back).dispatched == bodies[1..]
    ensures Flatten(front) == Pack(bodies[0]) && Flatten(back) == Stream(bodies[1..])
  {
    StreamLength(bodies);
    CostOfOne(bodies[0]);
    DispatchedBytesWereReceived(Idle, front);
    DispatchedBytesWereReceived(Idle, back);
    SplitEqual(Flatten(front), Flatten(back), Pack(bodies[0]), Stream(bodies[1..]));
  }

  /** The reads of the first dispatch are exactly the bytes of the first frame: any
      other split leaves too few bytes for the bodies still to come. */
  lemma {:induction false} FirstFrameReads(bodies: seq<Bytes>, segments: seq<Bytes>) returns (k: nat)
    requires bodies != [] && Packable(bodies)
    requires NonEmpty(segments)
    requires Flatten(segments) == Stream(bodies)
    requires Run(Idle, segments).dispatched == bodies
    ensures 1 <= k <= |segments|
    ensures 1 <= |bodies[0]| <= MAX_JSON_MSG_SIZE && GoodFirstRead(|bodies[0]|, |segments[0]|)
    ensures |Flatten(segments[..k])| == 4 + |bodies[0]|
    ensures Flatten(segments[k..]) == Stream(bodies[1..])
    ensures Run(Idle, segments[k..]).dispatched == bodies[1..]
  {
    hide Run;
    var body := bodies[0];
    k := FirstDispatch(Idle, segments);
    var front, back := segments[..k], segments[k..];
    assert segments == front + back;
    FlattenConcat(front, back);
    assert bodies[..1] == [body];
    NothingToSpare(bodies, front, back);
    assert front[0] == segments[0];
    if !(1 <= |body| <= MAX_JSON_MSG_SIZE && GoodFirstRead(|body|, |front[0]|)) {
      FrameLost(body, front);
    }
  }

  // ---------- the handler ----------

  class JsonHandler {
    var builder: MessageBuilder?
    var isMessageFirst: bool
    /** The task has panicked. */
    var crashed: bool
    /** Bodies handed to `try_handle_json_message`, in order. */
    var dispatched: seq<Bytes>
    /** Errors sent for frames of size 0 or above the maximum. */
    var refused: nat

    ghost function Repr(): set<object>
      reads this
    {
      {this} + if builder == null then {} else {builder}
    }

    ghost predicate Valid()
      reads Repr()
    {
      (crashed || isMessageFirst ==> builder == null) &&
      (builder != null ==> |builder.content| < builder.size && builder.utf8Content == None)
    }

    ghost function View(): Phase
      reads Repr()
    {
      if crashed then Crashed
      else if isMessageFirst then Idle
      else if builder == null then Deaf
      else Receiving(builder.View())
    }

    constructor ()
      ensures Valid() && View() == Idle && dispatched == [] && refused == 0
    {
      builder, isMessageFirst, crashed, dispatched, refused := null, true, false, [], 0;
    }

    method HandleSegmentedFrame(buffer: Bytes)
      requires Valid() && |buffer| <= MAX_READ
      modifies Repr()
      ensures Valid() && fresh(Repr() - old(Repr()))
      ensures View() == Step(old(View()), buffer).phase
      ensures dispatched == old(dispatched) + Step(old(View()), buffer).dispatched
      ensures refused == old(refused) + Step(old(View()), buffer).refused
    {
      if crashed {
        return;
      }
      if isMessageFirst {
        var outcome;
        outcome, builder := MessageBuilder.Parse(buffer);
        if outcome == SliceOutOfRange {
          crashed := true;
          return;
        }
        if builder != null {
          if builder.size == 0 || builder.size > MAX_JSON_MSG_SIZE {
            refused := refused + 1;
            builder := null;
            isMessageFirst := true;
            return;
          }
          if !builder.Ready() {
            isMessageFirst := false;
            return;
          }
        }
      }
      var doHandle := false;
      if builder != null {
        if !builder.Ready() && !isMessageFirst {
          builder.Extend(buffer);
        }
        if builder.Ready() {
          doHandle := true;
        }
      }
      isMessageFirst := false;
      if doHandle {
        dispatched := dispatched + [builder.content];
        builder.Clear();
        builder := null;
        isMessageFirst := true;
      }
    }

    /** The read loop of one JSON connection. */
    method ServeConnection(segments: seq<Bytes>)
      requires Valid()
      requires forall i | 0 <= i < |segments| :: 0 < |segments[i]| <= MAX_READ
      modifies Repr()
      ensures Valid()
      ensures View() == Run(old(View()), segments).phase
      ensures dispatched == old(dispatched) + Run(old(View()), segments).dispatched
      ensures refused == old(refused) + Run(old(View()), segments).refused
    {
      ghost var start, done := View(), Outcome(View(), [], 0);
      for i := 0 to |segments|
        invariant Valid() && fresh(Repr() - old(Repr()))
        invariant done == Run(start, segments[..i])
        invariant View() == done.phase && dispatched == old(dispatched) + done.dispatched
        invariant refused == old(refused) + done.refused
      {
        RunSnoc(start, segments, i);
        done := Then(done, segments[i]);
        HandleSegmentedFrame(segments[i]);
      }
      assert segments[..|segments|] == segments;
    }
  }
}
