/** The files port: a JSON request frame, and for an upload an eight-byte length and
    the payload, all cut into TCP reads that arrive one at a time. */
module FileTransfer {
  import opened ByteStrings
  import opened MessageBuilders
  import opened FileStore

  const U64 := 0x1_0000_0000_0000_0000

  /** The constant as written, 4 * 1024^4 bytes. */
  const MAX_MSG_SIZE := 4 * (1024 * 1024 * 1024 * 1024)

  /** What the JSON of a request asks for. `UploadFile(None)` names the method but its
      fields do not decode; `Unknown` is everything else that is answered by an error. */
  datatype Request =
    | UploadFile(meta: Option<FileMeta>)
    | DownloadFile(hash: Digest, mode: FetchMode)
    | DownloadMetadata(hash: Digest)
    | Unknown

  /** JSON decoding of a request body. */
  type Decoder = Bytes -> Request

  /** Where a connection stands between two reads.
      - `Idle`: waiting for a request frame, with the bytes that earlier incomplete
        requests left in `content_buf`.
      - `AwaitLength`: upload requested, fewer than eight length bytes so far.
      - `Uploading`: `done` went to the uploader, `buffered` did not yet. */
  datatype Phase =
    | Idle(stray: Bytes)
    | AwaitLength(asked: Option<FileMeta>, start: Bytes, stray: Bytes)
    | Uploading(meta: FileMeta, size: nat, done: Bytes, buffered: Bytes)
    | Crashed

  /** What a read makes the handler do besides moving on. */
  datatype Action =
    | Finalize(meta: FileMeta, content: Bytes)
    | Download(hash: Digest, mode: FetchMode)
    | Describe(hash: Digest)
    | Refuse

  datatype Moved = Moved(phase: Phase, action: Option<Action>)

  datatype Outcome = Outcome(phase: Phase, actions: seq<Action>)

  const RESET := Idle([])

  function Step(decode: Decoder, phase: Phase, read: Bytes): Moved {
    match phase
    case Crashed => Moved(Crashed, None)
    case AwaitLength(meta, start, stray) => TakeStart(meta, start + read, stray)
    case Uploading(meta, size, done, buffered) => Consume(meta, size, done, buffered + read)
    case Idle(stray) =>
      match ParseFrame(read)
      case TooShort => Moved(Idle(stray + read), None)
      case SliceOutOfRange => Moved(Crashed, None)
      case Parsed(frame) =>
        if |frame.content| < frame.size then Moved(Idle(stray + read), None)
        else OnRequest(decode, frame.content, read[4 + |frame.content|..], [], stray)
  }

  /** The request frame is complete; `next` are the bytes of this read behind it. */
  function OnRequest(decode: Decoder, content: Bytes, next: Bytes, start: Bytes, stray: Bytes): Moved {
    if !ValidUtf8(content) then Moved(RESET, Some(Refuse))
    else
      match decode(content)
      case Unknown => Moved(RESET, Some(Refuse))
      case DownloadFile(hash, mode) => Moved(RESET, Some(Download(hash, mode)))
      case DownloadMetadata(hash) => Moved(RESET, Some(Describe(hash)))
      case UploadFile(meta) =>
        if next == [] then Moved(AwaitLength(meta, start, stray), None) else TakeStart(meta, start + next, stray)
  }

  /** `start` is everything received since the request frame. */
  function TakeStart(meta: Option<FileMeta>, start: Bytes, stray: Bytes): Moved {
    if meta == None then Moved(RESET, Some(Refuse))
    else if |start| < 8 then Moved(AwaitLength(meta, start, stray), None)
    else
      var size := FromBigEndian(start[..8]);
      if size > MAX_MSG_SIZE || !AcceptsName(meta.value) then Moved(RESET, Some(Refuse))
      else Consume(meta.value, size, [], stray + start[8..])
  }

  /** How many of the buffered bytes the uploader is given. Once more has been uploaded
      than announced the 64-bit difference wraps. */
  function Portion(size: nat, done: nat, buffered: nat): (k: nat)
    ensures k <= buffered
  {
    var rest := (size - done) % U64;
    if buffered > rest then buffered - rest else buffered
  }

  function Consume(meta: FileMeta, size: nat, done: Bytes, buffered: Bytes): Moved {
    var k := Portion(size, |done|, |buffered|);
    var done' := done + buffered[..k];
    if buffered != [] && |done'| == size then Moved(RESET, Some(Finalize(meta, done')))
    else Moved(Uploading(meta, size, done', buffered[k..]), None)
  }

  function Run(decode: Decoder, phase: Phase, segments: seq<Bytes>): Outcome
    decreases segments
  {
    if segments == [] then Outcome(phase, [])
    else
      var first := Step(decode, phase, segments[0]);
      var rest := Run(decode, first.phase, segments[1..]);
      Outcome(rest.phase, AsSeq(first.action) + rest.actions)
  }

  function AsSeq<T>(o: Option<T>): seq<T> {
    match o case None => [] case Some(x) => [x]
  }

  // ---------- runs ----------

  lemma {:induction false} RunConcat(decode: Decoder, phase: Phase, a: seq<Bytes>, b: seq<Bytes>)
    ensures var front := Run(decode, phase, a);
            var back := Run(decode, front.phase, b);
            Run(decode, phase, a + b) == Outcome(back.phase, front.actions + back.actions)
    decreases a
  {
    hide Step;
    if a == [] {
      assert a + b == b;
    } else {
      assert (a + b)[1..] == a[1..] + b;
      var first := Step(decode, phase, a[0]);
      RunConcat(decode, first.phase, a[1..], b);
      var front := Run(decode, first.phase, a[1..]);
      var back := Run(decode, front.phase, b);
      assert (AsSeq(first.action) + front.actions) + back.actions == AsSeq(first.action) + (front.actions + back.actions);
    }
  }

  function Then(decode: Decoder, before: Outcome, read: Bytes): Outcome {
    var step := Step(decode, before.phase, read);
    Outcome(step.phase, before.actions + AsSeq(step.action))
  }

  lemma {:induction false} RunSnoc(decode: Decoder, phase: Phase, segments: seq<Bytes>, i: nat)
    requires i < |segments|
    ensures Run(decode, phase, segments[..i + 1]) == Then(decode, Run(decode, phase, segments[..i]), segments[i])
  {
    var last := [segments[i]];
    assert segments[..i + 1] == segments[..i] + last;
    RunConcat(decode, phase, segments[..i], last);
    assert last[1..] == [];
  }

  // ---------- the request frame ----------

  /** A request frame whose body decodes to a well-formed upload. */
  ghost predicate UploadRequest(decode: Decoder, body: Bytes, meta: FileMeta) {
    |body| < U32 && ValidUtf8(body) && decode(body) == UploadFile(Some(meta)) && AcceptsName(meta)
  }

  /** The read that begins a request is recognised exactly when it holds the whole
      request frame; otherwise the handler keeps waiting for a request with the read
      stuck in its content buffer, or it has crashed. */
  lemma {:induction false} RequestNeedsWholeFrame(decode: Decoder, body: Bytes, meta: FileMeta, stray: Bytes, tail: Bytes, read: Bytes)
    requires UploadRequest(decode, body, meta)
    requires read <= Pack(body) + tail
    ensures var next := Step(decode, Idle(stray), read);
            if |read| >= |Pack(body)| then
              next == if |read| == |Pack(body)| then Moved(AwaitLength(Some(meta), [], stray), None)
                      else TakeStart(Some(meta), read[|Pack(body)|..], stray)
            else next == Moved(Idle(stray + read), None) || next == Moved(Crashed, None)
  {
    ParseReadOfFrame(body, tail, read);
    if |read| >= |Pack(body)| {
      assert [] + read[|Pack(body)|..] == read[|Pack(body)|..];
    }
  }

  /** A complete request other than an upload acts at once, as it says, and the handler is
      then as it was at first: whatever stood in the content buffer and whatever follows the
      request in its read is dropped. */
  lemma {:induction false} RequestsActAtOnce(decode: Decoder, body: Bytes, stray: Bytes, read: Bytes)
    requires |body| < U32 && Pack(body) <= read && !(ValidUtf8(body) && decode(body).UploadFile?)
    ensures var next := Step(decode, Idle(stray), read);
            && next.phase == Idle([]) && next.action.Some?
            && (forall hash, mode :: next.action == Some(Download(hash, mode))
                                     <==> ValidUtf8(body) && decode(body) == DownloadFile(hash, mode))
            && (forall hash :: next.action == Some(Describe(hash))
                               <==> ValidUtf8(body) && decode(body) == DownloadMetadata(hash))
            && (next.action == Some(Refuse) <==> !ValidUtf8(body) || decode(body) == Unknown)
  {
    assert read == Pack(body) + read[|Pack(body)|..];
    ParseReadOfFrame(body, read[|Pack(body)|..], read);
  }

  /** The same for one read from the start of a connection. */
  lemma {:induction false} RequestIsRun(decode: Decoder, body: Bytes)
    requires |body| < U32 && ValidUtf8(body)
    ensures forall hash, mode | decode(body) == DownloadFile(hash, mode) ::
              Run(decode, RESET, [Pack(body)]) == Outcome(RESET, [Download(hash, mode)])
    ensures forall hash | decode(body) == DownloadMetadata(hash) ::
              Run(decode, RESET, [Pack(body)]) == Outcome(RESET, [Describe(hash)])
    ensures decode(body) == Unknown ==> Run(decode, RESET, [Pack(body)]) == Outcome(RESET, [Refuse])
  {
    var only := [Pack(body)];
    assert only[1..] == [];
    assert Run(decode, Step(decode, RESET, only[0]).phase, []).actions == [];
    if !decode(body).UploadFile? {
      RequestsActAtOnce(decode, body, [], Pack(body));
    }
  }

  /** An upload whose fields do not decode, whose name is not accepted or whose size is above
      the limit is refused, by the read with the first byte behind the request or with the
      last byte of the length, and by no earlier one. */
  lemma {:induction false} BadUploadIsRefused(decode: Decoder, asked: Option<FileMeta>, start: Bytes, stray: Bytes, read: Bytes)
    ensures var next := Step(decode, AwaitLength(asked, start, stray), read);
            var now := start + read;
            next == Moved(RESET, Some(Refuse))
            <==> asked == None || (|now| >= 8 && (!AcceptsName(asked.value) || FromBigEndian(now[..8]) > MAX_MSG_SIZE))
  {
  }

  // ---------- one upload ----------

  /** The bytes that follow the request frame of an upload. */
  function UploadStream(payload: Bytes): Bytes
    requires |payload| <= MAX_MSG_SIZE
  {
    assert Power256(8) == U64;
    BigEndian(|payload|, 8) + payload
  }

  function AnnouncedSize(stream: Bytes): nat
    requires |stream| >= 8
  {
    FromBigEndian(stream[..8])
  }

  lemma {:induction false} UploadStreamAnnounces(payload: Bytes)
    requires |payload| <= MAX_MSG_SIZE
    ensures AnnouncedSize(UploadStream(payload)) == |payload|
  {
    assert Power256(8) == U64;
    BigEndianRoundTrip(|payload|, 8);
    assert UploadStream(payload)[..8] == BigEndian(|payload|, 8);
  }

  /** What an upload that has not acted yet looks like after `stream` has arrived. */
  ghost predicate KeepsOrder(meta: FileMeta, stream: Bytes, phase: Phase) {
    if |stream| < 8 then phase == AwaitLength(Some(meta), stream, [])
    else
      phase.Uploading? && phase.meta == meta &&
      phase.size == AnnouncedSize(stream) <= MAX_MSG_SIZE &&
      phase.done + phase.buffered == stream[8..]
  }

  lemma {:induction false} ConsumeKeepsOrder(meta: FileMeta, size: nat, done: Bytes, buffered: Bytes)
    ensures var next := Consume(meta, size, done, buffered);
            var all := done + buffered;
            match next.action
            case None =>
              next.phase.Uploading? && next.phase.meta == meta && next.phase.size == size &&
              next.phase.done + next.phase.buffered == all
            case Some(action) => size <= |all| && action == Finalize(meta, all[..size])
  {
    var k := Portion(size, |done|, |buffered|);
    assert done + buffered == (done + buffered[..k]) + buffered[k..];
  }

  /** As long as no more arrives than was announced, everything is uploaded at once. */
  lemma {:induction false} ConsumeAll(meta: FileMeta, size: nat, done: Bytes, buffered: Bytes)
    requires |done| + |buffered| <= size <= MAX_MSG_SIZE
    ensures Consume(meta, size, done, buffered)
         == if buffered != [] && |done| + |buffered| == size then Moved(RESET, Some(Finalize(meta, done + buffered)))
            else Moved(Uploading(meta, size, done + buffered, []), None)
  {
    assert (size - |done|) % U64 == size - |done|;
    assert buffered[..|buffered|] == buffered && buffered[|buffered|..] == [];
  }

  lemma {:induction false} StepKeepsOrder(decode: Decoder, meta: FileMeta, stream: Bytes, phase: Phase, read: Bytes)
    requires AcceptsName(meta) && KeepsOrder(meta, stream, phase)
    ensures var next := Step(decode, phase, read);
            var now := stream + read;
            match next.action
            case None => KeepsOrder(meta, now, next.phase)
            case Some(action) => |now| >= 8 && StoresFront(meta, now, action)
  {
    var now := stream + read;
    if |now| >= 8 {
      if |stream| < 8 {
        ConsumeKeepsOrder(meta, AnnouncedSize(now), [], [] + now[8..]);
        assert [] + ([] + now[8..]) == now[8..];
      } else {
        assert now[..8] == stream[..8];
        ConsumeKeepsOrder(meta, phase.size, phase.done, phase.buffered + read);
        assert phase.done + (phase.buffered + read) == now[8..];
      }
      if 8 + AnnouncedSize(now) <= |now| {
        assert now[8..][..AnnouncedSize(now)] == now[8..8 + AnnouncedSize(now)];
      }
    }
  }

  /** Either the announced size is refused, or exactly that many bytes from the front of
      the payload are stored. */
  ghost predicate StoresFront(meta: FileMeta, stream: Bytes, action: Action)
    requires |stream| >= 8
  {
    var size := AnnouncedSize(stream);
    if size > 4_398_046_511_104 then action == Refuse
    else 8 + size <= |stream| && action == Finalize(meta, stream[8..8 + size])
  }

  /** Byte conservation, whatever the cut and whatever follows the payload: until the
      handler acts, what it gave to the uploader followed by what it still buffers is
      exactly what it has received, in order. */
  lemma {:induction false} UploadKeepsOrder(decode: Decoder, meta: FileMeta, segments: seq<Bytes>)
    requires AcceptsName(meta)
    requires Run(decode, AwaitLength(Some(meta), [], []), segments).actions == []
    ensures KeepsOrder(meta, Flatten(segments), Run(decode, AwaitLength(Some(meta), [], []), segments).phase)
    decreases |segments|
  {
    if segments != [] {
      var i := |segments| - 1;
      var earlier, read := segments[..i], segments[i];
      assert segments[..i + 1] == segments == earlier + [read];
      RunSnoc(decode, AwaitLength(Some(meta), [], []), segments, i);
      UploadKeepsOrder(decode, meta, earlier);
      StepKeepsOrder(decode, meta, Flatten(earlier), Run(decode, AwaitLength(Some(meta), [], []), earlier).phase, read);
      FlattenConcat(earlier, [read]);
      assert Flatten([read]) == read;
    }
  }

  /** Whatever is stored first is the announced number of bytes from the front of the
      payload: no cutting and no overrun can store anything else. */
  lemma {:induction false} FirstStoredIsThePayload(decode: Decoder, meta: FileMeta, segments: seq<Bytes>, read: Bytes, action: Action)
    requires AcceptsName(meta)
    requires Run(decode, AwaitLength(Some(meta), [], []), segments).actions == []
    requires Step(decode, Run(decode, AwaitLength(Some(meta), [], []), segments).phase, read).action == Some(action)
    ensures |Flatten(segments) + read| >= 8
    ensures StoresFront(meta, Flatten(segments) + read, action)
  {
    UploadKeepsOrder(decode, meta, segments);
    StepKeepsOrder(decode, meta, Flatten(segments), Run(decode, AwaitLength(Some(meta), [], []), segments).phase, read);
  }

  /** An upload within its bounds: `got` has arrived since the request. */
  function Progress(meta: FileMeta, payload: Bytes, got: Bytes): Phase
    requires |got| <= 8 + |payload|
  {
    if |got| < 8 then AwaitLength(Some(meta), got, []) else Uploading(meta, |payload|, payload[..|got| - 8], [])
  }

  /** Up to the last byte of the payload nothing is stored and nothing is buffered. */
  lemma {:induction false} UploadInProgress(decode: Decoder, meta: FileMeta, payload: Bytes, segments: seq<Bytes>)
    requires AcceptsName(meta) && |payload| <= MAX_MSG_SIZE
    requires |Flatten(segments)| <= 8 + |payload| && Flatten(segments) <= UploadStream(payload)
    requires |Flatten(segments)| < 8 + |payload| || payload == []
    ensures Run(decode, AwaitLength(Some(meta), [], []), segments)
         == Outcome(Progress(meta, payload, Flatten(segments)), [])
    decreases |segments|
  {
    if segments != [] {
      var i := |segments| - 1;
      var earlier, read := segments[..i], segments[i];
      assert segments[..i + 1] == segments == earlier + [read];
      FlattenConcat(earlier, [read]);
      assert Flatten([read]) == read;
      UploadInProgress(decode, meta, payload, earlier);
      ProgressStep(decode, meta, payload, Flatten(earlier), read);
      RunSnoc(decode, AwaitLength(Some(meta), [], []), segments, i);
    }
  }

  lemma {:induction false} ProgressStep(decode: Decoder, meta: FileMeta, payload: Bytes, got: Bytes, read: Bytes)
    requires AcceptsName(meta) && |payload| <= MAX_MSG_SIZE
    requires got + read <= UploadStream(payload)
    requires |got + read| < 8 + |payload| || payload == []
    ensures Step(decode, Progress(meta, payload, got), read) == Moved(Progress(meta, payload, got + read), None)
  {
    UploadStreamAnnounces(payload);
    var stream := UploadStream(payload);
    var now := got + read;
    assert now == stream[..|now|];
    if |now| >= 8 {
      assert now[..8] == stream[..8];
      var data := payload[..|now| - 8];
      assert now[8..] == data;
      if |got| < 8 {
        assert [] + ([] + data) == data;
        ConsumeAll(meta, |payload|, [], [] + data);
      } else {
        var before := payload[..|got| - 8];
        assert before + ([] + read) == data;
        ConsumeAll(meta, |payload|, before, [] + read);
      }
    }
  }

  /** The read that brings the last byte stores the payload and resets the handler. */
  lemma {:induction false} LastRead(decode: Decoder, meta: FileMeta, payload: Bytes, got: Bytes, read: Bytes)
    requires AcceptsName(meta) && 0 < |payload| <= MAX_MSG_SIZE
    requires got + read == UploadStream(payload) && read != []
    ensures Step(decode, Progress(meta, payload, got), read) == Moved(RESET, Some(Finalize(meta, payload)))
  {
    UploadStreamAnnounces(payload);
    var stream := UploadStream(payload);
    assert stream[8..] == payload;
    if |got| < 8 {
      assert [] + ([] + payload) == payload;
      ConsumeAll(meta, |payload|, [], [] + payload);
    } else {
      var before := payload[..|got| - 8];
      assert before + ([] + read) == payload;
      ConsumeAll(meta, |payload|, before, [] + read);
    }
  }

  // ---------- whole uploads ----------

  /** The reads of an upload without the bytes of its request frame. */
  function AfterRequest(body: Bytes, segments: seq<Bytes>): seq<Bytes>
    requires |body| < U32 && segments != [] && |segments[0]| >= |Pack(body)|
  {
    var tail := segments[0][|Pack(body)|..];
    (if tail == [] then [] else [tail]) + segments[1..]
  }

  lemma {:induction false} AfterRequestBytes(body: Bytes, segments: seq<Bytes>)
    requires |body| < U32 && segments != [] && Pack(body) <= segments[0]
    requires NonEmpty(segments)
    ensures NonEmpty(AfterRequest(body, segments))
    ensures Flatten(segments) == Pack(body) + Flatten(AfterRequest(body, segments))
  {
    var tail, later := segments[0][|Pack(body)|..], segments[1..];
    assert segments[0] == Pack(body) + tail;
    var after := AfterRequest(body, segments);
    if tail == [] {
      assert after == later;
    } else {
      assert after[0] == tail && after[1..] == later;
      assert Pack(body) + tail + Flatten(later) == Pack(body) + (tail + Flatten(later));
    }
  }

  /** The request frame puts the handler where the rest of the upload is all that counts. */
  lemma {:induction false} EnterUpload(decode: Decoder, body: Bytes, meta: FileMeta, segments: seq<Bytes>)
    requires UploadRequest(decode, body, meta)
    requires segments != [] && Pack(body) <= segments[0]
    ensures Run(decode, RESET, segments) == Run(decode, AwaitLength(Some(meta), [], []), AfterRequest(body, segments))
  {
    var read, later := segments[0], segments[1..];
    var tail := read[|Pack(body)|..];
    var after := AfterRequest(body, segments);
    assert read <= Pack(body) + tail;
    RequestNeedsWholeFrame(decode, body, meta, [], tail, read);
    if tail == [] {
      assert after == later;
      var rest := Run(decode, AwaitLength(Some(meta), [], []), later);
      assert [] + rest.actions == rest.actions;
    } else {
      assert after[0] == tail && after[1..] == later;
      assert [] + tail == tail;
    }
  }

  /** A complete upload, cut so that its first read holds the request frame. The length
      field and the payload may be cut anywhere. */
  datatype Upload = Upload(body: Bytes, meta: FileMeta, payload: Bytes, segments: seq<Bytes>)

  ghost predicate WellCut(decode: Decoder, u: Upload) {
    UploadRequest(decode, u.body, u.meta) && |u.payload| <= MAX_MSG_SIZE &&
    NonEmpty(u.segments) && Flatten(u.segments) == Pack(u.body) + UploadStream(u.payload) &&
    u.segments != [] && |u.segments[0]| >= |Pack(u.body)|
  }

  lemma {:induction false} WellCutBegins(decode: Decoder, u: Upload)
    requires WellCut(decode, u)
    ensures Pack(u.body) <= u.segments[0]
    ensures Flatten(AfterRequest(u.body, u.segments)) == UploadStream(u.payload)
    ensures NonEmpty(AfterRequest(u.body, u.segments))
  {
    assert Flatten(u.segments) == u.segments[0] + Flatten(u.segments[1..]);
    assert Pack(u.body) == Flatten(u.segments)[..|Pack(u.body)|] == u.segments[0][..|Pack(u.body)|];
    AfterRequestBytes(u.body, u.segments);
    var after := Flatten(AfterRequest(u.body, u.segments));
    assert after == Flatten(u.segments)[|Pack(u.body)|..] == UploadStream(u.payload);
  }

  lemma {:induction false} UploadEnds(decode: Decoder, meta: FileMeta, payload: Bytes, after: seq<Bytes>)
    requires AcceptsName(meta) && |payload| <= MAX_MSG_SIZE
    requires NonEmpty(after) && Flatten(after) == UploadStream(payload)
    ensures Run(decode, AwaitLength(Some(meta), [], []), after)
         == if payload == [] then Outcome(Uploading(meta, 0, [], []), []) else Outcome(RESET, [Finalize(meta, payload)])
  {
    if payload == [] {
      UploadInProgress(decode, meta, payload, after);
    } else {
      assert after != [];
      var i := |after| - 1;
      var earlier, read := after[..i], after[i];
      assert after[..i + 1] == after == earlier + [read];
      FlattenConcat(earlier, [read]);
      assert Flatten([read]) == read;
      UploadInProgress(decode, meta, payload, earlier);
      LastRead(decode, meta, payload, Flatten(earlier), read);
      RunSnoc(decode, AwaitLength(Some(meta), [], []), after, i);
    }
  }

  /** Segmentation independence: every cutting stores exactly the payload, once, and
      leaves the handler reset, if and only if the payload is not empty. */
  lemma {:induction false} UploadStoresPayload(decode: Decoder, u: Upload)
    requires WellCut(decode, u)
    ensures Run(decode, RESET, u.segments) == Outcome(RESET, [Finalize(u.meta, u.payload)]) <==> u.payload != []
    ensures u.payload == [] ==> Run(decode, RESET, u.segments) == Outcome(Uploading(u.meta, 0, [], []), [])
  {
    WellCutBegins(decode, u);
    EnterUpload(decode, u.body, u.meta, u.segments);
    UploadEnds(decode, u.meta, u.payload, AfterRequest(u.body, u.segments));
  }

  /** It is stored on the read that completes it: before the last read nothing is. */
  lemma {:induction false} NothingStoredEarlier(decode: Decoder, u: Upload, k: nat)
    requires WellCut(decode, u) && k < |u.segments|
    ensures Run(decode, RESET, u.segments[..k]).actions == []
  {
    if k > 0 {
      var front := u.segments[..k];
      WellCutBegins(decode, u);
      EnterUpload(decode, u.body, u.meta, front);
      PrefixOfUpload(decode, u, k);
      UploadInProgress(decode, u.meta, u.payload, AfterRequest(u.body, front));
    }
  }

  lemma {:induction false} PrefixOfUpload(decode: Decoder, u: Upload, k: nat)
    requires WellCut(decode, u) && 1 <= k < |u.segments|
    requires Pack(u.body) <= u.segments[..k][0]
    ensures Flatten(AfterRequest(u.body, u.segments[..k])) < UploadStream(u.payload)
  {
    var front, back := u.segments[..k], u.segments[k..];
    assert u.segments == front + back && back[0] != [];
    FlattenConcat(front, back);
    AfterRequestBytes(u.body, front);
    var got := Flatten(AfterRequest(u.body, front));
    var whole := Flatten(u.segments);
    assert whole == (Pack(u.body) + got) + Flatten(back);
    assert whole[|Pack(u.body)|..] == got + Flatten(back);
    assert whole[|Pack(u.body)|..] == UploadStream(u.payload);
  }

  function Joined(uploads: seq<Upload>): seq<Bytes> {
    if uploads == [] then [] else uploads[0].segments + Joined(uploads[1..])
  }

  function Stores(uploads: seq<Upload>): seq<Action> {
    if uploads == [] then [] else [Finalize(uploads[0].meta, uploads[0].payload)] + Stores(uploads[1..])
  }

  /** One connection serves any number of uploads in turn, each stored whole. */
  lemma {:induction false} UploadsInTurn(decode: Decoder, uploads: seq<Upload>)
    requires forall u | u in uploads :: WellCut(decode, u) && u.payload != []
    ensures Run(decode, RESET, Joined(uploads)) == Outcome(RESET, Stores(uploads))
  {
    if uploads != [] {
      UploadStoresPayload(decode, uploads[0]);
      UploadsInTurn(decode, uploads[1..]);
      RunConcat(decode, RESET, uploads[0].segments, Joined(uploads[1..]));
    }
  }

  // ---------- reads the code does not carry through ----------

  /** A read that runs past the end of the payload. The payload is stored on this read
      exactly when nothing or as much as was missing follows it; with less, bytes stay
      buffered, and with more the uploader has taken more than was announced. Whatever
      followed the payload is dropped. */
  lemma {:induction false} ReadPastTheEnd(decode: Decoder, meta: FileMeta, size: nat, done: Bytes, read: Bytes)
    requires |done| < size <= MAX_MSG_SIZE
    requires size - |done| <= |read| <= MAX_READ
    ensures var rest := size - |done|;
            var next := Step(decode, Uploading(meta, size, done, []), read);
            && (|read| == rest || |read| == 2 * rest <==> next == Moved(RESET, Some(Finalize(meta, done + read[..rest]))))
            && (rest < |read| < 2 * rest ==>
                  next == Moved(Uploading(meta, size, done + read[..|read| - rest], read[|read| - rest..]), None))
            && (2 * rest < |read| ==> next.action == None && next.phase.Uploading? && |next.phase.done| > size)
  {
    var rest := size - |done|;
    assert (size - |done|) % U64 == rest;
    assert [] + read == read;
    if |read| == rest {
      assert read[..|read|] == read[..rest];
    }
  }

  /** Once more has been uploaded than announced the upload never ends: every later read
      is swallowed, and no request on this connection is answered again. */
  lemma {:induction false} OverrunNeverEnds(decode: Decoder, phase: Phase, segments: seq<Bytes>)
    requires phase.Uploading? && phase.size < |phase.done|
    requires |phase.done| + |phase.buffered| + |Flatten(segments)| < U64
    ensures Run(decode, phase, segments).actions == []
    decreases segments
  {
    if segments != [] {
      var next := Step(decode, phase, segments[0]);
      assert (phase.size - |phase.done|) % U64 == U64 + phase.size - |phase.done|;
      OverrunNeverEnds(decode, next.phase, segments[1..]);
    }
  }

  /** The bytes beyond `end` that have arrived by a read, summed over the reads; `got`
      arrived before them. */
  function Repaid(got: nat, end: nat, segments: seq<Bytes>): nat
    decreases segments
  {
    if segments == [] then 0
    else
      var now := got + |segments[0]|;
      (if now > end then now - end else 0) + Repaid(now, end, segments[1..])
  }

  /** After some of the reads that sum is exactly what was missing. */
  ghost predicate Repays(got: nat, end: nat, missing: nat, segments: seq<Bytes>) {
    exists k :: 1 <= k <= |segments| && Repaid(got, end, segments[..k]) == missing
  }

  lemma {:induction false} RepaysStep(got: nat, end: nat, missing: nat, segments: seq<Bytes>)
    requires segments != [] && got + |segments[0]| > end
    ensures var first := got + |segments[0]| - end;
            Repays(got, end, missing, segments)
            <==> first == missing || (first < missing && Repays(got + |segments[0]|, end, missing - first, segments[1..]))
  {
    var now, rest := got + |segments[0]|, segments[1..];
    var first := now - end;
    forall k | 1 <= k <= |segments|
      ensures Repaid(got, end, segments[..k]) == first + Repaid(now, end, rest[..k - 1])
    {
      assert segments[..k][1..] == rest[..k - 1];
    }
    assert rest[..0] == [] && Repaid(now, end, rest[..0]) == 0;
    if Repays(got, end, missing, segments) {
      var k :| 1 <= k <= |segments| && Repaid(got, end, segments[..k]) == missing;
      assert first < missing ==> 1 <= k - 1 <= |rest| && Repaid(now, end, rest[..k - 1]) == missing - first;
    }
    if first == missing {
      assert Repaid(got, end, segments[..1]) == missing;
    } else if first < missing && Repays(now, end, missing - first, rest) {
      var k :| 1 <= k <= |rest| && Repaid(now, end, rest[..k]) == missing - first;
      assert Repaid(got, end, segments[..k + 1]) == first + Repaid(now, end, rest[..k + 1 - 1]);
    }
  }

  lemma {:induction false} RepaysShift(got: nat, end: nat, missing: nat, segments: seq<Bytes>, n: nat)
    ensures Repays(got + n, end + n, missing, segments) <==> Repays(got, end, missing, segments)
  {
    forall k | 1 <= k <= |segments|
      ensures Repaid(got + n, end + n, segments[..k]) == Repaid(got, end, segments[..k])
    {
      RepaidShift(got, end, segments[..k], n);
    }
  }

  lemma {:induction false} RepaidShift(got: nat, end: nat, segments: seq<Bytes>, n: nat)
    ensures Repaid(got + n, end + n, segments) == Repaid(got, end, segments)
    decreases segments
  {
    if segments != [] {
      RepaidShift(got + |segments[0]|, end, segments[1..], n);
    }
  }

  /** One read beyond the end: the missing count falls by what has arrived beyond it. */
  lemma {:induction false} OverrunStep(meta: FileMeta, size: nat, done: Bytes, buffered: Bytes)
    requires |done| < size < |done| + |buffered| && size <= MAX_MSG_SIZE
    ensures var beyond, missing := |done| + |buffered| - size, size - |done|;
            var next := Consume(meta, size, done, buffered);
            if beyond == missing then next == Moved(RESET, Some(Finalize(meta, (done + buffered)[..size])))
            else
              next.action == None && next.phase.Uploading? && next.phase.meta == meta && next.phase.size == size &&
              next.phase.done + next.phase.buffered == done + buffered && |next.phase.done| == |done| + beyond
  {
    ConsumeKeepsOrder(meta, size, done, buffered);
    assert (size - |done|) % U64 == size - |done|;
  }

  /** From the first read beyond the end on: the upload completes if and only if the bytes
      beyond the end, summed over the reads, come to exactly what was missing before them;
      otherwise nothing more happens on the connection. */
  lemma {:induction false} OverrunCompletes(
    decode: Decoder, meta: FileMeta, size: nat, done: Bytes, buffered: Bytes, segments: seq<Bytes>, data: Bytes)
    requires |done| < size <= MAX_MSG_SIZE && NonEmpty(segments)
    requires segments != [] ==> |done| + |buffered| + |segments[0]| > size
    requires data == done + buffered + Flatten(segments) && |data| < U64
    ensures var actions := Run(decode, Uploading(meta, size, done, buffered), segments).actions;
            && (actions != [] <==> Repays(|done| + |buffered|, size, size - |done|, segments))
            && (actions != [] ==> size <= |data| && actions[0] == Finalize(meta, data[..size]))
    decreases segments
  {
    if segments != [] {
      var read, rest := segments[0], segments[1..];
      var now := buffered + read;
      var next := Consume(meta, size, done, now);
      RegroupData(done, buffered, read, rest, data);
      OverrunStep(meta, size, done, now);
      RepaysStep(|done| + |buffered|, size, size - |done|, segments);
      var beyond := |done| + |now| - size;
      if beyond == size - |done| {
        assert (done + now)[..size] == data[..size];
      } else if beyond > size - |done| {
        OverrunNeverEnds(decode, next.phase, rest);
      } else {
        OverrunCompletes(decode, meta, size, next.phase.done, next.phase.buffered, rest, data);
      }
    }
  }

  lemma {:induction false} RegroupData(done: Bytes, buffered: Bytes, read: Bytes, rest: seq<Bytes>, data: Bytes)
    requires data == done + buffered + (read + Flatten(rest))
    ensures data == (done + (buffered + read)) + Flatten(rest)
  {
  }

  /** The length field and the payload as the uploader sees them: reads after the request,
      of which the one with index `m` reaches the end of the payload. */
  ghost predicate Reaches(payload: Bytes, after: seq<Bytes>, m: nat) {
    && 0 < |payload| <= MAX_MSG_SIZE && NonEmpty(after) && |Flatten(after)| < U64
    && m < |after| && |Flatten(after[..m])| < 8 + |payload| <= |Flatten(after[..m + 1])|
    && UploadStream(payload) <= Flatten(after)
  }

  /** What is missing of the payload when that read arrives. */
  function Missing(payload: Bytes, got: nat): nat
    requires got <= 8 + |payload|
  {
    if got < 8 then |payload| else 8 + |payload| - got
  }

  /** Exactly when a connection whose reads run on past the payload stores it, from the
      read with index `m` on: that read ends with the payload, or the bytes beyond the
      payload, summed over the reads, come to what was missing before. What is stored first
      is always the payload. */
  lemma {:induction false} UploadWithMoreBytes(
    decode: Decoder, body: Bytes, meta: FileMeta, payload: Bytes, segments: seq<Bytes>, m: nat)
    requires UploadRequest(decode, body, meta) && segments != [] && Pack(body) <= segments[0]
    requires Reaches(payload, AfterRequest(body, segments), m)
    ensures var after := AfterRequest(body, segments);
            var got, end := |Flatten(after[..m])|, 8 + |payload|;
            var actions := Run(decode, RESET, segments).actions;
            && (actions != [] <==> |Flatten(after[..m + 1])| == end || Repays(got, end, Missing(payload, got), after[m..]))
            && (actions != [] ==> actions[0] == Finalize(meta, payload))
  {
    EnterUpload(decode, body, meta, segments);
    UploadDecided(decode, meta, payload, AfterRequest(body, segments), m);
  }

  lemma {:induction false} UploadDecided(decode: Decoder, meta: FileMeta, payload: Bytes, after: seq<Bytes>, m: nat)
    requires AcceptsName(meta) && Reaches(payload, after, m)
    ensures var got, end := |Flatten(after[..m])|, 8 + |payload|;
            var actions := Run(decode, AwaitLength(Some(meta), [], []), after).actions;
            && (actions != [] <==> |Flatten(after[..m + 1])| == end || Repays(got, end, Missing(payload, got), after[m..]))
            && (actions != [] ==> actions[0] == Finalize(meta, payload))
  {
    var start := AwaitLength(Some(meta), [], []);
    var earlier, later := after[..m], after[m..];
    var got := Flatten(earlier);
    assert after == earlier + later;
    FlattenConcat(earlier, later);
    assert got <= UploadStream(payload) by {
      assert got == Flatten(after)[..|got|];
    }
    UploadInProgress(decode, meta, payload, earlier);
    RunConcat(decode, start, earlier, later);
    assert after[..m + 1] == earlier + [after[m]];
    FlattenConcat(earlier, [after[m]]);
    assert Flatten([after[m]]) == after[m];
    LaterReads(decode, meta, payload, got, later);
  }

  lemma {:induction false} LaterReads(decode: Decoder, meta: FileMeta, payload: Bytes, got: Bytes, later: seq<Bytes>)
    requires AcceptsName(meta) && 0 < |payload| <= MAX_MSG_SIZE && NonEmpty(later) && later != []
    requires |got| < 8 + |payload| <= |got| + |later[0]| && |got| + |Flatten(later)| < U64
    requires UploadStream(payload) <= got + Flatten(later)
    ensures var end := 8 + |payload|;
            var actions := Run(decode, Progress(meta, payload, got), later).actions;
            && (actions != [] <==> |got| + |later[0]| == end || Repays(|got|, end, Missing(payload, |got|), later))
            && (actions != [] ==> actions[0] == Finalize(meta, payload))
  {
    var read := later[0];
    if |got| + |read| == 8 + |payload| {
      assert got + read == (got + Flatten(later))[..8 + |payload|] == UploadStream(payload);
      LastRead(decode, meta, payload, got, read);
    } else if |got| < 8 {
      LengthInTheRead(decode, meta, payload, got, later);
    } else {
      PayloadInTheRead(decode, meta, payload, got, later);
    }
  }

  lemma {:induction false} FrontOfStream(payload: Bytes, stream: Bytes)
    requires |payload| <= MAX_MSG_SIZE && UploadStream(payload) <= stream
    ensures |stream| >= 8 + |payload| && AnnouncedSize(stream) == |payload| && stream[8..][..|payload|] == payload
  {
    UploadStreamAnnounces(payload);
    var front := UploadStream(payload);
    assert front == stream[..8 + |payload|];
    assert stream[..8] == front[..8] && stream[8..8 + |payload|] == front[8..] == payload;
  }

  lemma {:induction false} PayloadInTheRead(decode: Decoder, meta: FileMeta, payload: Bytes, got: Bytes, later: seq<Bytes>)
    requires 0 < |payload| <= MAX_MSG_SIZE && NonEmpty(later) && later != []
    requires 8 <= |got| < 8 + |payload| < |got| + |later[0]| && |got| + |Flatten(later)| < U64
    requires UploadStream(payload) <= got + Flatten(later)
    ensures var actions := Run(decode, Progress(meta, payload, got), later).actions;
            && (actions != [] <==> Repays(|got|, 8 + |payload|, Missing(payload, |got|), later))
            && (actions != [] ==> actions[0] == Finalize(meta, payload))
  {
    hide Run;
    var done := payload[..|got| - 8];
    var data := (got + Flatten(later))[8..];
    FrontOfStream(payload, got + Flatten(later));
    DataInProgress(got, Flatten(later), payload, data);
    RepaysShift(|got| - 8, |payload|, |payload| - |done|, later, 8);
    OverrunCompletes(decode, meta, |payload|, done, [], later, data);
  }

  lemma {:induction false} DataInProgress(got: Bytes, more: Bytes, payload: Bytes, data: Bytes)
    requires 8 <= |got| < 8 + |payload| <= |got| + |more|
    requires data == (got + more)[8..] && data[..|payload|] == payload
    ensures data == payload[..|got| - 8] + [] + more
  {
    assert got[8..] == data[..|got| - 8] == payload[..|got| - 8];
  }

  lemma {:induction false} LengthInTheRead(decode: Decoder, meta: FileMeta, payload: Bytes, got: Bytes, later: seq<Bytes>)
    requires AcceptsName(meta) && 0 < |payload| <= MAX_MSG_SIZE && NonEmpty(later) && later != []
    requires |got| < 8 && 8 + |payload| < |got| + |later[0]| && |got| + |Flatten(later)| < U64
    requires UploadStream(payload) <= got + Flatten(later)
    ensures var actions := Run(decode, Progress(meta, payload, got), later).actions;
            && (actions != [] <==> Repays(|got|, 8 + |payload|, |payload|, later))
            && (actions != [] ==> actions[0] == Finalize(meta, payload))
  {
    var same := [(got + later[0])[8..]] + later[1..];
    var data := (got + Flatten(later))[8..];
    DataOfLater(got, later, same, data);
    LengthIsTaken(decode, meta, payload, got, later);
    OverrunCompletes(decode, meta, |payload|, [], [], same, data);
    RepaysTogether(payload, |got|, later, same);
    FrontOfStream(payload, got + Flatten(later));
  }

  lemma {:induction false} DataOfLater(got: Bytes, later: seq<Bytes>, same: seq<Bytes>, data: Bytes)
    requires later != [] && |got| + |later[0]| > 8 && NonEmpty(later)
    requires same == [(got + later[0])[8..]] + later[1..] && data == (got + Flatten(later))[8..]
    ensures data == [] + [] + Flatten(same) && NonEmpty(same) && same[1..] == later[1..]
    ensures |data| == |got| + |Flatten(later)| - 8 && |same[0]| == |got| + |later[0]| - 8
  {
    assert same[1..] == later[1..];
    assert got + Flatten(later) == (got + later[0]) + Flatten(later[1..]);
  }

  /** A read with the end of the length field acts as its payload bytes alone would. */
  lemma {:induction false} LengthIsTaken(decode: Decoder, meta: FileMeta, payload: Bytes, got: Bytes, later: seq<Bytes>)
    requires AcceptsName(meta) && |payload| <= MAX_MSG_SIZE && later != []
    requires |got| < 8 <= |got| + |later[0]| && UploadStream(payload) <= got + Flatten(later)
    ensures Run(decode, Progress(meta, payload, got), later)
         == Run(decode, Uploading(meta, |payload|, [], []), [(got + later[0])[8..]] + later[1..])
  {
    var now, data := got + later[0], (got + later[0])[8..];
    var same := [data] + later[1..];
    FrontOfStream(payload, got + Flatten(later));
    assert now[..8] == (got + Flatten(later))[..8];
    assert same[1..] == later[1..] && [] + data == data;
    assert Step(decode, Progress(meta, payload, got), later[0]) == Step(decode, Uploading(meta, |payload|, [], []), data);
  }

  lemma {:induction false} RepaysTogether(payload: Bytes, got: nat, later: seq<Bytes>, same: seq<Bytes>)
    requires got < 8 && later != [] && got + |later[0]| > 8 + |payload|
    requires same != [] && |same[0]| == got + |later[0]| - 8 && same[1..] == later[1..]
    ensures Repays(0, |payload|, |payload|, same) <==> Repays(got, 8 + |payload|, |payload|, later)
  {
    var first := |same[0]| - |payload|;
    RepaysStep(0, |payload|, |payload|, same);
    RepaysStep(got, 8 + |payload|, |payload|, later);
    if first < |payload| {
      RepaysShift(|same[0]|, |payload|, |payload| - first, later[1..], 8);
    }
  }

  ghost predicate Leads(stray: Bytes, phase: Phase) {
    match phase
    case Idle(s) => stray <= s
    case AwaitLength(_, _, s) => stray <= s
    case Uploading(_, _, done, buffered) => stray <= done + buffered
    case Crashed => true
  }

  /** One begins with the other. */
  predicate Comparable(a: Bytes, b: Bytes) {
    a <= b || b <= a
  }

  ghost predicate KeepsStray(stray: Bytes, next: Moved) {
    match next.action
    case None => Leads(stray, next.phase)
    case Some(Finalize(_, content)) => Comparable(stray, content)
    case _ => true
  }

  lemma {:induction false} ConsumeKeepsStray(stray: Bytes, meta: FileMeta, size: nat, done: Bytes, buffered: Bytes)
    requires stray <= done + buffered
    ensures KeepsStray(stray, Consume(meta, size, done, buffered))
  {
    ConsumeKeepsOrder(meta, size, done, buffered);
  }

  lemma {:induction false} TakeStartKeepsStray(stray: Bytes, asked: Option<FileMeta>, start: Bytes, s: Bytes)
    requires stray <= s
    ensures KeepsStray(stray, TakeStart(asked, start, s))
  {
    if asked.Some? && |start| >= 8 {
      var all := s + start[8..];
      assert [] + all == all;
      ConsumeKeepsStray(stray, asked.value, FromBigEndian(start[..8]), [], all);
    }
  }

  lemma {:induction false} StepKeepsStray(decode: Decoder, stray: Bytes, phase: Phase, read: Bytes)
    requires Leads(stray, phase)
    ensures KeepsStray(stray, Step(decode, phase, read))
  {
    match phase
    case Uploading(meta, size, done, buffered) =>
      assert done + (buffered + read) == (done + buffered) + read;
      ConsumeKeepsStray(stray, meta, size, done, buffered + read);
    case AwaitLength(asked, start, s) =>
      TakeStartKeepsStray(stray, asked, start + read, s);
    case Idle(s) =>
      if ParseFrame(read).Parsed? {
        var frame := ParseFrame(read).frame;
        if decode(frame.content).UploadFile? && |read| > 4 + |frame.content| {
          TakeStartKeepsStray(stray, decode(frame.content).meta, [] + read[4 + |frame.content|..], s);
        }
      }
    case Crashed =>
  }

  lemma {:induction false} StrayLeads(decode: Decoder, stray: Bytes, phase: Phase, segments: seq<Bytes>)
    requires Leads(stray, phase)
    ensures var actions := Run(decode, phase, segments).actions;
            actions != [] && actions[0].Finalize? ==> Comparable(stray, actions[0].content)
    decreases segments
  {
    if segments != [] {
      StepKeepsStray(decode, stray, phase, segments[0]);
      if Step(decode, phase, segments[0]).action == None {
        StrayLeads(decode, stray, Step(decode, phase, segments[0]).phase, segments[1..]);
      }
    }
  }

  /** If the request frame is split, then whatever arrives afterwards, the first thing
      stored is not the payload, unless the payload and the first read begin alike. */
  lemma {:induction false} SplitRequestSpoilsUpload(decode: Decoder, body: Bytes, meta: FileMeta, payload: Bytes, segments: seq<Bytes>)
    requires UploadRequest(decode, body, meta)
    requires segments != [] && segments[0] < Pack(body) && !Comparable(segments[0], payload)
    ensures var actions := Run(decode, RESET, segments).actions;
            actions == [] || forall name :: actions[0] != Finalize(name, payload)
  {
    var read := segments[0];
    RequestNeedsWholeFrame(decode, body, meta, [], [], read);
    assert [] + read == read;
    assert Leads(read, Step(decode, RESET, read).phase);
    StrayLeads(decode, read, Step(decode, RESET, read).phase, segments[1..]);
  }

  /** The request frame of a two-byte body cut after three bytes: nothing is stored. */
  lemma {:induction false} SplitRequestExample(decode: Decoder)
    ensures Run(decode, RESET, [[0, 0, 0], [2, 123, 125, 0, 0, 0, 0, 0, 0, 0, 1, 7]]).actions == []
  {
    var second: Bytes := [2, 123, 125, 0, 0, 0, 0, 0, 0, 0, 1, 7];
    var segments: seq<Bytes> := [[0, 0, 0], second];
    assert segments[1..] == [second] && [second][1..] == [];
    assert FromBigEndian(second[..4]) >= 12 by {
      assert second[..4] == [2, 123, 125, 0];
      assert [2, 123, 125, 0][..3] == [2, 123, 125] && [2, 123, 125][..2] == [2, 123] && [2, 123][..1] == [2];
      assert FromBigEndian([2]) >= 2 by { assert [2][..0] == []; }
    }
    assert Step(decode, RESET, segments[0]) == Moved(Idle([] + segments[0]), None);
  }

  /** The rest: a payload that begins with its own request frame and length is taken for
      the request when these have landed in the content buffer, and stored whole. */
  lemma {:induction false} PayloadReadAsRequest(decode: Decoder, body: Bytes, meta: FileMeta, payload: Bytes)
    requires UploadRequest(decode, body, meta) && |payload| <= MAX_MSG_SIZE < Power256(8)
    requires Pack(body) + BigEndian(|payload|, 8) <= payload
    ensures Step(decode, Idle(Pack(body) + BigEndian(|payload|, 8)), payload) == Moved(RESET, Some(Finalize(meta, payload)))
  {
    var request, length := Pack(body), BigEndian(|payload|, 8);
    var header, tail := request + length, payload[|request|..];
    assert payload == request + tail && payload == header + payload[|header|..];
    assert tail[..8] == length && tail[8..] == payload[|header|..];
    RequestNeedsWholeFrame(decode, body, meta, header, tail, payload);
    BigEndianRoundTrip(|payload|, 8);
    assert [] + payload == payload;
    ConsumeAll(meta, |payload|, [], payload);
  }

  const HEADER: Bytes := [0, 0, 0, 2, 123, 125, 0, 0, 0, 0, 0, 0, 0, 14]

  /** So a split request can end in the right file: the body `{}` and a payload that is its
      own header of 14 bytes. */
  lemma {:induction false} SplitRequestStores(decode: Decoder, meta: FileMeta)
    requires UploadRequest(decode, [123, 125], meta)
    ensures HEADER == Pack([123, 125]) + BigEndian(|HEADER|, 8)
    ensures Run(decode, RESET, [HEADER[..3], HEADER[3..], HEADER]) == Outcome(RESET, [Finalize(meta, HEADER)])
  {
    HeaderBytes();
    HeaderIsKept(decode);
    PayloadReadAsRequest(decode, [123, 125], meta, HEADER);
    ThreeReads(decode, RESET, HEADER[..3], HEADER[3..], HEADER);
  }

  lemma {:induction false} HeaderBytes()
    ensures 14 < Power256(8) == U64 && HEADER == Pack([123, 125]) + BigEndian(14, 8)
  {
    assert Power256(8) == U64;
    assert Pack([123, 125]) == [0, 0, 0, 2, 123, 125];
    assert BigEndian(14, 8) == [0, 0, 0, 0, 0, 0, 0, 14];
  }

  lemma {:induction false} HeaderIsKept(decode: Decoder)
    ensures Step(decode, RESET, HEADER[..3]) == Moved(Idle(HEADER[..3]), None)
    ensures Step(decode, Idle(HEADER[..3]), HEADER[3..]) == Moved(Idle(HEADER), None)
  {
    MiddleOfHeader(HEADER[3..]);
    assert [] + HEADER[..3] == HEADER[..3] && HEADER[..3] + HEADER[3..] == HEADER;
  }

  lemma {:induction false} ThreeReads(decode: Decoder, phase: Phase, a: Bytes, b: Bytes, c: Bytes)
    ensures var x := Step(decode, phase, a);
            var y := Step(decode, x.phase, b);
            var z := Step(decode, y.phase, c);
            Run(decode, phase, [a, b, c]) == Outcome(z.phase, AsSeq(x.action) + (AsSeq(y.action) + AsSeq(z.action)))
  {
    assert [a, b, c][1..] == [b, c] && [b, c][1..] == [c] && [c][1..] == [];
    var x := Step(decode, phase, a);
    var y := Step(decode, x.phase, b);
    assert Run(decode, Step(decode, y.phase, c).phase, []).actions == [];
    assert Run(decode, y.phase, [c]).actions == AsSeq(Step(decode, y.phase, c).action);
    assert Run(decode, x.phase, [b, c]).actions == AsSeq(y.action) + Run(decode, y.phase, [c]).actions;
  }

  lemma {:induction false} MiddleOfHeader(read: Bytes)
    requires read == [2, 123, 125, 0, 0, 0, 0, 0, 0, 0, 14]
    ensures ParseFrame(read).Parsed? && |ParseFrame(read).frame.content| < ParseFrame(read).frame.size
  {
    assert read[..4] == [2, 123, 125, 0];
    assert [2, 123, 125, 0][..3] == [2, 123, 125] && [2, 123, 125][..2] == [2, 123] && [2, 123][..1] == [2];
    assert [2][..0] == [];
    assert FromBigEndian([2]) == 2;
    assert FromBigEndian([2, 123]) == 635;
    assert FromBigEndian([2, 123, 125]) == 162685;
  }
}
