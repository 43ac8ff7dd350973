/** The handler object of the files port, and what uploads and downloads through it
    mean for the stored files. */
module FilesHandlers {
  import opened ByteStrings
  import opened MessageBuilders
  import opened Paths
  import opened FileStore
  import opened FileTransfer

  /** What the handler writes to the connection. */
  datatype Message =
    | UploadDone(hash: Digest)
    | FileInfo(main: Option<Metadata>, preview: Option<Metadata>)
    | DataFrame(bytes: Bytes)
    | Failure

  // ---------- the meaning of actions ----------

  function Apply(disk: Disk, thumbnail: Thumbnailer, action: Option<Action>): Disk {
    match action
    case Some(Finalize(meta, content)) => Finish(disk, thumbnail, meta, content).0
    case _ => disk
  }

  function ApplyAll(disk: Disk, thumbnail: Thumbnailer, actions: seq<Action>): Disk
    decreases actions
  {
    if actions == [] then disk else ApplyAll(Apply(disk, thumbnail, Some(actions[0])), thumbnail, actions[1..])
  }

  /** The data frames among the messages, put together. */
  function Payload(messages: seq<Message>): Bytes {
    if messages == [] then []
    else (if messages[0].DataFrame? then messages[0].bytes else []) + Payload(messages[1..])
  }

  /** The messages that answer an action: one reply, or for a download the metadata and
      then the selected bytes in non-empty frames of any sizes. */
  ghost predicate Answers(disk: Disk, thumbnail: Thumbnailer, action: Option<Action>, messages: seq<Message>) {
    match action
    case None => messages == []
    case Some(Refuse) => messages == [Failure]
    case Some(Finalize(meta, content)) =>
      (match Finish(disk, thumbnail, meta, content).1
       case None => messages == [Failure]
       case Some(hash) => messages == [UploadDone(hash)])
    case Some(Describe(hash)) =>
      (match HashMetadata(disk, hash)
       case None => messages == [Failure]
       case Some((main, preview)) => messages == [FileInfo(Some(main), preview)])
    case Some(Download(hash, mode)) =>
      match Select(disk, hash, mode)
      case None => messages == [Failure]
      case Some(selection) => Streams(disk, selection, messages)
  }

  ghost predicate Streams(disk: Disk, selection: Selection, messages: seq<Message>) {
    messages != [] && messages[0] == FileInfo(selection.main, selection.preview) &&
    (forall i | 1 <= i < |messages| :: messages[i].DataFrame? && 0 < |messages[i].bytes| <= MAX_READ) &&
    Payload(messages[1..]) == SelectedBytes(disk, selection)
  }

  lemma {:induction false} PayloadSnoc(messages: seq<Message>, frame: Bytes)
    ensures Payload(messages + [DataFrame(frame)]) == Payload(messages) + frame
  {
    var last := [DataFrame(frame)];
    if messages == [] {
      assert messages + last == last && last[1..] == [];
    } else {
      assert (messages + last)[1..] == messages[1..] + last;
      PayloadSnoc(messages[1..], frame);
    }
  }

  lemma {:induction false} ApplyOneMore(disk: Disk, thumbnail: Thumbnailer, actions: seq<Action>, action: Option<Action>)
    ensures ApplyAll(disk, thumbnail, actions + AsSeq(action))
         == Apply(ApplyAll(disk, thumbnail, actions), thumbnail, action)
    decreases actions
  {
    var all := actions + AsSeq(action);
    if actions == [] {
      assert all == AsSeq(action);
      if action.Some? {
        assert all[1..] == [];
      }
    } else {
      assert all[1..] == actions[1..] + AsSeq(action);
      ApplyOneMore(Apply(disk, thumbnail, Some(actions[0])), thumbnail, actions[1..], action);
    }
  }

  lemma {:induction false} FrameMoves(frames: seq<Message>, frame: Bytes, rest: Bytes)
    ensures Payload(if frame == [] then frames else frames + [DataFrame(frame)]) + rest
         == Payload(frames) + (frame + rest)
  {
    PayloadSnoc(frames, frame);
    assert Payload(frames) + frame + rest == Payload(frames) + (frame + rest);
    assert [] + rest == rest;
  }

  /** The messages answer the actions one after the other, each in the store the earlier
      ones left. */
  ghost predicate AnswersAll(disk: Disk, thumbnail: Thumbnailer, actions: seq<Action>, messages: seq<Message>)
    decreases |actions|
  {
    if actions == [] then messages == []
    else
      var last := |actions| - 1;
      exists k :: 0 <= k <= |messages| && AnswersAll(disk, thumbnail, actions[..last], messages[..k]) &&
                  Answers(ApplyAll(disk, thumbnail, actions[..last]), thumbnail, Some(actions[last]), messages[k..])
  }

  lemma {:induction false} NothingDone(disk: Disk, thumbnail: Thumbnailer)
    ensures ApplyAll(disk, thumbnail, []) == disk && AnswersAll(disk, thumbnail, [], [])
  {
  }

  lemma {:induction false} AnswersOneMore(
    disk: Disk, thumbnail: Thumbnailer, actions: seq<Action>, messages: seq<Message>,
    action: Option<Action>, more: seq<Message>)
    requires AnswersAll(disk, thumbnail, actions, messages)
    requires Answers(ApplyAll(disk, thumbnail, actions), thumbnail, action, more)
    ensures AnswersAll(disk, thumbnail, actions + AsSeq(action), messages + more)
  {
    var all := actions + AsSeq(action);
    if action == None {
      assert all == actions && messages + more == messages;
    } else {
      var k := |messages|;
      assert all[..|actions|] == actions && (messages + more)[..k] == messages && (messages + more)[k..] == more;
    }
  }

  // ---------- storing and fetching ----------

  /** Everything stored has an own name. */
  ghost predicate OwnNames(actions: seq<Action>) {
    forall i | 0 <= i < |actions| && actions[i].Finalize? ::
      OwnName(actions[i].meta.name) && AcceptsName(actions[i].meta)
  }

  /** Work under own names keeps the store sound and overwrites nothing. */
  lemma {:induction false} ActionsExtendDisk(disk: Disk, thumbnail: Thumbnailer, actions: seq<Action>)
    requires Sound(disk) && OwnNames(actions)
    ensures Sound(ApplyAll(disk, thumbnail, actions)) && Extends(disk, ApplyAll(disk, thumbnail, actions))
    decreases actions
  {
    if actions != [] {
      var next := Apply(disk, thumbnail, Some(actions[0]));
      if actions[0].Finalize? {
        FinishExtends(disk, thumbnail, actions[0].meta, actions[0].content);
      }
      ActionsExtendDisk(next, thumbnail, actions[1..]);
      ExtendsIsTransitive(disk, next, ApplyAll(next, thumbnail, actions[1..]));
    }
  }

  /** In every store that such work has made, each hash that can be fetched leads to the
      content with that hash. */
  lemma {:induction false} FetchedContentHasItsHash(thumbnail: Thumbnailer, actions: seq<Action>, hash: Digest)
    requires OwnNames(actions)
    ensures var content := Content(ApplyAll(EMPTY, thumbnail, actions), hash, MediaOnly);
            content.Some? ==> Sha256(content.value) == hash
  {
    var disk := ApplyAll(EMPTY, thumbnail, actions);
    ActionsExtendDisk(EMPTY, thumbnail, actions);
    if hash in disk.hashes {
      RowsCanBeFetched(disk, hash, MediaOnly);
    }
  }

  /** Round trip. After an upload in any valid cut is answered with a hash, and after any
      further work of any connection, downloading that hash streams exactly the payload, if
      and only if the hash could be fetched already when it was there before, or else the
      new medium's preview is written. All names are own names. */
  lemma {:induction false} UploadThenDownload(decode: Decoder, thumbnail: Thumbnailer, disk: Disk, u: Upload, later: seq<Action>)
    requires Sound(disk) && WellCut(decode, u) && u.payload != []
    requires OwnName(u.meta.name) && OwnNames(later)
    requires Finish(disk, thumbnail, u.meta, u.payload).1 == Some(Sha256(u.payload))
    ensures var hash := Sha256(u.payload);
            var stored := ApplyAll(disk, thumbnail, Run(decode, RESET, u.segments).actions);
            Content(ApplyAll(stored, thumbnail, later), hash, MediaOnly) == Some(u.payload)
            <==> if Occupied(disk, hash) then HashMetadata(disk, hash).Some?
                 else u.meta.isMedia ==> thumbnail(u.meta.name, u.payload) != NotWritten
  {
    var hash := Sha256(u.payload);
    UploadStoresPayload(decode, u);
    var stored := Finish(disk, thumbnail, u.meta, u.payload).0;
    OneAction(disk, thumbnail, Finalize(u.meta, u.payload));
    FinishExtends(disk, thumbnail, u.meta, u.payload);
    ActionsExtendDisk(stored, thumbnail, later);
    ExtensionKeepsContent(stored, ApplyAll(stored, thumbnail, later), hash, MediaOnly);
    StoredContent(disk, thumbnail, u.meta, u.payload);
  }

  /** The same on the wire. The messages that answer the reads of the upload are one that
      names the hash of the payload; those that answer a request for it, on any connection
      after any further work, carry the payload in their data frames under the same exact
      condition. */
  lemma {:induction false} RoundTripOnTheWire(
    decode: Decoder, thumbnail: Thumbnailer, disk: Disk, u: Upload, later: seq<Action>, body: Bytes)
    requires Sound(disk) && WellCut(decode, u) && u.payload != []
    requires OwnName(u.meta.name) && OwnNames(later)
    requires |body| < U32 && ValidUtf8(body) && decode(body) == DownloadFile(Sha256(u.payload), MediaOnly)
    ensures var stored := ApplyAll(disk, thumbnail, Run(decode, RESET, u.segments).actions);
            forall uploaded, downloaded |
              AnswersAll(disk, thumbnail, Run(decode, RESET, u.segments).actions, uploaded) && uploaded != [Failure] &&
              AnswersAll(ApplyAll(stored, thumbnail, later), thumbnail, Run(decode, RESET, [Pack(body)]).actions, downloaded) ::
              uploaded == [UploadDone(Sha256(u.payload))] &&
              (Payload(downloaded) == u.payload
               <==> if Occupied(disk, Sha256(u.payload)) then HashMetadata(disk, Sha256(u.payload)).Some?
                    else u.meta.isMedia ==> thumbnail(u.meta.name, u.payload) != NotWritten)
  {
    hide AnswersAll, ApplyAll, Run;
    var (hash, actions) := (Sha256(u.payload), Run(decode, RESET, u.segments).actions);
    var now := ApplyAll(ApplyAll(disk, thumbnail, actions), thumbnail, later);
    UploadStoresPayload(decode, u);
    RequestIsRun(decode, body);
    UploadAnswer(disk, thumbnail, u.meta, u.payload);
    forall uploaded, downloaded |
      AnswersAll(disk, thumbnail, actions, uploaded) && uploaded != [Failure] &&
      AnswersAll(now, thumbnail, Run(decode, RESET, [Pack(body)]).actions, downloaded)
      ensures uploaded == [UploadDone(hash)]
      ensures Payload(downloaded) == u.payload
              <==> if Occupied(disk, hash) then HashMetadata(disk, hash).Some?
                   else u.meta.isMedia ==> thumbnail(u.meta.name, u.payload) != NotWritten
    {
      OneAnswer(disk, thumbnail, Finalize(u.meta, u.payload), uploaded);
      UploadThenDownload(decode, thumbnail, disk, u, later);
      OneAnswer(now, thumbnail, Download(hash, MediaOnly), downloaded);
      DownloadCarries(now, thumbnail, hash, MediaOnly, downloaded);
    }
  }

  lemma {:induction false} OneAnswer(disk: Disk, thumbnail: Thumbnailer, action: Action, messages: seq<Message>)
    requires AnswersAll(disk, thumbnail, [action], messages)
    ensures Answers(disk, thumbnail, Some(action), messages)
  {
    assert [action][..0] == [];
    var k :| 0 <= k <= |messages| && AnswersAll(disk, thumbnail, [action][..0], messages[..k]) &&
             Answers(ApplyAll(disk, thumbnail, [action][..0]), thumbnail, Some(action), messages[k..]);
    assert k == 0 && messages[0..] == messages;
  }

  /** The answer to a download carries the content, or is an error without any data. */
  lemma {:induction false} DownloadCarries(disk: Disk, thumbnail: Thumbnailer, hash: Digest, mode: FetchMode, messages: seq<Message>)
    requires Answers(disk, thumbnail, Some(Download(hash, mode)), messages)
    ensures match Content(disk, hash, mode)
            case None => messages == [Failure] && Payload(messages) == []
            case Some(content) =>
              messages != [] && messages[0].FileInfo? && Payload(messages) == content &&
              forall i | 1 <= i < |messages| :: messages[i].DataFrame?
  {
    if Select(disk, hash, mode) == None {
      assert [Failure][1..] == [];
    } else {
      assert [] + Payload(messages[1..]) == Payload(messages[1..]);
    }
  }

  lemma {:induction false} OneAction(disk: Disk, thumbnail: Thumbnailer, action: Action)
    ensures ApplyAll(disk, thumbnail, [action]) == Apply(disk, thumbnail, Some(action))
  {
    assert [action][1..] == [];
  }

  lemma {:induction false} StoredContent(disk: Disk, thumbnail: Thumbnailer, meta: FileMeta, content: Bytes)
    requires Sound(disk) && OwnName(meta.name) && AcceptsName(meta)
    requires Finish(disk, thumbnail, meta, content).1.Some?
    ensures var hash := Sha256(content);
            Content(Finish(disk, thumbnail, meta, content).0, hash, MediaOnly)
            == if (if Occupied(disk, hash) then HashMetadata(disk, hash).Some?
                   else meta.isMedia ==> thumbnail(meta.name, content) != NotWritten)
               then Some(content) else None
  {
    var hash := Sha256(content);
    if Occupied(disk, hash) {
      if hash in disk.hashes {
        RowsCanBeFetched(disk, hash, MediaOnly);
        if Content(disk, hash, MediaOnly).Some? {
          NoCollision(Content(disk, hash, MediaOnly).value, content);
        }
      }
    } else {
      OwnUpload(disk, thumbnail, meta, content);
      NewUploadIsFetched(disk, thumbnail, meta, content);
    }
  }

  /** An upload is answered with the hash of its content exactly if this is in the store
      already, or its copy can be written and, for media, a preview be made. */
  lemma {:induction false} UploadAnswer(disk: Disk, thumbnail: Thumbnailer, meta: FileMeta, content: Bytes)
    ensures var hash := Sha256(content);
            var answer := Finish(disk, thumbnail, meta, content).1;
            && (answer == Some(hash) || answer == None)
            && (answer == Some(hash) <==>
                  Occupied(disk, hash) ||
                  (Writable(disk.directories + {Home(hash)}, Location(hash, meta.name)).Some? &&
                   (meta.isMedia ==> PreviewCanBeMade(disk.directories + {Home(hash)}, thumbnail, meta.name, content))))
  {
  }

  predicate PreviewCanBeMade(directories: set<FilePath>, thumbnail: Thumbnailer, name: string, content: Bytes) {
    match PreviewName(name)
    case None => false
    case Some(previewName) =>
      match thumbnail(name, content)
      case Failed => false
      case NotWritten => true
      case Written(_) => Writable(directories, Location(Sha256(content), previewName)).Some?
  }

  /** The failing case on concrete files: a photo whose preview fails, uploaded again. */
  lemma {:induction false} LostRowExample(thumbnail: Thumbnailer)
    requires thumbnail("a.png", [7]) == Failed
    ensures var meta := FileMeta("a.png", true, false);
            var first := Finish(EMPTY, thumbnail, meta, [7]);
            var second := Finish(first.0, thumbnail, meta, [7]);
            first.1 == None && second.1 == Some(Sha256([7])) && Content(second.0, Sha256([7]), MediaOnly) == None
  {
  }

  // ---------- the objects ----------

  datatype Uploader = Document(document: DocumentUploader) | Media(media: MediaUploader)

  class FileUploader {
    const uploader: Uploader
    const fileSize: nat
    const compress: bool
    var bytesUploaded: nat

    ghost function Inner(): object {
      match uploader case Document(d) => d case Media(m) => m
    }

    ghost predicate Valid()
      reads this, Inner()
    {
      bytesUploaded == |Data()| &&
      match uploader
      case Document(d) => d.hasher == d.tempFile
      case Media(m) => m.hasher == m.tempFile
    }

    ghost function Data(): Bytes
      reads Inner()
    {
      match uploader case Document(d) => d.tempFile case Media(m) => m.tempFile
    }

    ghost function Meta(): FileMeta {
      match uploader
      case Document(d) => FileMeta(d.docName, false, compress)
      case Media(m) => FileMeta(m.docName, true, compress)
    }

    static method Create(metadata: FileMeta, fileSize: nat) returns (r: FileUploader?)
      ensures r == null <==> fileSize > MAX_MSG_SIZE || !AcceptsName(metadata)
      ensures r != null ==> fresh(r) && fresh(r.Inner()) && r.Valid()
      ensures r != null ==> r.Meta() == metadata && r.fileSize == fileSize && r.Data() == []
    {
      if fileSize > MAX_MSG_SIZE {
        return null;
      }
      if metadata.isMedia {
        if !SupportedMedia(metadata.name) {
          return null;
        }
        var m := new MediaUploader(metadata.name);
        r := new FileUploader(Media(m), fileSize, metadata.compress);
      } else {
        var d := new DocumentUploader(metadata.name);
        r := new FileUploader(Document(d), fileSize, metadata.compress);
      }
    }

    constructor (uploader: Uploader, fileSize: nat, compress: bool)
      ensures this.uploader == uploader && this.fileSize == fileSize && this.compress == compress
      ensures bytesUploaded == 0
    {
      this.uploader, this.fileSize, this.compress, bytesUploaded := uploader, fileSize, compress, 0;
    }

    method ConsumeDataFrame(part: Bytes)
      requires Valid()
      modifies this, Inner()
      ensures Valid() && Data() == old(Data()) + part
    {
      match uploader {
        case Document(d) => d.UploadPart(part);
        case Media(m) => m.UploadPart(part);
      }
      bytesUploaded := bytesUploaded + |part|;
    }

    /** The 64-bit difference of the two counters. */
    function RestToUpload(): nat
      reads this
    {
      (fileSize - bytesUploaded) % U64
    }

    predicate IsReady()
      reads this
    {
      fileSize == bytesUploaded
    }

    method Finalize(db: Storage) returns (hash: Option<Digest>)
      requires Valid() && db != Inner()
      modifies db
      ensures (db.View(), hash) == Finish(old(db.View()), db.thumbnail, Meta(), Data())
    {
      match uploader {
        case Document(d) => hash := d.Finalize(db);
        case Media(m) => hash := m.Finalize(db);
      }
    }
  }

  class FilesHandler {
    const db: Storage
    const decode: Decoder
    /** The actor, one of the two or none. */
    var uploader: FileUploader?
    var fetcher: FileFetcher?
    var isFirst: bool
    var requestBuilder: MessageBuilder?
    var contentBuf: Bytes
    var accumulatedBinaryStart: Bytes
    /** Everything written to the connection. */
    var sent: seq<Message>
    /** The task has panicked. */
    var crashed: bool

    ghost function Repr(): set<object>
      reads this
    {
      {this} + (if uploader == null then {} else {uploader, uploader.Inner()})
      + (if fetcher == null then {} else {fetcher})
      + (if requestBuilder == null then {} else {requestBuilder})
    }

    ghost predicate Valid()
      reads Repr()
    {
      db !in Repr() &&
      (uploader != null ==> uploader.Valid() && requestBuilder != uploader.Inner() && uploader.fileSize <= MAX_MSG_SIZE) &&
      (uploader != null ==> !isFirst && fetcher == null && accumulatedBinaryStart == []) &&
      (isFirst ==> fetcher == null && accumulatedBinaryStart == []) &&
      (!crashed && !isFirst && uploader == null && fetcher == null ==>
         requestBuilder != null && Requested() && |accumulatedBinaryStart| < 8)
    }

    /** The request is known and cached as text, and it asks for an upload. */
    ghost predicate Requested()
      requires requestBuilder != null
      reads this, requestBuilder
    {
      requestBuilder.utf8Content.Some? && requestBuilder.Ready() &&
      ValidUtf8(requestBuilder.utf8Content.value) &&
      decode(requestBuilder.utf8Content.value).UploadFile?
    }

    ghost function View(): Phase
      requires Valid() && fetcher == null
      reads Repr()
    {
      if crashed then Crashed
      else if uploader != null then Uploading(uploader.Meta(), uploader.fileSize, uploader.Data(), contentBuf)
      else if isFirst then Idle(contentBuf)
      else AwaitLength(decode(requestBuilder.utf8Content.value).meta, accumulatedBinaryStart, contentBuf)
    }

    constructor (db: Storage, decode: Decoder)
      ensures Valid() && fetcher == null && View() == RESET && sent == [] && this.db == db && this.decode == decode
      ensures fresh(Repr())
    {
      this.db, this.decode := db, decode;
      uploader, fetcher, requestBuilder := null, null, null;
      isFirst, crashed := true, false;
      contentBuf, accumulatedBinaryStart, sent := [], [], [];
    }

    method Reset()
      modifies this`uploader, this`fetcher, this`isFirst, this`requestBuilder, this`contentBuf, this`accumulatedBinaryStart
      ensures uploader == null && fetcher == null && requestBuilder == null && isFirst
      ensures contentBuf == [] && accumulatedBinaryStart == []
    {
      uploader, fetcher, isFirst, requestBuilder := null, null, true, null;
      contentBuf, accumulatedBinaryStart := [], [];
    }

    method Write(message: Message)
      modifies this`sent
      ensures sent == old(sent) + [message]
    {
      sent := sent + [message];
    }

    /** Gives the uploader its portion of the buffered bytes. */
    method FeedUploader()
      requires Valid() && uploader != null && !crashed
      modifies this`contentBuf, uploader, uploader.Inner()
      ensures Valid() && uploader == old(uploader) && fetcher == null && !crashed
      ensures var k := Portion(uploader.fileSize, |old(uploader.Data())|, |old(contentBuf)|);
              uploader.Data() == old(uploader.Data()) + old(contentBuf)[..k] && contentBuf == old(contentBuf)[k..]
    {
      var restToUpload := uploader.RestToUpload();
      if |contentBuf| > restToUpload {
        var toUpload := contentBuf[..|contentBuf| - restToUpload];
        uploader.ConsumeDataFrame(toUpload);
        contentBuf := contentBuf[|contentBuf| - restToUpload..];
      } else {
        assert contentBuf[..|contentBuf|] == contentBuf;
        uploader.ConsumeDataFrame(contentBuf);
        contentBuf := [];
      }
    }

    /** Stores the finished upload and answers; false is the error path. */
    method FinishUpload() returns (ok: bool)
      requires Valid() && uploader != null && !crashed
      modifies this, db
      ensures Valid() && fetcher == null && !crashed && fresh(Repr() - old(Repr())) && View() == RESET
      ensures old(sent) <= sent && (!ok ==> sent == old(sent))
      ensures var action := Some(Finalize(old(uploader.Meta()), old(uploader.Data())));
              && db.View() == Apply(old(db.View()), db.thumbnail, action)
              && Answers(old(db.View()), db.thumbnail, action, if ok then sent[|old(sent)|..] else [Failure])
    {
      var actor := uploader;
      Reset();
      var hash := actor.Finalize(db);
      ok := hash.Some?;
      if ok {
        Write(UploadDone(hash.value));
      }
    }

    method OnUploader() returns (ok: bool)
      requires Valid() && uploader != null && !crashed
      modifies Repr(), db
      ensures Valid() && fetcher == null && fresh(Repr() - old(Repr())) && !crashed
      ensures var next := Consume(old(uploader.Meta()), old(uploader.fileSize), old(uploader.Data()), old(contentBuf));
              && View() == next.phase && db.View() == Apply(old(db.View()), db.thumbnail, next.action)
              && old(sent) <= sent
              && Answers(old(db.View()), db.thumbnail, next.action, if ok then sent[|old(sent)|..] else [Failure])
      ensures !ok ==> View() == RESET && sent == old(sent)
    {
      ok := true;
      if contentBuf == [] {
        assert contentBuf[..0] == [] && contentBuf[0..] == [];
        return;
      }
      FeedUploader();
      if uploader.IsReady() {
        ok := FinishUpload();
      }
    }

    /** Announces the selection and sends it frame by frame, in whatever chunks the file
        reads return. */
    method OnFetcher(ghost selection: Selection)
      requires db !in Repr() && fetcher != null && uploader == null && !crashed
      requires fetcher.Valid(db.View()) && selection == Selection(fetcher.main, fetcher.preview)
      requires fetcher.Remaining(db.View()) == SelectedBytes(db.View(), selection)
      requires !fetcher.IsFinished()
      modifies this, fetcher
      ensures Valid() && fetcher == null && View() == RESET && !crashed && Repr() == {this}
      ensures old(sent) <= sent && Streams(db.View(), selection, sent[|old(sent)|..])
    {
      Write(FileInfo(fetcher.main, fetcher.preview));
      ghost var frames := SendFrames();
      Reset();
      assert sent[|old(sent)|..] == [FileInfo(selection.main, selection.preview)] + frames;
    }

    method SendFrames() returns (ghost frames: seq<Message>)
      requires fetcher != null && fetcher.Valid(db.View()) && !fetcher.IsFinished()
      modifies this`sent, fetcher
      ensures sent == old(sent) + frames
      ensures forall i | 0 <= i < |frames| :: frames[i].DataFrame? && 0 < |frames[i].bytes| <= MAX_READ
      ensures Payload(frames) == old(fetcher.Remaining(db.View()))
    {
      hide FileAt, FileBytes;
      frames := [];
      while true
        invariant fetcher.Valid(db.View()) && !fetcher.IsFinished()
        invariant sent == old(sent) + frames
        invariant forall i | 0 <= i < |frames| :: frames[i].DataFrame? && 0 < |frames[i].bytes| <= MAX_READ
        invariant Payload(frames) + fetcher.Remaining(db.View()) == old(fetcher.Remaining(db.View()))
        decreases fetcher.FilesLeft(), |fetcher.currentFile|
      {
        var dataFrame := SendFrame();
        ghost var sentSoFar := frames;
        if dataFrame != [] {
          frames := frames + [DataFrame(dataFrame)];
        }
        FrameMoves(sentSoFar, dataFrame, fetcher.Remaining(db.View()));
        if fetcher.IsFinished() {
          break;
        }
      }
    }

    method SendFrame() returns (dataFrame: Bytes)
      requires fetcher != null && fetcher.Valid(db.View()) && !fetcher.IsFinished()
      modifies this`sent, fetcher
      ensures fetcher.Valid(db.View()) && |dataFrame| <= MAX_READ
      ensures fetcher.FilesLeft() < old(fetcher.FilesLeft()) ||
              (fetcher.FilesLeft() == old(fetcher.FilesLeft()) && |fetcher.currentFile| < old(|fetcher.currentFile|))
      ensures dataFrame + fetcher.Remaining(db.View()) == old(fetcher.Remaining(db.View()))
      ensures sent == if dataFrame == [] then old(sent) else old(sent) + [DataFrame(dataFrame)]
    {
      dataFrame := fetcher.FetchDataFrame(db, MAX_READ);
      if dataFrame != [] {
        Write(DataFrame(dataFrame));
      }
    }

    /** The length field and the first payload bytes of an upload; false is the error path. */
    method TakeUploadStart(meta: Option<FileMeta>, contentStart: Bytes) returns (ok: bool)
      requires uploader == null && fetcher == null && requestBuilder != null && db !in Repr() && contentStart != []
      modifies this, requestBuilder
      ensures db !in Repr() && fresh(Repr() - old(Repr())) && fetcher == null && requestBuilder == old(requestBuilder)
      ensures sent == old(sent) && crashed == old(crashed)
      ensures var next := TakeStart(meta, old(accumulatedBinaryStart) + contentStart, old(contentBuf));
              if !ok then next == Moved(RESET, Some(Refuse))
              else if uploader == null then
                meta.Some? && next == Moved(AwaitLength(meta, accumulatedBinaryStart, contentBuf), None) &&
                |accumulatedBinaryStart| < 8 && !isFirst &&
                requestBuilder.View() == old(requestBuilder.View()) &&
                requestBuilder.utf8Content == old(requestBuilder.utf8Content)
              else
                Valid() && next == Consume(uploader.Meta(), uploader.fileSize, uploader.Data(), contentBuf)
    {
      if meta == None {
        return false;
      }
      accumulatedBinaryStart := accumulatedBinaryStart + contentStart;
      if |accumulatedBinaryStart| < 8 {
        isFirst := false;
        return true;
      }
      ok := CreateUploader(meta.value);
    }

    /** Splits the length field off and opens the upload. */
    method CreateUploader(meta: FileMeta) returns (ok: bool)
      requires uploader == null && fetcher == null && requestBuilder != null && db !in Repr()
      requires |accumulatedBinaryStart| >= 8
      modifies this, requestBuilder
      ensures db !in Repr() && fresh(Repr() - old(Repr())) && fetcher == null && requestBuilder == old(requestBuilder)
      ensures sent == old(sent) && crashed == old(crashed) && (ok <==> uploader != null)
      ensures var next := TakeStart(Some(meta), old(accumulatedBinaryStart), old(contentBuf));
              if ok then Valid() && next == Consume(uploader.Meta(), uploader.fileSize, uploader.Data(), contentBuf)
              else next == Moved(RESET, Some(Refuse))
    {
      hide Consume, FromBigEndian;
      var fileSize := FromBigEndian(accumulatedBinaryStart[..8]);
      accumulatedBinaryStart := accumulatedBinaryStart[8..];
      contentBuf := contentBuf + accumulatedBinaryStart;
      accumulatedBinaryStart := [];
      uploader := FileUploader.Create(meta, fileSize);
      if uploader == null {
        return false;
      }
      requestBuilder.Clear();
      isFirst := false;
      return true;
    }

    /** What the handler is left to do after a read was processed. */
    ghost predicate Processed(ok: bool, next: Moved, download: Option<Action>, messages: seq<Message>)
      reads Repr(), db
    {
      if crashed then Valid() && fetcher == null && next == Moved(Crashed, None) && messages == []
      else if !ok then messages == [] && next.phase == RESET && Settles(next.action, [Failure])
      else if uploader != null then
        Valid() && messages == [] &&
        next == Consume(uploader.Meta(), uploader.fileSize, uploader.Data(), contentBuf)
      else if fetcher != null then
        messages == [] && download.Some? && download.value.Download? && next == Moved(RESET, download) &&
        fetcher.Valid(db.View()) && !fetcher.IsFinished() &&
        (var selection := Selection(fetcher.main, fetcher.preview);
         Select(db.View(), download.value.hash, download.value.mode) == Some(selection) &&
         fetcher.Remaining(db.View()) == SelectedBytes(db.View(), selection))
      else Valid() && View() == next.phase && Settles(next.action, messages)
    }

    /** The messages answer the action, and the action stores nothing. */
    ghost predicate Settles(action: Option<Action>, messages: seq<Message>)
      reads db
    {
      !(action.Some? && action.value.Finalize?) && Answers(db.View(), db.thumbnail, action, messages)
    }

    /** The handler has read a complete request, known as text. */
    ghost predicate AtRequest()
      reads Repr()
    {
      uploader == null && fetcher == null && requestBuilder != null && db !in Repr() && !crashed &&
      requestBuilder.Ready() && |accumulatedBinaryStart| < 8
    }

    method StartUpload(requestContent: Bytes, meta: Option<FileMeta>, contentStart: Bytes) returns (ok: bool)
      requires AtRequest() && requestBuilder.utf8Content == Some(requestContent) && ValidUtf8(requestContent)
      requires decode(requestContent) == UploadFile(meta)
      modifies this, requestBuilder
      ensures db !in Repr() && fresh(Repr() - old(Repr())) && sent == old(sent) && !crashed
      ensures Processed(ok, OnRequest(decode, requestContent, contentStart, old(accumulatedBinaryStart), old(contentBuf)),
                        None, [])
    {
      if contentStart == [] {
        isFirst := false;
        ok := true;
      } else {
        ok := TakeUploadStart(meta, contentStart);
      }
    }

    method StartDownload(hash: Digest, mode: FetchMode) returns (ok: bool, ghost download: Option<Action>)
      requires AtRequest()
      modifies this, requestBuilder
      ensures db !in Repr() && fresh(Repr() - old(Repr())) && sent == old(sent) && !crashed
      ensures Processed(ok, Moved(RESET, Some(Download(hash, mode))), download, [])
    {
      fetcher := FileFetcher.Open(db, hash, mode);
      if fetcher == null {
        return false, None;
      }
      ok, download := true, Some(Download(hash, mode));
      requestBuilder.Clear();
      isFirst := false;
    }

    method DescribeFile(hash: Digest) returns (ok: bool)
      requires AtRequest()
      modifies this
      ensures db !in Repr() && fresh(Repr() - old(Repr())) && old(sent) <= sent && !crashed
      ensures Processed(ok, Moved(RESET, Some(Describe(hash))), None, sent[|old(sent)|..])
    {
      var metadata := db.FetchHashMetadata(hash);
      if metadata == None {
        return false;
      }
      Write(FileInfo(Some(metadata.value.0), metadata.value.1));
      Reset();
      ok := true;
    }

    /** Answers a complete request. */
    method HandleRequest(requestContent: Bytes, contentStart: Bytes) returns (ok: bool, ghost download: Option<Action>)
      requires AtRequest() && requestBuilder.utf8Content == Some(requestContent) && ValidUtf8(requestContent)
      modifies this, requestBuilder
      ensures db !in Repr() && fresh(Repr() - old(Repr())) && old(sent) <= sent && !crashed
      ensures Processed(ok, OnRequest(decode, requestContent, contentStart, old(accumulatedBinaryStart), old(contentBuf)),
                        download, sent[|old(sent)|..])
    {
      download := None;
      match decode(requestContent) {
        case UploadFile(meta) =>
          ok := StartUpload(requestContent, meta, contentStart);
          assert sent[|old(sent)|..] == [];
        case DownloadFile(hash, mode) =>
          ok, download := StartDownload(hash, mode);
          assert sent[|old(sent)|..] == [];
        case DownloadMetadata(hash) =>
          ok := DescribeFile(hash);
        case Unknown =>
          ok := false;
      }
    }

    /** Recognises the request, or passes the bytes on to the content buffer. False is the
        error path. */
    method ProcessRequest(buffer: Bytes) returns (ok: bool, ghost download: Option<Action>)
      requires Valid() && fetcher == null && !crashed && 0 < |buffer| <= MAX_READ
      modifies this, requestBuilder
      ensures db !in Repr() && fresh(Repr() - old(Repr())) && old(sent) <= sent
      ensures Processed(ok, Step(decode, old(View()), buffer), download, sent[|old(sent)|..])
    {
      hide ValidUtf8, FromBigEndian, Consume;
      ok, download := true, None;
      ghost var before := View();
      if isFirst {
        ParseRequest(buffer);
        if crashed {
          assert Step(decode, before, buffer) == Moved(Crashed, None);
          return;
        }
      }
      if uploader == null && requestBuilder != null && requestBuilder.Ready() {
        ok, download := ReadRequest(buffer);
      } else {
        ExtendContent(buffer, before);
      }
    }

    /** A read that belongs to no recognised request, or to an upload. */
    method ExtendContent(buffer: Bytes, ghost before: Phase)
      requires fetcher == null && !crashed && db !in Repr()
      requires uploader != null ==> Valid() && before == View()
      requires uploader == null ==> isFirst && accumulatedBinaryStart == [] && before == Idle(contentBuf) &&
                                    Step(decode, before, buffer) == Moved(Idle(contentBuf + buffer), None)
      modifies this`contentBuf
      ensures db !in Repr() && Processed(true, Step(decode, before, buffer), None, [])
    {
      contentBuf := contentBuf + buffer;
    }

    method ParseRequest(buffer: Bytes)
      requires isFirst && !crashed && |buffer| <= MAX_READ
      modifies this`requestBuilder, this`crashed
      ensures crashed <==> ParseFrame(buffer) == SliceOutOfRange
      ensures requestBuilder != null <==> ParseFrame(buffer).Parsed?
      ensures requestBuilder != null ==>
                fresh(requestBuilder) && requestBuilder.utf8Content == None &&
                requestBuilder.View() == ParseFrame(buffer).frame
    {
      var outcome;
      outcome, requestBuilder := MessageBuilder.Parse(buffer);
      crashed := outcome == SliceOutOfRange;
    }

    /** Takes the text of the complete request and the bytes of this read behind it. */
    method ReadRequest(buffer: Bytes) returns (ok: bool, ghost download: Option<Action>)
      requires uploader == null && fetcher == null && requestBuilder != null && db !in Repr() && !crashed
      requires requestBuilder.Ready() && |accumulatedBinaryStart| < 8
      requires isFirst ==> requestBuilder.utf8Content == None && requestBuilder.size + 4 <= |buffer|
      requires isFirst ==> |requestBuilder.content| == requestBuilder.size
      requires !isFirst ==> requestBuilder.utf8Content.Some? && ValidUtf8(requestBuilder.utf8Content.value)
      modifies this, requestBuilder
      ensures db !in Repr() && fresh(Repr() - old(Repr())) && old(sent) <= sent && !crashed
      ensures var content := if old(isFirst) then old(requestBuilder.content) else old(requestBuilder.utf8Content.value);
              var next := if old(isFirst) then buffer[old(requestBuilder.size) + 4..] else buffer;
              Processed(ok, OnRequest(decode, content, next, old(accumulatedBinaryStart), old(contentBuf)),
                        download, sent[|old(sent)|..])
    {
      var metadataOffset := if isFirst then requestBuilder.size + 4 else 0;
      var requestContent := requestBuilder.ContentUtf8();
      if requestContent == None {
        return false, None;
      }
      ok, download := HandleRequest(requestContent.value, buffer[metadataOffset..]);
    }

    method Handle(buffer: Bytes) returns (ok: bool)
      requires Valid() && fetcher == null && !crashed && 0 < |buffer| <= MAX_READ
      modifies Repr(), db
      ensures db !in Repr() && fresh(Repr() - old(Repr())) && old(sent) <= sent
      ensures ok ==> Valid() && fetcher == null && View() == Step(decode, old(View()), buffer).phase
      ensures !ok ==> !crashed && sent == old(sent) && Step(decode, old(View()), buffer).phase == RESET
      ensures var action := Step(decode, old(View()), buffer).action;
              && db.View() == Apply(old(db.View()), db.thumbnail, action)
              && Answers(old(db.View()), db.thumbnail, action, if ok then sent[|old(sent)|..] else [Failure])
    {
      ghost var next := Step(decode, View(), buffer);
      ghost var download;
      ok, download := ProcessRequest(buffer);
      if crashed {
        ok := true;
      } else if ok && (uploader != null || fetcher != null) {
        assert sent[|old(sent)|..] == [];
        ok := RunActor(next, download);
      }
    }

    /** Lets the actor take its turn. */
    method RunActor(ghost next: Moved, ghost download: Option<Action>) returns (ok: bool)
      requires !crashed && (uploader != null || fetcher != null) && db !in Repr()
      requires Processed(true, next, download, [])
      modifies Repr(), db
      ensures db !in Repr() && fresh(Repr() - old(Repr())) && old(sent) <= sent && !crashed
      ensures Valid() && fetcher == null && View() == next.phase
      ensures !ok ==> sent == old(sent) && next.phase == RESET
      ensures db.View() == Apply(old(db.View()), db.thumbnail, next.action)
      ensures Answers(old(db.View()), db.thumbnail, next.action, if ok then sent[|old(sent)|..] else [Failure])
    {
      if uploader != null {
        ok := OnUploader();
      } else {
        ok := true;
        OnFetcher(Selection(fetcher.main, fetcher.preview));
      }
    }

    /** One TCP read: errors are answered and reset the handler. */
    method HandleSegmentedFrame(buffer: Bytes)
      requires Valid() && fetcher == null && 0 < |buffer| <= MAX_READ
      modifies Repr(), db
      ensures Valid() && fetcher == null && fresh(Repr() - old(Repr()))
      ensures View() == Step(decode, old(View()), buffer).phase
      ensures var action := Step(decode, old(View()), buffer).action;
              && db.View() == Apply(old(db.View()), db.thumbnail, action)
              && old(sent) <= sent && Answers(old(db.View()), db.thumbnail, action, sent[|old(sent)|..])
    {
      if crashed {
        return;
      }
      var ok := Handle(buffer);
      if !ok {
        Write(Failure);
        Reset();
      }
    }

    /** The handler, the stored files and the messages after `from` are those of a run. */
    ghost predicate Follows(done: Outcome, disk: Disk, from: nat)
      reads Repr(), db
    {
      Valid() && fetcher == null && View() == done.phase && db.View() == ApplyAll(disk, db.thumbnail, done.actions) &&
      from <= |sent| && AnswersAll(disk, db.thumbnail, done.actions, sent[from..])
    }

    method ServeRead(buffer: Bytes, ghost done: Outcome, ghost disk: Disk, ghost from: nat)
      requires 0 < |buffer| <= MAX_READ && Valid() && fetcher == null && Follows(done, disk, from)
      modifies Repr(), db
      ensures fresh(Repr() - old(Repr())) && Follows(Then(decode, done, buffer), disk, from)
    {
      hide Step, ApplyAll, AnswersAll, Answers, Apply;
      ghost var action := Step(decode, done.phase, buffer).action;
      ghost var earlier := sent;
      HandleSegmentedFrame(buffer);
      ApplyOneMore(disk, db.thumbnail, done.actions, action);
      AnswersOneMore(disk, db.thumbnail, done.actions, earlier[from..], action, sent[|earlier|..]);
      assert sent[from..] == earlier[from..] + sent[|earlier|..];
    }

    /** The read loop of one files connection: after any reads the handler, the stored files
        and the messages written are what the run of those reads says. */
    method ServeConnection(segments: seq<Bytes>)
      requires Valid() && fetcher == null
      requires forall i | 0 <= i < |segments| :: 0 < |segments[i]| <= MAX_READ
      modifies Repr(), db
      ensures fresh(Repr() - old(Repr()))
      ensures Follows(Run(decode, old(View()), segments), old(db.View()), |old(sent)|)
    {
      hide Step, ApplyAll, AnswersAll;
      ghost var start, disk, from := View(), db.View(), |sent|;
      ghost var done := Outcome(start, []);
      NothingDone(disk, db.thumbnail);
      assert sent[from..] == [];
      for i := 0 to |segments|
        invariant fresh(Repr() - old(Repr())) && Follows(done, disk, from)
        invariant done == Run(decode, start, segments[..i])
      {
        RunSnoc(decode, start, segments, i);
        ServeRead(segments[i], done, disk, from);
        done := Then(decode, done, segments[i]);
      }
      assert segments[..|segments|] == segments;
    }
  }
}
