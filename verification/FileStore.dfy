/** Content-addressed file storage: finished uploads go into a directory named after
    their hash and get a row in the `hashes` table; downloads read them back. */
module FileStore {
  import opened ByteStrings
  import opened Paths

  type Digest = string

  /** Stands for the text of SHA-256, taken as collision-free: hexadecimal digits, never
      empty, and no two contents with the same. */
  function Sha256(content: Bytes): Digest {
    "0" + Hex(content)
  }

  function Hex(content: Bytes): string {
    if content == [] then "" else [HexDigit(content[0] / 16), HexDigit(content[0] % 16)] + Hex(content[1..])
  }

  function HexDigit(n: nat): char
    requires n < 16
  {
    if n < 10 then '0' + n as char else 'a' + (n - 10) as char
  }

  datatype HashInfo = HashInfo(isMedia: bool, fileName: string, filePath: Location, previewPath: Option<Location>)

  /** The file system and the `hashes` table. */
  datatype Disk = Disk(directories: set<FilePath>, files: map<FilePath, Bytes>, hashes: map<Digest, HashInfo>)

  /** What a client asks to upload. */
  datatype FileMeta = FileMeta(name: string, isMedia: bool, compress: bool)

  datatype FetchMode = PreviewOnly | MediaOnly | Full

  datatype Metadata = Metadata(fileName: string, filePath: Location, fileSize: nat)

  /** The files a download sends: the preview first, then the main file. */
  datatype Selection = Selection(main: Option<Metadata>, preview: Option<Metadata>)

  /** What the outside thumbnail generator does: it may also succeed without writing a
      preview, as for a video without a frame it can decode. */
  datatype Thumbnail = Failed | NotWritten | Written(preview: Bytes)

  type Thumbnailer = (string, Bytes) -> Thumbnail

  // ---------- names ----------

  function LastDot(name: string): (r: Option<nat>)
    ensures r.Some? ==> r.value < |name| && name[r.value] == '.'
  {
    if name == [] then None
    else if name[|name| - 1] == '.' then Some(|name| - 1)
    else LastDot(name[..|name| - 1])
  }

  function PreviewName(name: string): (r: Option<string>)
    ensures r.Some? ==> r.value != name
  {
    match LastDot(name)
    case None => None
    case Some(dot) => Some(name[..dot] + ".preview" + name[dot..])
  }

  function LowerCase(s: string): string {
    if s == [] then []
    else [if 'A' <= s[0] <= 'Z' then s[0] - 'A' + 'a' else s[0]] + LowerCase(s[1..])
  }

  predicate SupportedMedia(name: string) {
    var extension := match LastDot(name) case None => name case Some(dot) => name[dot + 1..];
    LowerCase(extension) in {"mp4", "mov", "webm", "flv", "jpeg", "jpg", "png", "heic"}
  }

  /** The eight extensions of media, in capitals or not; without a dot the whole name counts. */
  lemma {:induction false} MediaByExtension(stem: string, extension: string)
    requires '.' !in extension
    ensures var media := ["mp4", "mov", "webm", "flv", "jpeg", "jpg", "png", "heic"];
            && (SupportedMedia(stem + "." + extension) <==> LowerCase(extension) in media)
            && (SupportedMedia(extension) <==> LowerCase(extension) in media)
  {
    LastDotIs(stem, extension);
    NoDot(extension);
    assert (stem + "." + extension)[|stem| + 1..] == extension;
  }

  lemma {:induction false} LastDotIs(stem: string, extension: string)
    requires '.' !in extension
    ensures LastDot(stem + "." + extension) == Some(|stem|)
  {
    var name := stem + "." + extension;
    if extension != [] {
      var shorter := extension[..|extension| - 1];
      assert name[..|name| - 1] == stem + "." + shorter;
      LastDotIs(stem, shorter);
    }
  }

  lemma {:induction false} NoDot(name: string)
    requires '.' !in name
    ensures LastDot(name) == None
  {
    if name != [] {
      NoDot(name[..|name| - 1]);
    }
  }

  predicate AcceptsName(meta: FileMeta) {
    meta.isMedia ==> SupportedMedia(meta.name)
  }

  // ---------- what finishing an upload does ----------

  /** Something already has the name of the hash's directory. */
  predicate Occupied(disk: Disk, hash: Digest) {
    Home(hash) in disk.directories || Home(hash) in disk.files
  }

  /** The file a path leads to. */
  function FileAt(disk: Disk, location: Location): Option<Bytes> {
    match Resolve(disk.directories, location)
    case None => None
    case Some(path) => if path in disk.files then Some(disk.files[path]) else None
  }

  /** Creates or overwrites. */
  function WriteFile(disk: Disk, location: Location, content: Bytes): Option<Disk> {
    match Writable(disk.directories, location)
    case None => None
    case Some(path) => Some(disk.(files := disk.files[path := content]))
  }

  /** The test for an earlier upload comes first. A copy that fails leaves the directory,
      and a preview that fails the directory and the file, without a row. */
  function Finish(disk: Disk, thumbnail: Thumbnailer, meta: FileMeta, content: Bytes): (Disk, Option<Digest>) {
    var hash := Sha256(content);
    if Occupied(disk, hash) then (disk, Some(hash))
    else
      var made := disk.(directories := disk.directories + {Home(hash)});
      match WriteFile(made, Location(hash, meta.name), content)
      case None => (made, None)
      case Some(copied) =>
        if meta.isMedia then FinishMedia(copied, thumbnail, meta.name, content)
        else (AddRow(copied, hash, HashInfo(false, meta.name, Location(hash, meta.name), None)), Some(hash))
  }

  function FinishMedia(copied: Disk, thumbnail: Thumbnailer, name: string, content: Bytes): (Disk, Option<Digest>) {
    match PreviewName(name)
    case None => (copied, None)
    case Some(previewName) =>
      var hash := Sha256(content);
      var row := HashInfo(true, name, Location(hash, name), Some(Location(hash, previewName)));
      match thumbnail(name, content)
      case Failed => (copied, None)
      case NotWritten => (AddRow(copied, hash, row), Some(hash))
      case Written(preview) =>
        match WriteFile(copied, Location(hash, previewName), preview)
        case None => (copied, None)
        case Some(both) => (AddRow(both, hash, row), Some(hash))
  }

  function AddRow(disk: Disk, hash: Digest, row: HashInfo): Disk {
    disk.(hashes := disk.hashes[hash := row])
  }

  function HashMetadata(disk: Disk, hash: Digest): Option<(Metadata, Option<Metadata>)> {
    if hash !in disk.hashes then None
    else
      var info := disk.hashes[hash];
      match FileAt(disk, info.filePath)
      case None => None
      case Some(file) =>
        var main := Metadata(info.fileName, info.filePath, |file|);
        match info.previewPath
        case None => Some((main, None))
        case Some(path) =>
          match FileAt(disk, path)
          case None => None
          case Some(preview) => Some((main, Some(Metadata("preview.jpg", path, |preview|))))
  }

  /** The files of a download. A medium without preview asked for its preview alone
      selects nothing, which the code treats as unreachable. */
  function Select(disk: Disk, hash: Digest, mode: FetchMode): Option<Selection> {
    match HashMetadata(disk, hash)
    case None => None
    case Some((main, preview)) =>
      if !disk.hashes[hash].isMedia then Some(Selection(Some(main), None))
      else
        match mode
        case PreviewOnly => if preview == None then None else Some(Selection(None, preview))
        case MediaOnly => Some(Selection(Some(main), None))
        case Full => Some(Selection(Some(main), preview))
  }

  function FileBytes(disk: Disk, file: Option<Metadata>): Bytes {
    if file == None then []
    else match FileAt(disk, file.value.filePath) case None => [] case Some(bytes) => bytes
  }

  function SelectedBytes(disk: Disk, selection: Selection): Bytes {
    FileBytes(disk, selection.preview) + FileBytes(disk, selection.main)
  }

  function Content(disk: Disk, hash: Digest, mode: FetchMode): Option<Bytes> {
    match Select(disk, hash, mode)
    case None => None
    case Some(selection) => Some(SelectedBytes(disk, selection))
  }

  // ---------- the hash ----------

  lemma {:induction false} DigitsTell(m: nat, n: nat, c: char, d: char)
    requires m < 16 && n < 16 && c == HexDigit(m) && d == HexDigit(n) && c == d
    ensures m == n
  {
    assert m < 10 ==> c as int == 48 + m;
    assert n < 10 ==> d as int == 48 + n;
    assert m >= 10 ==> c as int == 87 + m;
    assert n >= 10 ==> d as int == 87 + n;
  }

  lemma {:induction false} HexIsInjective(a: Bytes, b: Bytes)
    requires Hex(a) == Hex(b)
    ensures a == b
  {
    if a != [] && b != [] {
      assert Hex(a)[2..] == Hex(a[1..]) && Hex(b)[2..] == Hex(b[1..]);
      HexIsInjective(a[1..], b[1..]);
      DigitsTell(a[0] / 16, b[0] / 16, Hex(a)[0], Hex(b)[0]);
      DigitsTell(a[0] % 16, b[0] % 16, Hex(a)[1], Hex(b)[1]);
      assert a == [a[0]] + a[1..] && b == [b[0]] + b[1..];
    }
  }

  lemma {:induction false} NoCollision(a: Bytes, b: Bytes)
    ensures Sha256(a) == Sha256(b) <==> a == b
  {
    if Sha256(a) == Sha256(b) {
      assert Hex(a) == Sha256(a)[1..] == Sha256(b)[1..] == Hex(b);
      HexIsInjective(a, b);
    }
  }

  lemma {:induction false} HexText(content: Bytes)
    ensures |Hex(content)| == 2 * |content| && '/' !in Hex(content) && '\0' !in Hex(content)
  {
    if content != [] {
      HexText(content[1..]);
    }
  }

  // ---------- invariants of the store ----------

  /** Directories and files form a tree that has the base directory. */
  ghost predicate Tree(disk: Disk) {
    && [] in disk.directories && BASE in disk.directories
    && (forall d | d in disk.directories :: Parent(d) in disk.directories && d !in disk.files)
    && (forall f | f in disk.files :: Parent(f) in disk.directories)
  }

  /** Every row points into its own directory, and the main file is there and hashes to the
      row's key. There may be any other files. */
  ghost predicate Sound(disk: Disk) {
    Tree(disk) && forall hash | hash in disk.hashes :: SoundRow(disk, hash, disk.hashes[hash])
  }

  ghost predicate SoundRow(disk: Disk, hash: Digest, info: HashInfo) {
    && Home(hash) in disk.directories
    && info.filePath == Location(hash, info.fileName) && OwnName(info.fileName)
    && OwnPath(info.filePath) in disk.files && Sha256(disk.files[OwnPath(info.filePath)]) == hash
    && (info.isMedia <==> info.previewPath.Some?)
    && (info.previewPath.Some? ==> info.previewPath.value.directory == hash && OwnName(info.previewPath.value.name))
  }

  /** Nothing already stored changes or goes. */
  ghost predicate Keeps(before: Disk, after: Disk) {
    && before.directories <= after.directories
    && (forall path | path in before.files :: path in after.files && after.files[path] == before.files[path])
    && (forall hash | hash in before.hashes :: hash in after.hashes && after.hashes[hash] == before.hashes[hash])
  }

  /** Moreover an existing directory never gains a file, nor its hash a row. */
  ghost predicate Extends(before: Disk, after: Disk) {
    && Keeps(before, after)
    && (forall path | path in after.files && Parent(path) in before.directories :: path in before.files)
    && (forall hash | hash in after.hashes && Occupied(before, hash) :: hash in before.hashes)
  }

  lemma {:induction false} ExtendsIsTransitive(a: Disk, b: Disk, c: Disk)
    requires Extends(a, b) && Extends(b, c)
    ensures Extends(a, c)
  {
  }

  lemma {:induction false} OwnPathParent(location: Location)
    ensures Parent(OwnPath(location)) == Home(location.directory)
  {
  }

  // ---------- uploads under their own name ----------

  lemma {:induction false} OwnWrite(disk: Disk, location: Location, content: Bytes)
    requires Tree(disk) && OwnName(location.name) && Home(location.directory) in disk.directories
    requires OwnPath(location) !in disk.directories
    ensures WriteFile(disk, location, content) == Some(disk.(files := disk.files[OwnPath(location) := content]))
    ensures Tree(WriteFile(disk, location, content).value)
  {
    OwnNameResolves(disk.directories, location);
    OwnPathParent(location);
  }

  lemma {:induction false} OwnPiecesTail(front: seq<string>, a: string, b: string)
    requires OwnPieces(front + [a]) && |b| > 2
    ensures OwnPieces(front + [b])
    decreases |front|
  {
    if front != [] {
      assert (front + [a])[1..] == front[1..] + [a] && (front + [b])[1..] == front[1..] + [b];
      OwnPiecesTail(front[1..], a, b);
    }
  }

  lemma {:induction false} LowerCaseKeeps(s: string, i: nat)
    requires i < |s|
    ensures |LowerCase(s)| == |s| && (s[i] == '/' || s[i] == '\0' ==> LowerCase(s)[i] == s[i])
  {
    if i > 0 {
      LowerCaseKeeps(s[1..], i - 1);
    } else if |s| > 1 {
      LowerCaseKeeps(s[1..], 0);
    }
  }

  lemma {:induction false} ExtensionHasNoSlash(name: string, dot: nat)
    requires SupportedMedia(name) && LastDot(name) == Some(dot)
    ensures '/' !in name[dot..]
  {
    var extension := name[dot + 1..];
    forall i | 0 <= i < |extension| ensures extension[i] != '/' {
      LowerCaseKeeps(extension, i);
    }
    assert name[dot..] == ['.'] + extension;
  }

  /** The preview of a medium with an own name has another own name. */
  lemma {:induction false} PreviewIsOwn(name: string)
    requires OwnName(name) && SupportedMedia(name) && LastDot(name).Some?
    ensures OwnName(PreviewName(name).value)
    ensures Last(Split(PreviewName(name).value)) != Last(Split(name))
  {
    var dot := LastDot(name).value;
    var stem, tail := name[..dot], name[dot..];
    var longer := ".preview" + tail;
    ExtensionHasNoSlash(name, dot);
    SplitTail(stem, tail);
    SplitTail(stem, longer);
    assert name == stem + tail && PreviewName(name).value == stem + longer by {
      assert stem + ".preview" + tail == stem + longer;
    }
    var front, last := Split(stem)[..|Split(stem)| - 1], Last(Split(stem));
    assert Lengthened(Split(stem), tail) == front + [last + tail];
    assert Lengthened(Split(stem), longer) == front + [last + longer];
    OwnPiecesTail(front, last + tail, last + longer);
    assert |last + longer| > |last + tail|;
    assert stem == [] ==> tail[0] == '.';
  }

  /** The hash, unless it is new media whose preview cannot be made. */
  function ExpectedAnswer(thumbnail: Thumbnailer, meta: FileMeta, content: Bytes): Option<Digest> {
    if meta.isMedia && (LastDot(meta.name) == None || thumbnail(meta.name, content) == Failed) then None
    else Some(Sha256(content))
  }

  /** What an upload under an own name does: files only in its own new directory, and a
      sound row if it is answered with the hash. */
  ghost predicate Adds(disk: Disk, after: Disk, hash: Digest, answer: Option<Digest>) {
    && Tree(after) && after.directories == disk.directories + {Home(hash)}
    && (forall f | f in after.files && f !in disk.files :: Parent(f) == Home(hash))
    && (forall f | f in disk.files :: f in after.files && after.files[f] == disk.files[f])
    && (answer == None ==> after.hashes == disk.hashes)
    && (answer.Some? ==> exists info :: after.hashes == disk.hashes[hash := info] && SoundRow(after, hash, info))
  }

  lemma {:induction false} OwnCopy(disk: Disk, main: Location, content: Bytes)
    requires Sound(disk) && OwnName(main.name) && !Occupied(disk, main.directory)
    ensures var made := disk.(directories := disk.directories + {Home(main.directory)});
            var copied := made.(files := disk.files[OwnPath(main) := content]);
            && WriteFile(made, main, content) == Some(copied) && Tree(copied)
            && OwnPath(main) !in disk.files && Adds(disk, copied, main.directory, None)
  {
    hide Split, Walk;
    var made := disk.(directories := disk.directories + {Home(main.directory)});
    assert Parent(Home(main.directory)) == BASE;
    OwnPathParent(main);
    OwnWrite(made, main, content);
  }

  lemma {:induction false} OwnPreview(disk: Disk, copied: Disk, main: Location, name: string, preview: Bytes)
    requires Adds(disk, copied, main.directory, None) && Tree(disk) && !Occupied(disk, main.directory)
    requires OwnPath(main) in copied.files && OwnPath(main) !in disk.files
    requires OwnName(name) && Last(Split(name)) != Last(Split(main.name))
    ensures var both := WriteFile(copied, Location(main.directory, name), preview);
            && both.Some? && Adds(disk, both.value, main.directory, None)
            && OwnPath(main) in both.value.files && both.value.files[OwnPath(main)] == copied.files[OwnPath(main)]
  {
    var location := Location(main.directory, name);
    OwnPathParent(location);
    assert Last(OwnPath(location)) == Last(Split(name)) && Last(OwnPath(main)) == Last(Split(main.name));
    OwnWrite(copied, location, preview);
  }

  lemma {:induction false} OwnUpload(disk: Disk, thumbnail: Thumbnailer, meta: FileMeta, content: Bytes)
    requires Sound(disk) && OwnName(meta.name) && AcceptsName(meta) && !Occupied(disk, Sha256(content))
    ensures var (after, answer) := Finish(disk, thumbnail, meta, content);
            answer == ExpectedAnswer(thumbnail, meta, content) && Adds(disk, after, Sha256(content), answer)
  {
    var hash := Sha256(content);
    var main := Location(hash, meta.name);
    OwnCopy(disk, main, content);
    var copied := Disk(disk.directories + {Home(hash)}, disk.files[OwnPath(main) := content], disk.hashes);
    if meta.isMedia {
      OwnMedia(disk, copied, thumbnail, meta.name, content);
    } else {
      RowAdded(disk, copied, hash, HashInfo(false, meta.name, main, None));
    }
  }

  lemma {:induction false} OwnMedia(disk: Disk, copied: Disk, thumbnail: Thumbnailer, name: string, content: Bytes)
    requires OwnName(name) && SupportedMedia(name) && Tree(disk) && !Occupied(disk, Sha256(content))
    requires Adds(disk, copied, Sha256(content), None)
    requires var main := OwnPath(Location(Sha256(content), name));
             main in copied.files && main !in disk.files && copied.files[main] == content
    ensures var (after, answer) := FinishMedia(copied, thumbnail, name, content);
            answer == ExpectedAnswer(thumbnail, FileMeta(name, true, false), content) &&
            Adds(disk, after, Sha256(content), answer)
  {
    hide Split, Walk, SupportedMedia;
    if LastDot(name).Some? {
      var hash := Sha256(content);
      var previewName := PreviewName(name).value;
      var row := HashInfo(true, name, Location(hash, name), Some(Location(hash, previewName)));
      PreviewIsOwn(name);
      match thumbnail(name, content) {
        case Failed =>
        case NotWritten =>
          RowAdded(disk, copied, hash, row);
        case Written(preview) =>
          OwnPreview(disk, copied, Location(hash, name), previewName, preview);
          RowAdded(disk, WriteFile(copied, Location(hash, previewName), preview).value, hash, row);
      }
    }
  }

  lemma {:induction false} RowAdded(disk: Disk, copied: Disk, hash: Digest, row: HashInfo)
    requires Adds(disk, copied, hash, None) && SoundRow(copied, hash, row)
    ensures Adds(disk, AddRow(copied, hash, row), hash, Some(hash))
  {
    assert SoundRow(AddRow(copied, hash, row), hash, row);
  }

  lemma {:induction false} AddsExtends(disk: Disk, after: Disk, hash: Digest, answer: Option<Digest>)
    requires Sound(disk) && !Occupied(disk, hash) && Adds(disk, after, hash, answer)
    ensures Sound(after) && Extends(disk, after) && Occupied(after, hash)
  {
    hide OwnPath, OwnName;
    forall h | h in disk.hashes ensures h != hash && SoundRow(after, h, disk.hashes[h]) {
      assert SoundRow(disk, h, disk.hashes[h]);
    }
    forall h | h in after.hashes ensures SoundRow(after, h, after.hashes[h]) {
      assert h in disk.hashes ==> SoundRow(after, h, disk.hashes[h]);
    }
    assert forall path | path in after.files && Parent(path) in disk.directories :: path in disk.files;
  }

  /** Under an own name stored entries are never overwritten, and the store stays sound. */
  lemma {:induction false} FinishExtends(disk: Disk, thumbnail: Thumbnailer, meta: FileMeta, content: Bytes)
    requires Sound(disk) && OwnName(meta.name) && AcceptsName(meta)
    ensures Sound(Finish(disk, thumbnail, meta, content).0)
    ensures Extends(disk, Finish(disk, thumbnail, meta, content).0)
    ensures Occupied(Finish(disk, thumbnail, meta, content).0, Sha256(content))
  {
    hide Adds;
    if !Occupied(disk, Sha256(content)) {
      OwnUpload(disk, thumbnail, meta, content);
      var (after, answer) := Finish(disk, thumbnail, meta, content);
      AddsExtends(disk, after, Sha256(content), answer);
    }
  }

  // ---------- all other names ----------

  /** A new upload is answered as it should be and no stored file or row changes. */
  ghost predicate UploadsWell(disk: Disk, thumbnail: Thumbnailer, meta: FileMeta, content: Bytes) {
    Sound(disk) && !Occupied(disk, Sha256(content)) ==>
      var (after, answer) := Finish(disk, thumbnail, meta, content);
      answer == ExpectedAnswer(thumbnail, meta, content) && Keeps(disk, after)
  }

  /** Exactly the own names upload well into every sound store: any other name fails or
      overwrites something in some store. */
  lemma {:induction false} ExactlyOwnNamesUploadWell(meta: FileMeta)
    requires AcceptsName(meta)
    ensures OwnName(meta.name) <==> forall disk, thumbnail, content :: UploadsWell(disk, thumbnail, meta, content)
  {
    if OwnName(meta.name) {
      forall disk, thumbnail, content ensures UploadsWell(disk, thumbnail, meta, content) {
        if Sound(disk) && !Occupied(disk, Sha256(content)) {
          FinishExtends(disk, thumbnail, meta, content);
          OwnUpload(disk, thumbnail, meta, content);
        }
      }
    } else {
      OtherNameFails(meta);
    }
  }

  lemma {:induction false} OtherNameFails(meta: FileMeta)
    requires AcceptsName(meta) && !OwnName(meta.name)
    ensures exists disk, thumbnail, content :: !UploadsWell(disk, thumbnail, meta, content)
  {
    var content := seq(|meta.name|, i => 0);
    var hash := Sha256(content);
    var thumbnail := (n: string, c: Bytes) => NotWritten;
    var directories := {[], BASE, Home(hash)};
    var empty := Disk({[], BASE}, map[], map[]);
    HexText(content);
    assert empty.directories + {Home(hash)} == directories;
    match Writable(directories, Location(hash, meta.name)) {
      case None =>
        UnwritableFails(empty, thumbnail, meta, content);
      case Some(path) =>
        OtherNameLeaves(meta.name, hash, path);
        var full := Disk({[], BASE}, map[path := [1]], map[]);
        assert !UploadsWell(full, thumbnail, meta, content) by {
          OverwritesFails(full, thumbnail, meta, content, path);
        }
    }
  }

  lemma {:induction false} UnwritableFails(disk: Disk, thumbnail: Thumbnailer, meta: FileMeta, content: Bytes)
    requires Sound(disk) && !Occupied(disk, Sha256(content)) && AcceptsName(meta) && !OwnName(meta.name)
    requires Writable(disk.directories + {Home(Sha256(content))}, Location(Sha256(content), meta.name)) == None
    requires forall n, c :: thumbnail(n, c) == NotWritten
    ensures !UploadsWell(disk, thumbnail, meta, content)
  {
    if meta.isMedia && LastDot(meta.name) == None {
      DotlessMediaIsOwn(meta.name);
    }
  }

  lemma {:induction false} DotlessMediaIsOwn(name: string)
    requires SupportedMedia(name) && LastDot(name) == None
    ensures OwnName(name)
  {
    forall i | 0 <= i < |name| ensures name[i] != '/' && name[i] != '\0' {
      LowerCaseKeeps(name, i);
    }
    SplitPlain(name);
  }

  lemma {:induction false} OtherNameLeaves(name: string, hash: Digest, path: FilePath)
    requires !OwnName(name) && |hash| > |name|
    requires Writable({[], BASE, Home(hash)}, Location(hash, name)) == Some(path)
    ensures path != [] && (Parent(path) == [] || Parent(path) == BASE) && path != Home(hash) && path != BASE
  {
    var directories, pieces := {[], BASE, Home(hash)}, Split(name);
    forall i | 0 <= i < |pieces| ensures pieces[i] != hash {
      PiecesAreShorter(name, i);
    }
    assert Parent(Home(hash)) == BASE && Parent(BASE) == [] && Parent([]) == [];
    WalkParent(directories, if Absolute(name) then [] else Home(hash), pieces);
    if Absolute(name) {
      WalkElsewhere(directories, hash, [], pieces);
    } else {
      OtherNamesLeave(directories, hash, pieces);
    }
  }

  lemma {:induction false} OverwritesFails(disk: Disk, thumbnail: Thumbnailer, meta: FileMeta, content: Bytes, path: FilePath)
    requires !Occupied(disk, Sha256(content)) && Sound(disk)
    requires Writable(disk.directories + {Home(Sha256(content))}, Location(Sha256(content), meta.name)) == Some(path)
    requires path in disk.files && disk.files[path] != content
    requires forall n, c :: thumbnail(n, c) == NotWritten
    ensures !UploadsWell(disk, thumbnail, meta, content)
  {
  }

  const EMPTY := Disk({[], BASE}, map[], map[])

  /** A name that climbs out of its directory and down into another upload's replaces that
      upload's file: its hash then leads to the other content. */
  lemma {:induction false} ClimbingNameExample(thumbnail: Thumbnailer, x: Bytes, y: Bytes, name: string)
    requires x != y && OwnName(name) && '/' !in name
    ensures var first := Finish(EMPTY, thumbnail, FileMeta(name, false, false), x);
            var climbing := ".." + "/" + (Sha256(x) + "/" + name);
            var second := Finish(first.0, thumbnail, FileMeta(climbing, false, false), y);
            && Content(first.0, Sha256(x), MediaOnly) == Some(x) && second.1 == Some(Sha256(y))
            && Content(second.0, Sha256(x), MediaOnly) == Some(y)
  {
    var main := Location(Sha256(x), name);
    NoCollision(x, y);
    NewUploadIsFetched(EMPTY, thumbnail, FileMeta(name, false, false), x);
    OwnCopy(EMPTY, main, x);
    var first := Finish(EMPTY, thumbnail, FileMeta(name, false, false), x).0;
    assert first == Disk(EMPTY.directories + {Home(Sha256(x))}, map[OwnPath(main) := x],
                         map[Sha256(x) := HashInfo(false, name, main, None)]);
    ClimbingUpload(thumbnail, first, x, y, main);
  }

  lemma {:induction false} ClimbingUpload(thumbnail: Thumbnailer, first: Disk, x: Bytes, y: Bytes, main: Location)
    requires main.directory == Sha256(x) != Sha256(y) && OwnName(main.name) && '/' !in main.name
    requires first == Disk({[], BASE, Home(Sha256(x))}, map[OwnPath(main) := x],
                           map[Sha256(x) := HashInfo(false, main.name, main, None)])
    ensures var climbing := ".." + "/" + (Sha256(x) + "/" + main.name);
            var second := Finish(first, thumbnail, FileMeta(climbing, false, false), y);
            second.1 == Some(Sha256(y)) && Content(second.0, Sha256(x), MediaOnly) == Some(y)
  {
    hide Split, Walk, Hex;
    var climbing := ".." + "/" + (Sha256(x) + "/" + main.name);
    assert !Occupied(first, Sha256(y)) by {
      assert Home(Sha256(x))[1] == Sha256(x) && Home(Sha256(y))[1] == Sha256(y) && |OwnPath(main)| == 3;
    }
    ClimbingNameResolves(first.directories + {Home(Sha256(y))}, Sha256(y), x, main.name);
    var second := Finish(first, thumbnail, FileMeta(climbing, false, false), y).0;
    assert second.directories == first.directories + {Home(Sha256(y))};
    OwnNameResolves(second.directories, main);
    assert FileAt(second, main) == Some(y) && [] + y == y;
  }

  lemma {:induction false} ClimbingNameResolves(directories: set<FilePath>, from: Digest, x: Bytes, name: string)
    requires {[], BASE, Home(from), Home(Sha256(x))} <= directories
    requires OwnName(name) && '/' !in name
    ensures Resolve(directories, Location(from, ".." + "/" + (Sha256(x) + "/" + name)))
         == Some(OwnPath(Location(Sha256(x), name)))
  {
    var into := Sha256(x);
    ClimbingNameSplits(x, name);
    SplitPlain(name);
    var pieces := ["..", into, name];
    assert pieces[1..] == [into, name] && [into, name][1..] == [name] && [name][1..] == [];
    assert Walk(directories, Home(into), [name]) == Some(Home(into) + [name]);
    assert into[0] == '0';
    assert Walk(directories, BASE, [into, name]) == Walk(directories, Home(into), [name]);
    assert Parent(Home(from)) == BASE;
  }

  lemma {:induction false} ClimbingNameSplits(x: Bytes, name: string)
    requires '/' !in name && '\0' !in name
    ensures Split(".." + "/" + (Sha256(x) + "/" + name)) == ["..", Sha256(x), name]
    ensures '\0' !in ".." + "/" + (Sha256(x) + "/" + name)
  {
    var hash := Sha256(x);
    HexText(x);
    assert '/' !in hash && '\0' !in hash;
    SplitPlain(hash);
    SplitPlain(name);
    SplitJoin(hash, name);
    var inner := hash + "/" + name;
    assert '\0' !in inner;
    SplitPlain("..");
    SplitJoin("..", inner);
    assert '\0' !in ".." + "/";
  }

  /** A document whose name is no file name fails after its directory was made. A later
      upload of the same content is answered with the hash but cannot be fetched. */
  lemma {:induction false} NoFileNameExample(thumbnail: Thumbnailer, content: Bytes, meta: FileMeta)
    ensures var first := Finish(EMPTY, thumbnail, FileMeta("", false, false), content);
            var second := Finish(first.0, thumbnail, meta, content);
            first.1 == None && second.1 == Some(Sha256(content)) && Content(second.0, Sha256(content), MediaOnly) == None
  {
    assert Split("") == [""] && [""][1..] == [];
  }

  // ---------- fetching ----------

  lemma {:induction false} OwnFile(disk: Disk, hash: Digest)
    requires Sound(disk) && hash in disk.hashes
    ensures var info := disk.hashes[hash];
            && FileAt(disk, info.filePath) == Some(disk.files[OwnPath(info.filePath)])
            && (info.previewPath.Some? ==>
                  (FileAt(disk, info.previewPath.value).Some? <==> OwnPath(info.previewPath.value) in disk.files) &&
                  Parent(OwnPath(info.previewPath.value)) in disk.directories)
  {
    assert SoundRow(disk, hash, disk.hashes[hash]);
    var info := disk.hashes[hash];
    OwnNameResolves(disk.directories, info.filePath);
    if info.previewPath.Some? {
      OwnNameResolves(disk.directories, info.previewPath.value);
      OwnPathParent(info.previewPath.value);
    }
  }

  /** A stored hash can be fetched, in every mode, exactly unless it is a medium whose
      preview was not written; its main file is then the content with that hash. */
  lemma {:induction false} RowsCanBeFetched(disk: Disk, hash: Digest, mode: FetchMode)
    requires Sound(disk) && hash in disk.hashes
    ensures var preview := disk.hashes[hash].previewPath;
            Select(disk, hash, mode).Some? <==> preview == None || FileAt(disk, preview.value).Some?
    ensures Select(disk, hash, mode).Some? ==>
              Content(disk, hash, MediaOnly).Some? && Sha256(Content(disk, hash, MediaOnly).value) == hash
  {
    assert SoundRow(disk, hash, disk.hashes[hash]);
    OwnFile(disk, hash);
    var file := disk.files[OwnPath(disk.hashes[hash].filePath)];
    assert [] + file == file;
  }

  lemma {:induction false} FileStays(before: Disk, after: Disk, location: Location)
    requires Extends(before, after) && OwnName(location.name) && Home(location.directory) in before.directories
    ensures FileAt(after, location) == FileAt(before, location)
  {
    OwnNameResolves(before.directories, location);
    OwnNameResolves(after.directories, location);
    OwnPathParent(location);
  }

  lemma {:induction false} SameFilesSameContent(before: Disk, after: Disk, hash: Digest, mode: FetchMode)
    requires hash in before.hashes && hash in after.hashes && after.hashes[hash] == before.hashes[hash]
    requires var info := before.hashes[hash];
             FileAt(after, info.filePath) == FileAt(before, info.filePath) &&
             (info.previewPath.Some? ==> FileAt(after, info.previewPath.value) == FileAt(before, info.previewPath.value))
    ensures Content(after, hash, mode) == Content(before, hash, mode)
  {
  }

  /** What can be fetched, and what cannot, stays so while the store is extended. */
  lemma {:induction false} ExtensionKeepsContent(before: Disk, after: Disk, hash: Digest, mode: FetchMode)
    requires Sound(before) && Extends(before, after) && Occupied(before, hash)
    ensures Content(after, hash, mode) == Content(before, hash, mode)
  {
    if hash in before.hashes {
      var info := before.hashes[hash];
      assert SoundRow(before, hash, info);
      FileStays(before, after, info.filePath);
      if info.previewPath.Some? {
        FileStays(before, after, info.previewPath.value);
      }
      SameFilesSameContent(before, after, hash, mode);
    }
  }

  /** A new upload that is answered with its hash can be fetched, unless its preview was
      not written. */
  lemma {:induction false} NewUploadIsFetched(disk: Disk, thumbnail: Thumbnailer, meta: FileMeta, content: Bytes)
    requires Sound(disk) && OwnName(meta.name) && AcceptsName(meta) && !Occupied(disk, Sha256(content))
    requires ExpectedAnswer(thumbnail, meta, content).Some?
    ensures var after := Finish(disk, thumbnail, meta, content).0;
            Content(after, Sha256(content), MediaOnly)
            == if meta.isMedia && thumbnail(meta.name, content) == NotWritten then None else Some(content)
  {
    hide Split, Walk;
    var hash := Sha256(content);
    var after := Finish(disk, thumbnail, meta, content).0;
    FinishExtends(disk, thumbnail, meta, content);
    OwnCopy(disk, Location(hash, meta.name), content);
    if meta.isMedia {
      PreviewIsWritten(disk, thumbnail, meta.name, content);
    }
    RowsCanBeFetched(after, hash, MediaOnly);
    if Content(after, hash, MediaOnly).Some? {
      NoCollision(Content(after, hash, MediaOnly).value, content);
    }
  }

  lemma {:induction false} PreviewIsWritten(disk: Disk, thumbnail: Thumbnailer, name: string, content: Bytes)
    requires Sound(disk) && OwnName(name) && SupportedMedia(name) && !Occupied(disk, Sha256(content))
    requires LastDot(name).Some? && thumbnail(name, content) != Failed
    ensures var after := Finish(disk, thumbnail, FileMeta(name, true, false), content).0;
            FileAt(after, Location(Sha256(content), PreviewName(name).value))
            == if thumbnail(name, content) == NotWritten then None else Some(thumbnail(name, content).preview)
  {
    hide Split, Walk, SupportedMedia;
    var hash := Sha256(content);
    var main, preview := Location(hash, name), Location(hash, PreviewName(name).value);
    var copied := Disk(disk.directories + {Home(hash)}, disk.files[OwnPath(main) := content], disk.hashes);
    OwnCopy(disk, main, content);
    PreviewIsOwn(name);
    OwnPathParent(preview);
    assert OwnPath(preview)[2] != OwnPath(main)[2];
    OwnNameResolves(copied.directories, preview);
    if thumbnail(name, content).Written? {
      OwnWrite(copied, preview, thumbnail(name, content).preview);
    }
  }

  /** The row of a new upload: its name and kind, and for media the preview that was made. */
  lemma {:induction false} NewUploadRow(disk: Disk, thumbnail: Thumbnailer, meta: FileMeta, content: Bytes)
    requires Sound(disk) && OwnName(meta.name) && AcceptsName(meta) && !Occupied(disk, Sha256(content))
    requires ExpectedAnswer(thumbnail, meta, content).Some?
    ensures var (after, hash) := (Finish(disk, thumbnail, meta, content).0, Sha256(content));
            && hash in after.hashes && after.hashes[hash].fileName == meta.name
            && after.hashes[hash].isMedia == meta.isMedia
            && (meta.isMedia ==>
                  var path := after.hashes[hash].previewPath;
                  path.Some? && FileAt(after, path.value) == if thumbnail(meta.name, content) == NotWritten then None
                                                             else Some(thumbnail(meta.name, content).preview))
  {
    hide Split, Walk;
    OwnCopy(disk, Location(Sha256(content), meta.name), content);
    OwnUpload(disk, thumbnail, meta, content);
    if meta.isMedia {
      PreviewIsWritten(disk, thumbnail, meta.name, content);
    }
  }

  /** What each mode selects, and what is announced of it: the main file under the name it
      was uploaded with; for media the preview, or the main file, or both, and for a document
      always the main file. */
  lemma {:induction false} WhatEachModeSends(disk: Disk, hash: Digest, mode: FetchMode)
    requires Sound(disk) && Select(disk, hash, mode).Some?
    ensures var info := disk.hashes[hash];
            var main := disk.files[OwnPath(info.filePath)];
            var named := Some(Metadata(info.fileName, info.filePath, |main|));
            hash in disk.hashes && Sha256(main) == hash &&
            if !info.isMedia then
              Select(disk, hash, mode) == Some(Selection(named, None)) && Content(disk, hash, mode) == Some(main)
            else
              OwnPath(info.previewPath.value) in disk.files &&
              var preview := disk.files[OwnPath(info.previewPath.value)];
              var small := Some(Metadata("preview.jpg", info.previewPath.value, |preview|));
              && (mode == PreviewOnly ==> Select(disk, hash, mode) == Some(Selection(None, small)) &&
                                          Content(disk, hash, mode) == Some(preview))
              && (mode == MediaOnly ==> Select(disk, hash, mode) == Some(Selection(named, None)) &&
                                        Content(disk, hash, mode) == Some(main))
              && (mode == Full ==> Select(disk, hash, mode) == Some(Selection(named, small)) &&
                                   Content(disk, hash, mode) == Some(preview + main))
  {
    assert SoundRow(disk, hash, disk.hashes[hash]);
    OwnFile(disk, hash);
    var main := disk.files[OwnPath(disk.hashes[hash].filePath)];
    assert [] + main == main;
    if disk.hashes[hash].isMedia {
      OwnNameResolves(disk.directories, disk.hashes[hash].previewPath.value);
      var preview := FileBytes(disk, HashMetadata(disk, hash).value.1);
      assert preview + [] == preview;
    }
  }

  /** The announced sizes add up to the bytes of the stream. */
  lemma {:induction false} AnnouncedSizes(disk: Disk, hash: Digest, mode: FetchMode)
    requires Select(disk, hash, mode).Some?
    ensures var s := Select(disk, hash, mode).value;
            |SelectedBytes(disk, s)|
            == (if s.main.Some? then s.main.value.fileSize else 0)
             + (if s.preview.Some? then s.preview.value.fileSize else 0)
  {
  }

  // ---------- the objects ----------

  class Storage {
    var directories: set<FilePath>
    var files: map<FilePath, Bytes>
    var hashes: map<Digest, HashInfo>
    const thumbnail: Thumbnailer

    constructor (thumbnail: Thumbnailer)
      ensures View() == EMPTY && this.thumbnail == thumbnail
    {
      directories, files, hashes := {[], BASE}, map[], map[];
      this.thumbnail := thumbnail;
    }

    ghost function View(): Disk
      reads this
    {
      Disk(directories, files, hashes)
    }

    method Read(location: Location) returns (content: Option<Bytes>)
      ensures content == FileAt(View(), location)
    {
      var path := Resolve(directories, location);
      content := if path.Some? && path.value in files then Some(files[path.value]) else None;
    }

    /** Copies to the path, over an existing file if there is one. */
    method Copy(content: Bytes, location: Location) returns (ok: bool)
      modifies this`files
      ensures var next := WriteFile(old(View()), location, content);
              ok == next.Some? && View() == if ok then next.value else old(View())
    {
      var path := Writable(directories, location);
      ok := path.Some?;
      if ok {
        files := files[path.value := content];
      }
    }

    method IsOccupied(hash: Digest) returns (r: bool)
      ensures r == Occupied(View(), hash)
    {
      r := Home(hash) in directories || Home(hash) in files;
    }

    method AddHash(isMedia: bool, hash: Digest, fileName: string, filePath: Location, previewPath: Option<Location>)
      modifies this`hashes
      ensures hashes == old(hashes)[hash := HashInfo(isMedia, fileName, filePath, previewPath)]
    {
      hashes := hashes[hash := HashInfo(isMedia, fileName, filePath, previewPath)];
    }

    method FetchHash(hash: Digest) returns (info: Option<HashInfo>)
      ensures info == if hash in hashes then Some(hashes[hash]) else None
    {
      info := if hash in hashes then Some(hashes[hash]) else None;
    }

    method FetchHashMetadata(hash: Digest) returns (r: Option<(Metadata, Option<Metadata>)>)
      ensures r == HashMetadata(View(), hash)
    {
      var found := FetchHash(hash);
      if found == None {
        return None;
      }
      var info := found.value;
      var file := Read(info.filePath);
      if file == None {
        return None;
      }
      var preview := None;
      if info.previewPath.Some? {
        var bytes := Read(info.previewPath.value);
        if bytes == None {
          return None;
        }
        preview := Some(Metadata("preview.jpg", info.previewPath.value, |bytes.value|));
      }
      r := Some((Metadata(info.fileName, info.filePath, |file.value|), preview));
    }
  }

  /** A temporary file and the running hash of what was written to it. */
  class DocumentUploader {
    var hasher: Bytes
    var tempFile: Bytes
    const docName: string

    constructor (docName: string)
      ensures hasher == tempFile == [] && this.docName == docName
    {
      hasher, tempFile := [], [];
      this.docName := docName;
    }

    method UploadPart(part: Bytes)
      modifies this
      ensures tempFile == old(tempFile) + part && hasher == old(hasher) + part
    {
      tempFile := tempFile + part;
      hasher := hasher + part;
    }

    method Finalize(db: Storage) returns (hash: Option<Digest>)
      requires hasher == tempFile
      modifies db
      ensures (db.View(), hash) == Finish(old(db.View()), db.thumbnail, FileMeta(docName, false, false), tempFile)
    {
      var digest := Sha256(hasher);
      var occupied := db.IsOccupied(digest);
      if occupied {
        return Some(digest);
      }
      var filePath := Location(digest, docName);
      db.directories := db.directories + {Home(digest)};
      var copied := db.Copy(tempFile, filePath);
      if !copied {
        return None;
      }
      db.AddHash(false, digest, docName, filePath, None);
      hash := Some(digest);
    }
  }

  class MediaUploader {
    var hasher: Bytes
    var tempFile: Bytes
    const docName: string

    constructor (docName: string)
      ensures hasher == tempFile == [] && this.docName == docName
    {
      hasher, tempFile := [], [];
      this.docName := docName;
    }

    method UploadPart(part: Bytes)
      modifies this
      ensures tempFile == old(tempFile) + part && hasher == old(hasher) + part
    {
      tempFile := tempFile + part;
      hasher := hasher + part;
    }

    method Finalize(db: Storage) returns (hash: Option<Digest>)
      requires hasher == tempFile
      modifies db
      ensures (db.View(), hash) == Finish(old(db.View()), db.thumbnail, FileMeta(docName, true, false), tempFile)
    {
      var digest := Sha256(hasher);
      var occupied := db.IsOccupied(digest);
      if occupied {
        return Some(digest);
      }
      var filePath := Location(digest, docName);
      db.directories := db.directories + {Home(digest)};
      var copied := db.Copy(tempFile, filePath);
      if !copied {
        return None;
      }
      hash := MakePreview(db, digest, filePath);
    }

    /** The preview and the row. */
    method MakePreview(db: Storage, digest: Digest, filePath: Location) returns (hash: Option<Digest>)
      requires digest == Sha256(tempFile) && filePath == Location(digest, docName)
      modifies db
      ensures (db.View(), hash) == FinishMedia(old(db.View()), db.thumbnail, docName, tempFile)
    {
      var previewName := PreviewName(docName);
      if previewName == None {
        return None;
      }
      var previewPath := Location(digest, previewName.value);
      var preview := db.thumbnail(docName, tempFile);
      if preview == Failed {
        return None;
      }
      if preview.Written? {
        var copied := db.Copy(preview.preview, previewPath);
        if !copied {
          return None;
        }
      }
      db.AddHash(true, digest, docName, filePath, Some(previewPath));
      hash := Some(digest);
    }
  }

  /** Reads the selected files one chunk at a time; a read may return any number of
      bytes up to the buffer size. */
  class FileFetcher {
    var main: Option<Metadata>
    var preview: Option<Metadata>
    /** The unread part of the open file. */
    var currentFile: Bytes

    static method Open(db: Storage, hash: Digest, mode: FetchMode) returns (fetcher: FileFetcher?)
      ensures fetcher == null <==> Select(db.View(), hash, mode) == None
      ensures fetcher != null ==>
                fresh(fetcher) && fetcher.Valid(db.View()) &&
                Select(db.View(), hash, mode) == Some(Selection(fetcher.main, fetcher.preview)) &&
                fetcher.Remaining(db.View()) == SelectedBytes(db.View(), Selection(fetcher.main, fetcher.preview))
    {
      var info := db.FetchHash(hash);
      if info == None {
        return null;
      }
      var metadatas := db.FetchHashMetadata(hash);
      if metadatas == None {
        return null;
      }
      var (main, preview) := metadatas.value;
      var selected: (Option<Metadata>, Option<Metadata>);
      if info.value.isMedia {
        match mode
        case PreviewOnly => selected := (None, preview);
        case MediaOnly => selected := (Some(main), None);
        case Full => selected := (Some(main), preview);
      } else {
        selected := (Some(main), None);
      }
      var first := if selected.1.Some? then selected.1 else selected.0;
      if first == None {
        return null;
      }
      var file := db.Read(first.value.filePath);
      fetcher := new FileFetcher(selected, file.value);
    }

    constructor (metadatas: (Option<Metadata>, Option<Metadata>), file: Bytes)
      ensures main == metadatas.0 && preview == metadatas.1 && currentFile == file
    {
      main, preview, currentFile := metadatas.0, metadatas.1, file;
    }

    ghost predicate Valid(disk: Disk)
      reads this
    {
      main.Some? && preview.Some? ==> FileAt(disk, main.value.filePath).Some?
    }

    /** The bytes still to be sent. */
    ghost function Remaining(disk: Disk): Bytes
      reads this
    {
      if preview.Some? then currentFile + FileBytes(disk, main)
      else if main.Some? then currentFile
      else []
    }

    ghost function FilesLeft(): nat
      reads this
    {
      (if main.Some? then 1 else 0) + (if preview.Some? then 1 else 0)
    }

    predicate IsFinished()
      reads this
    {
      main == None && preview == None
    }

    /** One chunk, of any length a read of the open file may return. */
    method FetchDataFrame(db: Storage, maxChunk: nat) returns (frame: Bytes)
      requires Valid(db.View()) && maxChunk > 0
      modifies this
      ensures Valid(db.View()) && |frame| <= maxChunk
      ensures frame + Remaining(db.View()) == old(Remaining(db.View()))
      ensures !old(IsFinished()) ==>
                FilesLeft() < old(FilesLeft()) ||
                (FilesLeft() == old(FilesLeft()) && |currentFile| < old(|currentFile|))
      ensures frame == [] <==> old(IsFinished()) || old(currentFile) == []
    {
      frame := [];
      if preview.Some? {
        frame := ReadChunk(maxChunk);
        if frame == [] {
          preview := None;
          if main.Some? {
            var file := db.Read(main.value.filePath);
            currentFile := file.value;
          }
        }
      } else if main.Some? {
        frame := ReadChunk(maxChunk);
        if frame == [] {
          main := None;
        }
      }
    }

    method ReadChunk(maxChunk: nat) returns (chunk: Bytes)
      requires maxChunk > 0
      modifies this`currentFile
      ensures |chunk| <= maxChunk && chunk + currentFile == old(currentFile)
      ensures chunk == [] <==> old(currentFile) == []
    {
      if currentFile == [] {
        return [];
      }
      var n: nat :| 1 <= n <= |currentFile| && n <= maxChunk by {
        assert 1 <= 1 <= |currentFile| && 1 <= maxChunk;
      }
      chunk := currentFile[..n];
      currentFile := currentFile[n..];
    }
  }
}
