/** How the operating system finds the file a path names. An upload's path is its own
    directory joined with a name that the client chose. */
module Paths {
  import opened ByteStrings

  /** An absolute path without `.` and `..`, from the root. */
  type FilePath = seq<string>

  /** `/server_data/`. */
  const BASE: FilePath := ["server_data"]

  /** The path as written: a name joined to the directory of a hash. */
  datatype Location = Location(directory: string, name: string)

  function Home(directory: string): FilePath {
    BASE + [directory]
  }

  /** The pieces between the slashes. */
  function Split(s: string): (pieces: seq<string>)
    ensures |pieces| > 0
  {
    if s == [] then [""]
    else
      var rest := Split(s[1..]);
      if s[0] == '/' then [""] + rest else [[s[0]] + rest[0]] + rest[1..]
  }

  function Last(pieces: seq<string>): string
    requires |pieces| > 0
  {
    pieces[|pieces| - 1]
  }

  function Parent(path: FilePath): FilePath {
    if path == [] then [] else path[..|path| - 1]
  }

  /** Follows the pieces from `at`. Each step starts from an existing directory; only the
      last piece may name something that is not there. */
  function Walk(directories: set<FilePath>, at: FilePath, pieces: seq<string>): Option<FilePath>
    decreases |pieces|
  {
    if pieces == [] then Some(at)
    else if at !in directories then None
    else if pieces[0] == "" || pieces[0] == "." then Walk(directories, at, pieces[1..])
    else if pieces[0] == ".." then Walk(directories, Parent(at), pieces[1..])
    else Walk(directories, at + [pieces[0]], pieces[1..])
  }

  predicate Absolute(name: string) {
    name != [] && name[0] == '/'
  }

  /** Joining an absolute name replaces the directory. A name with a zero character is no
      path at all. */
  function Resolve(directories: set<FilePath>, location: Location): Option<FilePath> {
    if '\0' in location.name then None
    else Walk(directories, if Absolute(location.name) then [] else Home(location.directory), Split(location.name))
  }

  /** The file that a write through the path creates or replaces, if it can. */
  function Writable(directories: set<FilePath>, location: Location): Option<FilePath> {
    match Resolve(directories, location)
    case None => None
    case Some(path) => if path in directories then None else Some(path)
  }

  /** The names that stay where they belong: one normal component, perhaps behind `.` or
      empty ones. */
  predicate OwnName(name: string) {
    '\0' !in name && !Absolute(name) && OwnPieces(Split(name))
  }

  predicate OwnPieces(pieces: seq<string>)
    requires |pieces| > 0
    decreases |pieces|
  {
    if |pieces| == 1 then pieces[0] !in ["", ".", ".."]
    else pieces[0] in ["", "."] && OwnPieces(pieces[1..])
  }

  function OwnPath(location: Location): FilePath {
    Home(location.directory) + [Last(Split(location.name))]
  }

  // ---------- splitting ----------

  lemma {:induction false} SplitPlain(s: string)
    requires '/' !in s
    ensures Split(s) == [s]
  {
    if s != [] {
      SplitPlain(s[1..]);
      assert s == [s[0]] + s[1..];
    }
  }

  lemma {:induction false} SplitJoin(a: string, b: string)
    ensures Split(a + "/" + b) == Split(a) + Split(b)
  {
    var whole := a + "/" + b;
    if a == [] {
      assert whole[1..] == b;
    } else {
      assert whole[1..] == a[1..] + "/" + b;
      SplitJoin(a[1..], b);
    }
  }

  /** Text without a slash only lengthens the last piece. */
  lemma {:induction false} SplitTail(s: string, tail: string)
    requires '/' !in tail
    ensures Split(s + tail) == Lengthened(Split(s), tail)
  {
    var whole := s + tail;
    if s == [] {
      assert whole == tail;
      SplitPlain(tail);
    } else {
      assert whole[0] == s[0] && whole[1..] == s[1..] + tail;
      SplitTail(s[1..], tail);
      LengthenedBehind(Split(s[1..]), s[0], tail);
    }
  }

  function Lengthened(pieces: seq<string>, tail: string): seq<string>
    requires |pieces| > 0
  {
    pieces[|pieces| - 1 := Last(pieces) + tail]
  }

  lemma {:induction false} LengthenedBehind(rest: seq<string>, c: char, tail: string)
    requires |rest| > 0
    ensures [""] + Lengthened(rest, tail) == Lengthened([""] + rest, tail)
    ensures [[c] + Lengthened(rest, tail)[0]] + Lengthened(rest, tail)[1..] == Lengthened([[c] + rest[0]] + rest[1..], tail)
  {
    if |rest| == 1 {
      assert [c] + (rest[0] + tail) == ([c] + rest[0]) + tail;
    }
  }

  lemma {:induction false} PiecesAreShorter(s: string, i: nat)
    requires i < |Split(s)|
    ensures |Split(s)[i]| <= |s|
  {
    if s != [] {
      if s[0] == '/' {
        if i > 0 {
          PiecesAreShorter(s[1..], i - 1);
        }
      } else {
        PiecesAreShorter(s[1..], i);
      }
    }
  }

  // ---------- walking ----------

  /** What a write can create has an existing parent. */
  lemma {:induction false} WalkParent(directories: set<FilePath>, at: FilePath, pieces: seq<string>)
    requires pieces != [] && Walk(directories, at, pieces).Some?
    requires [] in directories && forall d | d in directories :: Parent(d) in directories
    ensures var path := Walk(directories, at, pieces).value;
            path in directories || (path != [] && Parent(path) in directories)
    decreases |pieces|
  {
    var next := if pieces[0] == "" || pieces[0] == "." then at
                else if pieces[0] == ".." then Parent(at)
                else at + [pieces[0]];
    if |pieces| == 1 {
      assert pieces[1..] == [];
    } else {
      WalkParent(directories, next, pieces[1..]);
    }
  }

  lemma {:induction false} WalkOwn(directories: set<FilePath>, at: FilePath, pieces: seq<string>)
    requires |pieces| > 0 && OwnPieces(pieces) && at in directories
    ensures Walk(directories, at, pieces) == Some(at + [Last(pieces)])
    decreases |pieces|
  {
    if |pieces| == 1 {
      assert pieces[1..] == [];
    } else {
      WalkOwn(directories, at, pieces[1..]);
    }
  }

  /** An own name resolves into the directory it belongs to. */
  lemma {:induction false} OwnNameResolves(directories: set<FilePath>, location: Location)
    requires OwnName(location.name) && Home(location.directory) in directories
    ensures Resolve(directories, location) == Some(OwnPath(location))
  {
    WalkOwn(directories, Home(location.directory), Split(location.name));
  }

  /** From outside the directory, and without naming it, a walk does not end in it. */
  lemma {:induction false} WalkElsewhere(directories: set<FilePath>, hash: string, at: FilePath, pieces: seq<string>)
    requires directories == {[], BASE, Home(hash)} && (at == [] || at == BASE)
    requires forall i | 0 <= i < |pieces| :: pieces[i] != hash
    requires Walk(directories, at, pieces).Some? && Walk(directories, at, pieces).value !in directories
    ensures Parent(Walk(directories, at, pieces).value) != Home(hash)
    decreases |pieces|
  {
    var rest := pieces[1..];
    if pieces[0] == "" || pieces[0] == "." {
      WalkElsewhere(directories, hash, at, rest);
    } else if pieces[0] == ".." {
      WalkElsewhere(directories, hash, Parent(at), rest);
    } else if rest != [] {
      var next := at + [pieces[0]];
      assert next in directories;
      assert next == BASE || next == Home(hash);
      assert next[|next| - 1] == pieces[0] && Home(hash)[1] == hash;
      WalkElsewhere(directories, hash, next, rest);
    }
  }

  /** Any other name, in a directory that has just been made, fails or leads outside. */
  lemma {:induction false} OtherNamesLeave(directories: set<FilePath>, hash: string, pieces: seq<string>)
    requires directories == {[], BASE, Home(hash)} && |pieces| > 0 && !OwnPieces(pieces)
    requires forall i | 0 <= i < |pieces| :: pieces[i] != hash
    requires Walk(directories, Home(hash), pieces).Some? && Walk(directories, Home(hash), pieces).value !in directories
    ensures Parent(Walk(directories, Home(hash), pieces).value) != Home(hash)
    decreases |pieces|
  {
    var rest, inside := pieces[1..], Home(hash) + [pieces[0]];
    assert |inside| == 3;
    if pieces[0] == "" || pieces[0] == "." {
      assert rest != [];
      OtherNamesLeave(directories, hash, rest);
    } else if pieces[0] == ".." {
      WalkElsewhere(directories, hash, BASE, rest);
    }
  }
}
