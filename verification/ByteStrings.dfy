/** Byte strings, the big-endian integers of the wire format, and the values
    shared by the modules that model optional results. */
module ByteStrings {

  type Byte = b: int | 0 <= b < 256

  type Bytes = seq<Byte>

  datatype Option<+T> = None | Some(value: T)

  /** The bytes that a list of TCP reads delivers. */
  function Flatten(segments: seq<Bytes>): Bytes {
    if segments == [] then [] else segments[0] + Flatten(segments[1..])
  }

  ghost predicate NonEmpty(segments: seq<Bytes>) {
    forall i | 0 <= i < |segments| :: segments[i] != []
  }

  ghost predicate Distinct<T>(s: seq<T>) {
    forall i, j | 0 <= i < j < |s| :: s[i] != s[j]
  }

  function Power256(width: nat): nat {
    if width == 0 then 1 else 256 * Power256(width - 1)
  }

  /** `to_be_bytes` of an unsigned integer of the given width in bytes. */
  function BigEndian(n: nat, width: nat): (r: Bytes)
    requires n < Power256(width)
    ensures |r| == width
  {
    if width == 0 then [] else BigEndian(n / 256, width - 1) + [n % 256]
  }

  /** `from_be_bytes`. */
  function FromBigEndian(bytes: Bytes): nat {
    if bytes == [] then 0
    else 256 * FromBigEndian(bytes[..|bytes| - 1]) + bytes[|bytes| - 1]
  }

  lemma {:induction false} BigEndianRoundTrip(n: nat, width: nat)
    requires n < Power256(width)
    ensures FromBigEndian(BigEndian(n, width)) == n
  {
    if width > 0 {
      BigEndianRoundTrip(n / 256, width - 1);
      assert BigEndian(n, width)[..width - 1] == BigEndian(n / 256, width - 1);
    }
  }

  lemma {:induction false} FlattenConcat(a: seq<Bytes>, b: seq<Bytes>)
    ensures Flatten(a + b) == Flatten(a) + Flatten(b)
  {
    if a == [] {
      assert a + b == b;
    } else {
      assert (a + b)[1..] == a[1..] + b;
      FlattenConcat(a[1..], b);
    }
  }

  lemma {:induction false} SplitEqual(a: Bytes, b: Bytes, c: Bytes, d: Bytes)
    requires a + b == c + d && |a| == |c|
    ensures a == c && b == d
  {
    assert a == (a + b)[..|a|] == (c + d)[..|a|] == c;
    assert b == (a + b)[|a|..] == (c + d)[|a|..] == d;
  }

  /** Strict UTF-8 (RFC 3629), the test behind `String::from_utf8`. */
  predicate ValidUtf8(s: Bytes) {
    s == [] ||
    (s[0] < 0x80 && ValidUtf8(s[1..])) ||
    (0xC2 <= s[0] <= 0xDF && Continues(s, 1) && ValidUtf8(s[2..])) ||
    (0xE0 <= s[0] <= 0xEF && Continues(s, 2)
     && (s[0] == 0xE0 ==> s[1] >= 0xA0) && (s[0] == 0xED ==> s[1] <= 0x9F) && ValidUtf8(s[3..])) ||
    (0xF0 <= s[0] <= 0xF4 && Continues(s, 3)
     && (s[0] == 0xF0 ==> s[1] >= 0x90) && (s[0] == 0xF4 ==> s[1] <= 0x8F) && ValidUtf8(s[4..]))
  }

  predicate Continues(s: Bytes, n: nat) {
    |s| > n && forall i | 1 <= i <= n :: 0x80 <= s[i] <= 0xBF
  }

  // ---------- what the test accepts ----------

  /** A Unicode scalar value: a code point that is no surrogate. */
  predicate Scalar(c: nat) {
    c < 0xD800 || 0xE000 <= c < 0x11_0000
  }

  /** The encoding of a scalar value in one to four bytes (RFC 3629, section 3). */
  function EncodeScalar(c: nat): (r: Bytes)
    requires Scalar(c)
    ensures |r| > 0
  {
    if c < 0x80 then [c]
    else if c < 0x800 then [0xC0 + c / 0x40, 0x80 + c % 0x40]
    else if c < 0x1_0000 then [0xE0 + c / 0x1000, 0x80 + c / 0x40 % 0x40, 0x80 + c % 0x40]
    else [0xF0 + c / 0x4_0000, 0x80 + c / 0x1000 % 0x40, 0x80 + c / 0x40 % 0x40, 0x80 + c % 0x40]
  }

  predicate Scalars(text: seq<nat>) {
    forall i | 0 <= i < |text| :: Scalar(text[i])
  }

  function Encode(text: seq<nat>): Bytes
    requires Scalars(text)
  {
    if text == [] then [] else EncodeScalar(text[0]) + Encode(text[1..])
  }

  /** A byte string is accepted exactly if it encodes some text. */
  lemma {:induction false} ValidIsEncoded(s: Bytes)
    ensures ValidUtf8(s) <==> exists text :: Scalars(text) && Encode(text) == s
  {
    if ValidUtf8(s) {
      var text := Decoded(s);
    }
    if exists text :: Scalars(text) && Encode(text) == s {
      var text :| Scalars(text) && Encode(text) == s;
      EncodedIsValid(text);
    }
  }

  lemma {:induction false} EncodedIsValid(text: seq<nat>)
    requires Scalars(text)
    ensures ValidUtf8(Encode(text))
  {
    if text != [] {
      EncodedIsValid(text[1..]);
      ScalarThenRest(text[0], Encode(text[1..]));
    }
  }

  lemma {:induction false} ScalarThenRest(c: nat, rest: Bytes)
    requires Scalar(c) && ValidUtf8(rest)
    ensures ValidUtf8(EncodeScalar(c) + rest)
  {
    hide Encode;
    var s := EncodeScalar(c) + rest;
    assert s[|EncodeScalar(c)|..] == rest;
  }

  lemma {:induction false} TwoBytes(s: Bytes) returns (c: nat)
    requires |s| == 2 && 0xC2 <= s[0] <= 0xDF && 0x80 <= s[1] <= 0xBF
    ensures Scalar(c) && EncodeScalar(c) == s
  {
    var lead: int, a: int := s[0], s[1];
    c := (lead - 0xC0) * 0x40 + (a - 0x80);
  }

  lemma {:induction false} ThreeBytes(s: Bytes) returns (c: nat)
    requires |s| == 3 && 0xE0 <= s[0] <= 0xEF && Continues(s, 2)
    requires (s[0] == 0xE0 ==> s[1] >= 0xA0) && (s[0] == 0xED ==> s[1] <= 0x9F)
    ensures Scalar(c) && EncodeScalar(c) == s
  {
    var lead: int, a: int, b: int := s[0], s[1], s[2];
    c := (lead - 0xE0) * 0x1000 + (a - 0x80) * 0x40 + (b - 0x80);
    assert c / 0x40 == (lead - 0xE0) * 0x40 + (a - 0x80);
  }

  lemma {:induction false} FourBytes(s: Bytes) returns (c: nat)
    requires |s| == 4 && 0xF0 <= s[0] <= 0xF4 && Continues(s, 3)
    requires (s[0] == 0xF0 ==> s[1] >= 0x90) && (s[0] == 0xF4 ==> s[1] <= 0x8F)
    ensures Scalar(c) && EncodeScalar(c) == s
  {
    var lead: int, a: int, b: int, d: int := s[0], s[1], s[2], s[3];
    c := (lead - 0xF0) * 0x4_0000 + (a - 0x80) * 0x1000 + (b - 0x80) * 0x40 + (d - 0x80);
    assert c / 0x40 == (lead - 0xF0) * 0x1000 + (a - 0x80) * 0x40 + (b - 0x80);
    assert c / 0x1000 == (lead - 0xF0) * 0x40 + (a - 0x80);
  }

  /** The first scalar value of an accepted string, and what follows it. */
  lemma {:induction false} FirstScalar(s: Bytes) returns (c: nat, rest: Bytes)
    requires s != [] && ValidUtf8(s)
    ensures Scalar(c) && ValidUtf8(rest) && s == EncodeScalar(c) + rest
  {
    var n := if s[0] < 0x80 then 1 else if s[0] < 0xE0 then 2 else if s[0] < 0xF0 then 3 else 4;
    rest := s[n..];
    if n == 1 {
      c := s[0];
    } else if n == 2 {
      c := TwoBytes(s[..2]);
    } else if n == 3 {
      c := ThreeBytes(s[..3]);
    } else {
      c := FourBytes(s[..4]);
    }
    assert s == s[..n] + rest;
  }

  lemma {:induction false} Decoded(s: Bytes) returns (text: seq<nat>)
    requires ValidUtf8(s)
    ensures Scalars(text) && Encode(text) == s
    decreases |s|
  {
    if s == [] {
      text := [];
    } else {
      var c, rest := FirstScalar(s);
      var later := Decoded(rest);
      text := [c] + later;
      assert text[1..] == later;
    }
  }
}
