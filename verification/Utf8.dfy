/** UTF-8 text: well-formed bytes, code points and character boundaries. */
module Utf8 {
  import opened Bytes

  predicate Continuation(b: byte) { 0x80 <= b <= 0xBF }

  /** The number of bytes of a well-formed UTF-8 character at the front, or
      zero. */
  function CharLength(b: Text): (n: nat)
    ensures n <= |b|
  {
    if b == [] then 0
    else if b[0] < 0x80 then 1
    else if 0xC2 <= b[0] <= 0xDF && |b| >= 2 && Continuation(b[1]) then 2
    else if 0xE0 <= b[0] <= 0xEF && |b| >= 3 && Continuation(b[1]) && Continuation(b[2])
            && (b[0] == 0xE0 ==> b[1] >= 0xA0) && (b[0] == 0xED ==> b[1] <= 0x9F) then 3
    else if 0xF0 <= b[0] <= 0xF4 && |b| >= 4 && Continuation(b[1]) && Continuation(b[2]) && Continuation(b[3])
            && (b[0] == 0xF0 ==> b[1] >= 0x90) && (b[0] == 0xF4 ==> b[1] <= 0x8F) then 4
    else 0
  }

  predicate IsUtf8(b: Text) {
    b == [] || (CharLength(b) > 0 && IsUtf8(b[CharLength(b)..]))
  }

  /** A byte offset that does not split a UTF-8 character. */
  predicate Boundary(source: Text, at: nat) {
    at == 0 || at == |source| || (at < |source| && !(0x80 <= source[at] <= 0xBF))
  }

  // --------------------------------------------------------- code points

  /** A Unicode scalar value: a code point that is not a surrogate. */
  ghost predicate Scalar(c: nat) {
    c < 0xD800 || 0xE000 <= c < 0x11_0000
  }

  /** The bytes of one scalar value, as section 3 of RFC 3629 lays them out. */
  ghost function CharBytes(c: nat): Text
    requires Scalar(c)
  {
    if c < 0x80 then [c]
    else if c < 0x800 then [0xC0 + c / 0x40, 0x80 + c % 0x40]
    else if c < 0x1_0000 then [0xE0 + c / 0x1000, 0x80 + c / 0x40 % 0x40, 0x80 + c % 0x40]
    else [0xF0 + c / 0x4_0000, 0x80 + c / 0x1000 % 0x40, 0x80 + c / 0x40 % 0x40, 0x80 + c % 0x40]
  }

  ghost predicate Scalars(cs: seq<nat>) {
    forall i :: 0 <= i < |cs| ==> Scalar(cs[i])
  }

  ghost function TextBytes(cs: seq<nat>): Text
    requires Scalars(cs)
  {
    if cs == [] then [] else CharBytes(cs[0]) + TextBytes(cs[1..])
  }

  lemma CharRecognised(c: nat, rest: Text)
    requires Scalar(c)
    ensures CharLength(CharBytes(c) + rest) == |CharBytes(c)| > 0
  {
    hide CharLength;
    if c < 0x800 {
      ShortRecognised(CharBytes(c), rest);
    } else if c < 0x1_0000 {
      ThreeLead(c);
      ThreeRecognised(CharBytes(c), rest);
    } else {
      FourLead(c);
      FourRecognised(CharBytes(c), rest);
    }
  }

  lemma ThreeLead(c: nat)
    requires 0x800 <= c < 0x1_0000 && Scalar(c)
    ensures c / 0x1000 == 0 ==> c / 0x40 % 0x40 >= 0x20
    ensures c / 0x1000 == 0xD ==> c / 0x40 % 0x40 < 0x20
  {
    var high := c / 0x40;
    assert high / 0x40 == c / 0x1000;
  }

  lemma FourLead(c: nat)
    requires 0x1_0000 <= c < 0x11_0000
    ensures c / 0x4_0000 == 0 ==> c / 0x1000 % 0x40 >= 0x10
    ensures c / 0x4_0000 == 4 ==> c / 0x1000 % 0x40 < 0x10
  {
    var high := c / 0x1000;
    assert high / 0x40 == c / 0x4_0000;
  }

  lemma ShortRecognised(b: Text, rest: Text)
    requires (|b| == 1 && b[0] < 0x80) || (|b| == 2 && 0xC2 <= b[0] <= 0xDF && Continuation(b[1]))
    ensures CharLength(b + rest) == |b|
  {
  }

  lemma ThreeRecognised(b: Text, rest: Text)
    requires |b| == 3 && 0xE0 <= b[0] <= 0xEF && Continuation(b[1]) && Continuation(b[2])
    requires (b[0] == 0xE0 ==> b[1] >= 0xA0) && (b[0] == 0xED ==> b[1] <= 0x9F)
    ensures CharLength(b + rest) == 3
  {
  }

  lemma FourRecognised(b: Text, rest: Text)
    requires |b| == 4 && 0xF0 <= b[0] <= 0xF4 && Continuation(b[1]) && Continuation(b[2]) && Continuation(b[3])
    requires (b[0] == 0xF0 ==> b[1] >= 0x90) && (b[0] == 0xF4 ==> b[1] <= 0x8F)
    ensures CharLength(b + rest) == 4
  {
  }

  lemma Two(b: Text) returns (c: nat)
    requires CharLength(b) == 2
    ensures Scalar(c) && CharBytes(c) == b[..2]
  {
    var x: int, y: int := b[0] - 0xC0, b[1] - 0x80;
    c := x * 0x40 + y;
    assert c / 0x40 == x && c % 0x40 == y;
  }

  lemma Three(b: Text) returns (c: nat)
    requires CharLength(b) == 3
    ensures Scalar(c) && CharBytes(c) == b[..3]
  {
    var x: int, y: int, z: int := b[0] - 0xE0, b[1] - 0x80, b[2] - 0x80;
    var high := x * 0x40 + y;
    c := high * 0x40 + z;
    assert c / 0x40 == high && c % 0x40 == z && high / 0x40 == x && high % 0x40 == y;
    assert c / 0x1000 == x;
  }

  lemma Four(b: Text) returns (c: nat)
    requires CharLength(b) == 4
    ensures Scalar(c) && CharBytes(c) == b[..4]
  {
    var x: int, y: int, z: int, w: int := b[0] - 0xF0, b[1] - 0x80, b[2] - 0x80, b[3] - 0x80;
    var top := x * 0x40 + y;
    var high := top * 0x40 + z;
    c := high * 0x40 + w;
    assert c / 0x40 == high && c % 0x40 == w && high / 0x40 == top && high % 0x40 == z;
    assert top / 0x40 == x && top % 0x40 == y;
    assert c / 0x1000 == top && c / 0x4_0000 == x;
  }

  /** The character at the front is the bytes of a scalar value. */
  lemma CharRead(b: Text) returns (c: nat)
    requires CharLength(b) > 0
    ensures Scalar(c) && CharBytes(c) == b[..CharLength(b)]
  {
    match CharLength(b) {
      case 1 => c := b[0];
      case 2 => c := Two(b);
      case 3 => c := Three(b);
      case 4 => c := Four(b);
    }
  }

  /** Well-formed bytes are exactly the bytes of some scalar values. */
  lemma Utf8Exact(b: Text)
    ensures IsUtf8(b) <==> exists cs :: Scalars(cs) && TextBytes(cs) == b
  {
    hide IsUtf8, TextBytes;
    if IsUtf8(b) { var cs := ReadText(b); }
    forall cs | Scalars(cs) ensures IsUtf8(TextBytes(cs)) { TextRecognised(cs); }
  }

  lemma {:induction false} ReadText(b: Text) returns (cs: seq<nat>)
    requires IsUtf8(b)
    ensures Scalars(cs) && TextBytes(cs) == b
    decreases |b|
  {
    hide CharLength, CharBytes;
    if b == [] {
      cs := [];
    } else {
      var c := CharRead(b);
      var n := CharLength(b);
      var rest := ReadText(b[n..]);
      cs := [c] + rest;
      assert cs[1..] == rest && b == b[..n] + b[n..];
    }
  }

  lemma {:induction false} TextRecognised(cs: seq<nat>)
    requires Scalars(cs)
    ensures IsUtf8(TextBytes(cs))
    decreases |cs|
  {
    hide CharLength, CharBytes;
    if cs != [] {
      var first, rest := CharBytes(cs[0]), TextBytes(cs[1..]);
      CharRecognised(cs[0], rest);
      TextRecognised(cs[1..]);
      assert (first + rest)[|first|..] == rest;
    }
  }

  // ---------------------------------------------------------- boundaries

  /** Inside a character there are only continuation bytes; a character never
      begins with one. */
  lemma CharInside(b: Text)
    requires CharLength(b) > 0
    ensures !Continuation(b[0]) && forall i :: 0 < i < CharLength(b) ==> Continuation(b[i])
  {
  }

  lemma CharFront(b: Text, at: nat)
    requires at <= |b| && CharLength(b) > 0
    ensures CharLength(b) <= at ==> CharLength(b[..at]) == CharLength(b)
    ensures 0 < at < CharLength(b) ==> CharLength(b[..at]) == 0
  {
  }

  /** In UTF-8 text an offset is a boundary exactly when the text before it is
      UTF-8, and then so is the text after it. */
  lemma {:induction false} BoundaryExact(b: Text, at: nat)
    requires IsUtf8(b) && at <= |b|
    ensures Boundary(b, at) <==> IsUtf8(b[..at])
    ensures Boundary(b, at) ==> IsUtf8(b[at..])
    decreases |b|
  {
    hide CharLength;
    if at == 0 {
      assert b[..at] == [] && b[at..] == b;
    } else {
      var n := CharLength(b);
      CharInside(b);
      CharFront(b, at);
      if at < n {
        assert Continuation(b[at]);
      } else {
        var rest := b[n..];
        BoundaryExact(rest, at - n);
        assert b[..at][n..] == rest[..at - n] && b[at..] == rest[at - n..];
        RestBoundary(b, n, at);
      }
    }
  }

  lemma RestBoundary(b: Text, n: nat, at: nat)
    requires n <= at <= |b| && IsUtf8(b[n..])
    ensures Boundary(b, at) || at == n < |b| <==> Boundary(b[n..], at - n)
    ensures at == n ==> Boundary(b, at)
  {
    if n < |b| { CharInside(b[n..]); }
  }

  lemma {:induction false} Utf8Append(a: Text, b: Text)
    requires IsUtf8(a) && IsUtf8(b)
    ensures IsUtf8(a + b)
    decreases |a|
  {
    hide CharLength;
    if a == [] {
      assert a + b == b;
    } else {
      var n := CharLength(a);
      Utf8Append(a[n..], b);
      CharLonger(a, b);
      assert (a + b)[n..] == a[n..] + b;
    }
  }

  lemma CharLonger(a: Text, b: Text)
    requires CharLength(a) > 0
    ensures CharLength(a + b) == CharLength(a)
  {
  }

  /** The text between two boundaries is UTF-8. */
  lemma SliceUtf8(b: Text, lo: nat, hi: nat)
    requires IsUtf8(b) && lo <= hi <= |b| && Boundary(b, lo) && Boundary(b, hi)
    ensures IsUtf8(b[lo..hi])
  {
    hide IsUtf8;
    BoundaryExact(b, lo);
    BoundaryExact(b, hi);
    var rest := b[lo..];
    assert b[lo..hi] == rest[..hi - lo];
    if lo < hi < |b| { BoundaryExact(rest, hi - lo); } else { assert lo == hi ==> b[lo..hi] == []; Empty(); }
    assert hi == |b| ==> rest[..hi - lo] == rest;
  }

  lemma Empty()
    ensures IsUtf8([])
  {
  }
}
