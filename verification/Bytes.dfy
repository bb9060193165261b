/** Bytes, little-endian words and the lexicographic order of byte strings. */
module Bytes {

  const U16_LIMIT := 0x1_0000
  const U32_LIMIT := 0x1_0000_0000
  const U64_LIMIT := 0x1_0000_0000_0000_0000

  type byte = x: int | 0 <= x < 0x100
  type u16 = x: int | 0 <= x < 0x1_0000
  type u32 = x: int | 0 <= x < 0x1_0000_0000
  type u64 = x: int | 0 <= x < 0x1_0000_0000_0000_0000

  type Text = seq<byte>

  /** Digit `i` of `x` in base 256, least significant first. */
  function Digit(x: nat, i: nat): byte {
    if i == 0 then x % 0x100 else Digit(x / 0x100, i - 1)
  }

  function Le(x: nat, n: nat): (b: seq<byte>)
    ensures |b| == n
  {
    seq(n, i requires 0 <= i < n => Digit(x, i))
  }

  function Le16(x: u16): (b: seq<byte>)
    ensures |b| == 2
  {
    Le(x, 2)
  }

  function Le32(x: u32): (b: seq<byte>)
    ensures |b| == 4
  {
    Le(x, 4)
  }

  function FromLe16(b: seq<byte>): (x: u16)
    requires |b| == 2
  {
    b[0] as int + 0x100 * b[1] as int
  }

  function FromLe32(b: seq<byte>): (x: u32)
    requires |b| == 4
  {
    FromLe16(b[..2]) as int + 0x1_0000 * FromLe16(b[2..]) as int
  }

  lemma Le16RoundTrip(x: u16)
    ensures FromLe16(Le16(x)) == x
  {
    assert Digit(x, 1) == Digit(x / 0x100, 0);
  }

  lemma Digits32(x: u32)
    ensures Le32(x)[..2] == Le16(x % 0x1_0000)
    ensures Le32(x)[2..] == Le16(x / 0x1_0000)
  {
    var h := x / 0x100;
    assert Digit(x, 1) == Digit(h, 0);
    assert Digit(x, 2) == Digit(h, 1) == Digit(h / 0x100, 0);
    assert Digit(x, 3) == Digit(h, 2) == Digit(h / 0x100, 1);
    var l := x % 0x1_0000;
    assert Digit(l, 1) == Digit(l / 0x100, 0);
    assert h / 0x100 == x / 0x1_0000;
  }

  lemma Le32RoundTrip(x: u32)
    ensures FromLe32(Le32(x)) == x
  {
    Digits32(x);
    Le16RoundTrip(x % 0x1_0000);
    Le16RoundTrip(x / 0x1_0000);
  }

  lemma Le16Unread(b: seq<byte>)
    requires |b| == 2
    ensures Le16(FromLe16(b)) == b
  {
    var x := FromLe16(b);
    assert Digit(x, 1) == Digit(x / 0x100, 0);
  }

  lemma Le32Unread(b: seq<byte>)
    requires |b| == 4
    ensures Le32(FromLe32(b)) == b
  {
    var x := FromLe32(b);
    Le16Unread(b[..2]);
    Le16Unread(b[2..]);
    Digits32(x);
    assert x % 0x1_0000 == FromLe16(b[..2]) && x / 0x1_0000 == FromLe16(b[2..]);
    assert b == b[..2] + b[2..];
    assert Le32(x) == Le32(x)[..2] + Le32(x)[2..];
  }

  lemma Le32Injective(x: u32, y: u32)
    requires Le32(x) == Le32(y)
    ensures x == y
  {
    Le32RoundTrip(x);
    Le32RoundTrip(y);
  }

  /** Strict lexicographic order, the order of `[u8]::cmp`. */
  predicate Less(a: seq<byte>, b: seq<byte>) {
    b != [] && (a == [] || a[0] < b[0] || (a[0] == b[0] && Less(a[1..], b[1..])))
  }

  /** The first place where two byte strings differ. */
  ghost predicate DiffersAt(a: seq<byte>, b: seq<byte>, k: nat) {
    && k <= |a| && k <= |b| && a[..k] == b[..k]
    && if k < |a| && k < |b| then a[k] != b[k] else |a| != |b|
  }

  /** The order is the lexicographic one: at the first difference the smaller
      has the smaller byte, or has ended. */
  lemma {:induction false} LessExact(a: seq<byte>, b: seq<byte>)
    ensures Less(a, b) <==> exists k: nat :: DiffersAt(a, b, k) && k < |b| && (k == |a| || a[k] < b[k])
  {
    if a == [] || b == [] || a[0] != b[0] {
      if Less(a, b) { assert DiffersAt(a, b, 0); }
      assert forall k: nat :: DiffersAt(a, b, k) ==> k == 0 || a[..k][0] == b[..k][0];
    } else {
      LessExact(a[1..], b[1..]);
      if Less(a, b) {
        var k: nat :| DiffersAt(a[1..], b[1..], k) && k < |b[1..]| && (k == |a[1..]| || a[1..][k] < b[1..][k]);
        assert a[..k + 1] == [a[0]] + a[1..][..k] && b[..k + 1] == [b[0]] + b[1..][..k];
        assert DiffersAt(a, b, k + 1);
      }
      if k: nat :| DiffersAt(a, b, k) && k < |b| && (k == |a| || a[k] < b[k]) {
        assert a[1..][..k - 1] == a[..k][1..] == b[..k][1..] == b[1..][..k - 1];
        assert DiffersAt(a[1..], b[1..], k - 1);
      }
    }
  }

  lemma {:induction false} LessIrreflexive(a: seq<byte>)
    ensures !Less(a, a)
  {
    if a != [] { LessIrreflexive(a[1..]); }
  }

  lemma {:induction false} LessTransitive(a: seq<byte>, b: seq<byte>, c: seq<byte>)
    requires Less(a, b) && Less(b, c)
    ensures Less(a, c)
  {
    if a != [] && a[0] == b[0] && b[0] == c[0] { LessTransitive(a[1..], b[1..], c[1..]); }
  }

  lemma {:induction false} LessTotal(a: seq<byte>, b: seq<byte>)
    ensures Less(a, b) || a == b || Less(b, a)
  {
    if a != [] && b != [] && a[0] == b[0] {
      LessTotal(a[1..], b[1..]);
      assert a[1..] == b[1..] ==> a == [a[0]] + a[1..] == b;
    }
  }
}
