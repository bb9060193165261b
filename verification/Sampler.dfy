/** The rejection sampler `sample_uniform_below`. */
module Sampler {
  import opened Bytes

  /** `span.wrapping_neg() % span` on 64 bits. */
  function Threshold(span: nat): nat
    requires 0 < span < U64_LIMIT
  {
    ((U64_LIMIT - span) % U64_LIMIT) % span
  }

  lemma ThresholdIsRemainder(span: nat)
    requires 0 < span < U64_LIMIT
    ensures Threshold(span) == U64_LIMIT % span
  {
    ShiftMod(U64_LIMIT - span, span);
  }

  lemma ShiftMod(a: nat, m: nat)
    requires m > 0
    ensures (a + m) % m == a % m
  {
    var q, r := a / m, a % m;
    assert a == q * m + r;
    assert a + m == (q + 1) * m + r by { Distribute(q, m); }
    RemainderOf(q + 1, r, m);
  }

  lemma Distribute(q: nat, m: nat)
    ensures (q + 1) * m == q * m + m
  {
  }

  lemma RemainderOf(q: nat, r: nat, m: nat)
    requires r < m
    ensures (q * m + r) % m == r
  {
    var x := q * m + r;
    var k, s := x / m, x % m;
    assert x == k * m + s;
    if k < q {
      MulLess(k, q, m);
    } else if k > q {
      MulLess(q, k, m);
    }
  }

  lemma {:induction false} MulLess(a: nat, b: nat, m: nat)
    requires a < b
    ensures a * m + m <= b * m
    decreases b
  {
    Distribute(b - 1, m);
    if a < b - 1 { MulLess(a, b - 1, m); }
  }

  /** Fewer than half of all 64-bit values are rejected. */
  lemma FewRejected(span: nat)
    requires 0 < span < U64_LIMIT
    ensures 2 * Threshold(span) < U64_LIMIT
  {
    ThresholdIsRemainder(span);
    var q, t := U64_LIMIT / span, U64_LIMIT % span;
    assert U64_LIMIT == q * span + t;
    if q > 0 { MulLess(0, q, span); }
  }

  // ------------------------------------------------------------ uniformity

  /** The accepted values that sample to `r`. */
  ghost function Preimage(span: nat, r: nat): set<nat>
    requires 0 < span < U64_LIMIT
  {
    set v: nat | Threshold(span) <= v < U64_LIMIT && v % span == r
  }

  /** The values of residue `r` in `n` blocks of `span` from `t`. */
  ghost function Blocks(t: nat, span: nat, n: nat, r: nat): set<nat>
    requires span > 0
  {
    set v: nat | t <= v < t + n * span && v % span == r
  }

  lemma Congruent(a: nat, b: nat, m: nat)
    requires m > 0 && a % m == b % m && a <= b < a + m
    ensures a == b
  {
    var i, j := a / m, b / m;
    assert a == i * m + a % m && b == j * m + b % m;
    if i < j { MulLess(i, j, m); }
  }

  /** Every block holds one value of each residue. */
  lemma InBlock(base: nat, span: nat, r: nat) returns (v: nat)
    requires r < span
    ensures base <= v < base + span && v % span == r
  {
    var q, s := base / span, base % span;
    assert base == q * span + s;
    if s <= r {
      v := q * span + r;
      RemainderOf(q, r, span);
    } else {
      v := (q + 1) * span + r;
      RemainderOf(q + 1, r, span);
      Distribute(q, span);
    }
  }

  lemma {:induction false} BlocksCount(t: nat, span: nat, n: nat, r: nat)
    requires r < span
    ensures |Blocks(t, span, n, r)| == n
    decreases n
  {
    if n == 0 {
      assert Blocks(t, span, n, r) == {};
    } else {
      BlocksCount(t, span, n - 1, r);
      Distribute(n - 1, span);
      var base := t + (n - 1) * span;
      var v := InBlock(base, span, r);
      forall w | w in Blocks(t, span, n, r) ensures w == v || w in Blocks(t, span, n - 1, r) {
        if w >= base {
          if w <= v { Congruent(w, v, span); } else { Congruent(v, w, span); }
        }
      }
      assert Blocks(t, span, n, r) == Blocks(t, span, n - 1, r) + {v};
    }
  }

  /** Each residue below the span has exactly `2^64 / span` accepted values. */
  lemma UniformPreimages(span: nat, r: nat)
    requires 0 < span < U64_LIMIT && r < span
    ensures |Preimage(span, r)| == U64_LIMIT / span
  {
    ThresholdIsRemainder(span);
    var q, t := U64_LIMIT / span, Threshold(span);
    assert U64_LIMIT == q * span + t;
    BlocksCount(t, span, q, r);
    assert Preimage(span, r) == Blocks(t, span, q, r);
  }

  /** Draw until a value reaches the threshold. `enough` witnesses that the
      source eventually supplies one. */
  method SampleUniformBelow(span: nat, next: nat -> u64, ghost enough: nat) returns (result: nat, draws: nat)
    requires 0 < span < U64_LIMIT && next(enough) >= Threshold(span)
    ensures draws > 0 && result == next(draws - 1) % span < span
    ensures next(draws - 1) in Preimage(span, result)
    ensures forall i :: 0 <= i < draws - 1 ==> next(i) < Threshold(span)
  {
    var threshold := Threshold(span);
    draws := 0;
    while true
      invariant draws <= enough
      invariant forall i :: 0 <= i < draws ==> next(i) < threshold
      decreases enough - draws
    {
      var value := next(draws);
      draws := draws + 1;
      if value >= threshold { return value % span, draws; }
    }
  }
}
