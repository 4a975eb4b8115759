/** Jain's fairness index as `PrintFairness` of dctcp-example.cc computes it from byte counters, in
    64-bit arithmetic that wraps around. */
module Fairness {
  import opened Common

  const WORD := 0x1_0000_0000_0000_0000

  function Wrap(n: nat): (r: nat)
    ensures r < WORD
  {
    n % WORD
  }

  function Sum(xs: seq<nat>): nat {
    if xs == [] then 0 else Sum(xs[..|xs| - 1]) + xs[|xs| - 1]
  }

  function SumSquares(xs: seq<nat>): nat {
    if xs == [] then 0 else SumSquares(xs[..|xs| - 1]) + xs[|xs| - 1] * xs[|xs| - 1]
  }

  predicate AllEqual(xs: seq<nat>) {
    forall i, j :: 0 <= i < |xs| && 0 <= j < |xs| ==> xs[i] == xs[j]
  }

  // ----- Cauchy-Schwarz

  /** Sum of squared distances from `c`, which links the two sums. */
  function Spread(xs: seq<nat>, c: int): nat {
    if xs == [] then 0
    else Spread(xs[..|xs| - 1], c) + (xs[|xs| - 1] - c) * (xs[|xs| - 1] - c)
  }

  lemma {:induction false} SpreadFormula(xs: seq<nat>, c: int)
    ensures Spread(xs, c) == SumSquares(xs) - 2 * c * Sum(xs) + |xs| * (c * c)
    decreases |xs|
  {
    if xs != [] {
      var n := |xs| - 1;
      var x, s, q := xs[n], Sum(xs[..n]), SumSquares(xs[..n]);
      SpreadFormula(xs[..n], c);
      Expanded(x, c);
      Collected(n, c, s, q, x);
    }
  }

  lemma Expanded(x: int, c: int)
    ensures (x - c) * (x - c) == x * x - 2 * c * x + c * c
  {
  }

  lemma Collected(n: int, c: int, s: int, q: int, x: int)
    ensures q - 2 * c * s + n * (c * c) + (x * x - 2 * c * x + c * c)
         == (q + x * x) - 2 * c * (s + x) + (n + 1) * (c * c)
  {
    assert 2 * c * (s + x) == 2 * c * s + 2 * c * x;
    assert (n + 1) * (c * c) == n * (c * c) + c * c;
  }

  /** One more counter: the excess of `n * sumSquares` over the squared sum grows by its spread. */
  lemma ExcessSnoc(xs: seq<nat>, x: nat)
    ensures (|xs| + 1) * (SumSquares(xs) + x * x) - (Sum(xs) + x) * (Sum(xs) + x)
         == |xs| * SumSquares(xs) - Sum(xs) * Sum(xs) + Spread(xs, x)
  {
    SpreadFormula(xs, x);
    Excess(|xs|, SumSquares(xs), Sum(xs), x, Spread(xs, x));
  }

  lemma Excess(n: int, q: int, s: int, x: int, d: int)
    requires d == q - 2 * x * s + n * (x * x)
    ensures (n + 1) * (q + x * x) - (s + x) * (s + x) == n * q - s * s + d
  {
    assert (n + 1) * (q + x * x) == n * q + n * (x * x) + q + x * x;
    assert (s + x) * (s + x) == s * s + 2 * x * s + x * x;
  }

  lemma {:induction false} NoSpreadIff(xs: seq<nat>, c: nat)
    ensures Spread(xs, c) == 0 <==> forall i :: 0 <= i < |xs| ==> xs[i] == c
    decreases |xs|
  {
    if xs != [] {
      var n := |xs| - 1;
      NoSpreadIff(xs[..n], c);
      SquareZero(xs[n] - c);
    }
  }

  lemma SquareZero(d: int)
    ensures d * d >= 0 && (d * d == 0 <==> d == 0)
  {
    if d > 0 {
      assert d * d >= d;
    } else if d < 0 {
      assert d * d >= -d;
    }
  }

  lemma EqualSnoc(xs: seq<nat>, x: nat)
    requires xs != []
    ensures AllEqual(xs + [x]) <==> AllEqual(xs) && forall i :: 0 <= i < |xs| ==> xs[i] == x
  {
    var ys := xs + [x];
    if AllEqual(ys) {
      forall i, j | 0 <= i < |xs| && 0 <= j < |xs| ensures xs[i] == xs[j] {
        assert ys[i] == ys[j];
      }
      forall i | 0 <= i < |xs| ensures xs[i] == x {
        assert ys[i] == ys[|xs|];
      }
    }
  }

  /** The square of the sum is at most n times the sum of squares, with equality for equal counters
      and only for these. */
  lemma {:induction false} CauchySchwarz(xs: seq<nat>)
    ensures Sum(xs) * Sum(xs) <= |xs| * SumSquares(xs)
    ensures Sum(xs) * Sum(xs) == |xs| * SumSquares(xs) <==> AllEqual(xs)
    decreases |xs|
  {
    if |xs| == 1 {
      assert xs[..0] == [] && Sum(xs) == xs[0] && SumSquares(xs) == xs[0] * xs[0];
    } else if xs != [] {
      var n := |xs| - 1;
      var rest, x := xs[..n], xs[n];
      CauchySchwarz(rest);
      ExcessSnoc(rest, x);
      NoSpreadIff(rest, x);
      EqualSnoc(rest, x);
      assert xs == rest + [x];
    }
  }

  /** With no negative counters the sum of squares is at most the square of the sum. */
  lemma {:induction false} SquaresWithinSquare(xs: seq<nat>)
    ensures SumSquares(xs) <= Sum(xs) * Sum(xs)
    decreases |xs|
  {
    if xs != [] {
      var n := |xs| - 1;
      var s, x := Sum(xs[..n]), xs[n];
      SquaresWithinSquare(xs[..n]);
      assert (s + x) * (s + x) == s * s + 2 * (s * x) + x * x;
    }
  }

  lemma {:induction false} SumGrows(xs: seq<nat>, i: nat)
    requires i <= |xs|
    ensures Sum(xs[..i]) <= Sum(xs) && SumSquares(xs[..i]) <= SumSquares(xs)
    decreases |xs|
  {
    var n := |xs| - 1;
    if i <= n {
      SumGrows(xs[..n], i);
      assert xs[..n][..i] == xs[..i];
    } else {
      assert xs[..i] == xs;
    }
  }

  lemma {:induction false} SumZeroIff(xs: seq<nat>)
    ensures Sum(xs) == 0 <==> forall i :: 0 <= i < |xs| ==> xs[i] == 0
    ensures SumSquares(xs) == 0 <==> Sum(xs) == 0
    decreases |xs|
  {
    if xs != [] {
      SumZeroIff(xs[..|xs| - 1]);
      SquareZero(xs[|xs| - 1]);
    }
  }

  // ----- the computation

  /** `sum * sum / (n * sumSquares)`; none when the divisor is 0. */
  function Ratio(numerator: nat, denominator: nat): Option<real> {
    if denominator == 0 then None else Some(numerator as real / denominator as real)
  }

  /** The loop and the quotient after it, in 64-bit arithmetic. Although every step wraps around, only the
      squared sum and the divisor as a whole do. */
  method Index(counters: seq<nat>) returns (index: Option<real>, ghost exact: bool)
    requires counters != [] && forall i :: 0 <= i < |counters| ==> counters[i] < WORD
    ensures index == Ratio(Wrap(Sum(counters) * Sum(counters)), Wrap(|counters| * SumSquares(counters)))
    ensures exact <==> |counters| * SumSquares(counters) < WORD
    ensures exact ==> index == Ratio(Sum(counters) * Sum(counters), |counters| * SumSquares(counters))
  {
    var sum, sumSquares := Accumulate(counters);
    ghost var s, q := Sum(counters), SumSquares(counters);
    hide Sum, SumSquares, Wrap;
    var j := Words(s);
    Distributes(s, Wrap(s), j);
    WrapShift(s * Wrap(s), s * j);
    Distributes(Wrap(s), Wrap(s), j);
    WrapShift(Wrap(s) * Wrap(s), Wrap(s) * j);
    assert Wrap(s) * s == s * Wrap(s);
    var k := Words(q);
    Distributes(|counters|, Wrap(q), k);
    WrapShift(|counters| * Wrap(q), |counters| * k);
    exact := |counters| * q < WORD;
    index := Ratio(Wrap(sum * sum), Wrap(|counters| * sumSquares));
    if exact {
      ExactSums(counters);
    }
  }

  /** The two accumulators. */
  method Accumulate(counters: seq<nat>) returns (sum: nat, sumSquares: nat)
    ensures sum == Wrap(Sum(counters)) && sumSquares == Wrap(SumSquares(counters))
  {
    sum, sumSquares := 0, 0;
    for i := 0 to |counters|
      invariant sum == Wrap(Sum(counters[..i])) && sumSquares == Wrap(SumSquares(counters[..i]))
    {
      SumsSnoc(counters, i);
      ghost var s, q := Sum(counters[..i]), SumSquares(counters[..i]);
      hide Sum, SumSquares, Wrap;
      var x := counters[i];
      var square := x * x;
      WrapAdd(s, x);
      WrapAdd2(q, square);
      sum := Wrap(sum + x);
      sumSquares := Wrap(sumSquares + Wrap(square));
    }
    assert counters[..|counters|] == counters;
  }

  lemma SumsSnoc(xs: seq<nat>, i: nat)
    requires i < |xs|
    ensures Sum(xs[..i + 1]) == Sum(xs[..i]) + xs[i]
    ensures SumSquares(xs[..i + 1]) == SumSquares(xs[..i]) + xs[i] * xs[i]
  {
    assert xs[..i + 1][..i] == xs[..i];
  }

  lemma WrapAdd(a: nat, b: nat)
    ensures Wrap(Wrap(a) + b) == Wrap(a + b)
  {
  }

  lemma WrapAdd2(a: nat, b: nat)
    ensures Wrap(Wrap(a) + Wrap(b)) == Wrap(a + b)
  {
  }

  lemma WrapShift(x: nat, k: nat)
    ensures Wrap(x + WORD * k) == Wrap(x)
  {
  }

  /** What wrapping takes off. */
  lemma Words(m: nat) returns (k: nat)
    ensures m == Wrap(m) + WORD * k
  {
    k := m / WORD;
  }

  lemma Distributes(n: nat, r: nat, k: nat)
    ensures n * (r + WORD * k) == n * r + WORD * (n * k)
  {
  }

  lemma WrapSmall(n: nat)
    requires n < WORD
    ensures Wrap(n) == n
  {
  }

  lemma WrapFits(n: nat)
    ensures Wrap(n) == n <==> n < WORD
  {
  }

  lemma SquareBounds(s: nat)
    ensures s <= s * s
  {
  }

  lemma TimesBounds(n: nat, q: nat)
    requires n > 0
    ensures q <= n * q
  {
  }

  /** If the divisor fits, everything before it fits as well. */
  lemma ExactSums(counters: seq<nat>)
    requires counters != [] && |counters| * SumSquares(counters) < WORD
    ensures Wrap(Sum(counters)) == Sum(counters) && Wrap(SumSquares(counters)) == SumSquares(counters)
    ensures Wrap(Sum(counters) * Sum(counters)) == Sum(counters) * Sum(counters)
    ensures Wrap(|counters| * SumSquares(counters)) == |counters| * SumSquares(counters)
    ensures forall i :: 0 <= i <= |counters| ==> Sum(counters[..i]) < WORD && SumSquares(counters[..i]) < WORD
  {
    CauchySchwarz(counters);
    SquareBounds(Sum(counters));
    TimesBounds(|counters|, SumSquares(counters));
    WrapSmall(Sum(counters));
    WrapSmall(SumSquares(counters));
    WrapSmall(Sum(counters) * Sum(counters));
    WrapSmall(|counters| * SumSquares(counters));
    forall i | 0 <= i <= |counters| ensures Sum(counters[..i]) < WORD && SumSquares(counters[..i]) < WORD {
      SumGrows(counters, i);
    }
  }

  /** ... and if the divisor does not fit, it is not what the program divides by. */
  lemma ExactIff(counters: seq<nat>)
    requires counters != []
    ensures Wrap(|counters| * Wrap(SumSquares(counters))) == |counters| * SumSquares(counters)
       <==> |counters| * SumSquares(counters) < WORD
  {
    hide SumSquares, Wrap;
    var q := SumSquares(counters);
    var k := Words(q);
    Distributes(|counters|, Wrap(q), k);
    WrapShift(|counters| * Wrap(q), |counters| * k);
    WrapFits(|counters| * q);
  }

  /** Counters up to `bound` give an exact result if (n * bound)^2 fits in 64 bits. */
  lemma {:induction false} BoundedCounters(counters: seq<nat>, bound: nat)
    requires forall i :: 0 <= i < |counters| ==> counters[i] <= bound
    ensures SumSquares(counters) <= |counters| * (bound * bound)
    decreases |counters|
  {
    if counters != [] {
      var n := |counters| - 1;
      BoundedCounters(counters[..n], bound);
      SquareMonotone(counters[n], bound);
      assert (n + 1) * (bound * bound) == n * (bound * bound) + bound * bound;
    }
  }

  lemma SquareMonotone(a: nat, b: nat)
    requires a <= b
    ensures a * a <= b * b
  {
    assert a * a <= a * b <= b * b;
  }

  lemma BoundIsEnough(counters: seq<nat>, bound: nat)
    requires counters != [] && (forall i :: 0 <= i < |counters| ==> counters[i] <= bound)
    requires (|counters| * bound) * (|counters| * bound) < WORD
    ensures |counters| * SumSquares(counters) < WORD
  {
    var n, b := |counters|, bound * bound;
    BoundedCounters(counters, bound);
    assert n * SumSquares(counters) <= n * (n * b);
    assert n * (n * b) == (n * bound) * (n * bound);
  }

  /** The exact index of counters that are not all zero lies between 1/n and 1, and is 1 exactly for
      equal counters; for counters that are all zero it is undefined. */
  lemma IndexBounds(counters: seq<nat>)
    requires counters != []
    ensures var index := Ratio(Sum(counters) * Sum(counters), |counters| * SumSquares(counters));
            && (index == None <==> forall i :: 0 <= i < |counters| ==> counters[i] == 0)
            && (index.Some? ==> 1.0 / |counters| as real <= index.value <= 1.0)
            && (index.Some? ==> (index.value == 1.0 <==> AllEqual(counters)))
  {
    var n, s, q := |counters|, Sum(counters), SumSquares(counters);
    SumZeroIff(counters);
    CauchySchwarz(counters);
    SquaresWithinSquare(counters);
    hide Sum, SumSquares, AllEqual;
    if q > 0 {
      assert n * q > 0;
      Fraction(s * s, n * q);
      LowerFraction(s * s, n, q);
    } else {
      assert n * q == 0;
    }
  }

  lemma Fraction(a: nat, b: nat)
    requires 0 < b && a <= b
    ensures a as real / b as real <= 1.0
    ensures a as real / b as real == 1.0 <==> a == b
  {
  }

  lemma LowerFraction(a: nat, n: nat, q: nat)
    requires 0 < n && 0 < q && q <= a
    ensures n * q > 0 && 1.0 / n as real <= a as real / (n * q) as real
  {
    var rn, rq, ra := n as real, q as real, a as real;
    assert (n * q) as real == rn * rq;
    Cross(rn, rq, ra);
  }

  lemma Cross(rn: real, rq: real, ra: real)
    requires rn > 0.0 && rq > 0.0 && rq <= ra
    ensures rn * rq > 0.0 && 1.0 / rn <= ra / (rn * rq)
  {
    var x := ra / (rn * rq);
    assert x * (rn * rq) == ra;
    var y := 1.0 / rn;
    assert y * rn == 1.0;
    assert y * (rn * rq) == rq;
    Cancel(y, x, rn * rq);
  }

  lemma Cancel(y: real, x: real, c: real)
    requires c > 0.0 && y * c <= x * c
    ensures y <= x
  {
  }

  // ----- when the divisor does not fit

  /** Equal counters still give 1, unless the divisor wraps around to 0 and the quotient is undefined. */
  lemma EqualCountersIndex(counters: seq<nat>)
    requires counters != [] && AllEqual(counters)
    ensures var index := Ratio(Wrap(Sum(counters) * Sum(counters)), Wrap(|counters| * SumSquares(counters)));
            && (index == None <==> Wrap(Sum(counters) * Sum(counters)) == 0)
            && (index.Some? ==> index.value == 1.0)
  {
    CauchySchwarz(counters);
    hide Sum, SumSquares, Wrap, AllEqual;
    var d := Wrap(|counters| * SumSquares(counters));
    if d > 0 {
      Fraction(d, d);
    }
  }

  lemma {:induction false} EqualSum(xs: seq<nat>, c: nat)
    requires forall i :: 0 <= i < |xs| ==> xs[i] == c
    ensures Sum(xs) == |xs| * c
    decreases |xs|
  {
    if xs != [] {
      EqualSum(xs[..|xs| - 1], c);
      assert |xs| * c == (|xs| - 1) * c + c;
    }
  }

  /** Ten flows that received 4 GiB each: their index is 1, but the program divides 0 by 0. */
  lemma EqualFlowsUndefined() returns (counters: seq<nat>)
    ensures |counters| == 10 && forall i :: 0 <= i < 10 ==> counters[i] == 0x1_0000_0000
    ensures Ratio(Sum(counters) * Sum(counters), 10 * SumSquares(counters)) == Some(1.0)
    ensures Ratio(Wrap(Sum(counters) * Sum(counters)), Wrap(10 * SumSquares(counters))) == None
  {
    counters := seq(10, _ => 0x1_0000_0000);
    EqualSum(counters, 0x1_0000_0000);
    CauchySchwarz(counters);
    hide Sum, SumSquares;
    assert Sum(counters) * Sum(counters) == 100 * WORD;
    Fraction(100 * WORD, 100 * WORD);
  }

  lemma {:induction false} ZerosSum(n: nat)
    ensures Sum(seq(n, _ => 0)) == 0 == SumSquares(seq(n, _ => 0))
    decreases n
  {
    if n > 0 {
      ZerosSum(n - 1);
      assert seq(n, _ => 0)[..n - 1] == seq(n - 1, _ => 0);
    }
  }

  lemma SumAppend(xs: seq<nat>, x: nat)
    ensures Sum(xs + [x]) == Sum(xs) + x && SumSquares(xs + [x]) == SumSquares(xs) + x * x
  {
    assert (xs + [x])[..|xs|] == xs;
  }

  /** Ten flows of which one received 4 GiB and one a single byte: no index is above 1, but the quotient of
      the wrapped values is. */
  lemma UnequalFlowsAboveOne() returns (counters: seq<nat>)
    ensures |counters| == 10 && counters[8] == 0x1_0000_0000 && counters[9] == 1
    ensures Ratio(Wrap(Sum(counters) * Sum(counters)), Wrap(10 * SumSquares(counters))) == Some(858993459.3)
  {
    var zeros := seq(8, _ => 0);
    ZerosSum(8);
    var more := zeros + [0x1_0000_0000];
    counters := more + [1];
    SumAppend(zeros, 0x1_0000_0000);
    SumAppend(more, 1);
    hide Sum, SumSquares;
    assert Sum(counters) == 0x1_0000_0001 && SumSquares(counters) == WORD + 1;
    assert Sum(counters) * Sum(counters) == WORD + 8589934593;
    assert 10 * SumSquares(counters) == 10 * WORD + 10;
    WrapShift(8589934593, 1);
    WrapShift(10, 10);
    assert 8589934593.0 / 10.0 == 858993459.3;
  }

  // ----- the counters

  class Throughput {
    const rxS1R1Bytes: array<nat>
    const rxS2R2Bytes: array<nat>
    const rxS3R1Bytes: array<nat>

    constructor ()
      ensures rxS1R1Bytes.Length == 10 && rxS2R2Bytes.Length == 20 && rxS3R1Bytes.Length == 10
      ensures fresh(rxS1R1Bytes) && fresh(rxS2R2Bytes) && fresh(rxS3R1Bytes)
    {
      rxS1R1Bytes := new nat[10];
      rxS2R2Bytes := new nat[20];
      rxS3R1Bytes := new nat[10];
    }

    /** The three trace sinks: the counter of one flow grows by the size of a packet. */
    static method TraceSink(counters: array<nat>, index: nat, size: nat)
      requires index < counters.Length
      modifies counters
      ensures counters[..] == old(counters[..])[index := Wrap(old(counters[index]) + size)]
    {
      counters[index] := Wrap(counters[index] + size);
    }

    static method ClearCounters(counters: array<nat>)
      modifies counters
      ensures forall i :: 0 <= i < counters.Length ==> counters[i] == 0
    {
      for i := 0 to counters.Length
        invariant forall k :: 0 <= k < i ==> counters[k] == 0
      {
        counters[i] := 0;
      }
    }

    /** Between two printouts: the counters are cleared, and then count bytes modulo 2^64 for each flow. */
    static method Count(counters: array<nat>, packets: seq<Packet>)
      requires forall i :: 0 <= i < |packets| ==> packets[i].flow < counters.Length
      modifies counters
      ensures forall f :: 0 <= f < counters.Length ==> counters[f] == Wrap(Bytes(packets, f))
    {
      ClearCounters(counters);
      assert packets[..0] == [];
      for i := 0 to |packets|
        invariant forall f :: 0 <= f < counters.Length ==> counters[f] == Wrap(Bytes(packets[..i], f))
      {
        ghost var before := counters[..];
        var p := packets[i];
        TraceSink(counters, p.flow, p.size);
        forall f | 0 <= f < counters.Length ensures counters[..][f] == Wrap(Bytes(packets[..i + 1], f)) {
          assert before[f] == Wrap(Bytes(packets[..i], f));
          BytesSnoc(packets, i, f);
        }
      }
      assert packets[..|packets|] == packets;
    }

    /** The index of one group of flows. While n times the sum of squares fits in 64 bits it is Jain's
        index. */
    static method GroupFairness(counters: array<nat>) returns (index: Option<real>)
      requires counters.Length > 0 && forall i :: 0 <= i < counters.Length ==> counters[i] < WORD
      ensures index == Ratio(Wrap(Sum(counters[..]) * Sum(counters[..])), Wrap(counters.Length * SumSquares(counters[..])))
      ensures counters.Length * SumSquares(counters[..]) < WORD ==>
                && (index == None <==> forall i :: 0 <= i < counters.Length ==> counters[i] == 0)
                && (index.Some? ==> 1.0 / counters.Length as real <= index.value <= 1.0)
                && (index.Some? ==> (index.value == 1.0 <==> AllEqual(counters[..])))
    {
      ghost var exact;
      hide Sum, SumSquares, AllEqual, Wrap;
      index, exact := Index(counters[..]);
      IndexBounds(counters[..]);
      assert (forall i :: 0 <= i < counters.Length ==> counters[i] == 0) <==>
             (forall i :: 0 <= i < |counters[..]| ==> counters[..][i] == 0);
    }

    /** One window: what is printed is the index of the bytes that the flows received, if every flow
        received at most `bound` bytes and (n * bound)^2 fits in 64 bits. */
    static method Window(counters: array<nat>, packets: seq<Packet>, ghost bound: nat) returns (index: Option<real>)
      requires counters.Length > 0 && forall i :: 0 <= i < |packets| ==> packets[i].flow < counters.Length
      requires forall f :: 0 <= f < counters.Length ==> Bytes(packets, f) <= bound
      requires (counters.Length * bound) * (counters.Length * bound) < WORD
      modifies counters
      ensures var totals := Totals(packets, counters.Length);
              index == Ratio(Sum(totals) * Sum(totals), counters.Length * SumSquares(totals))
    {
      ghost var n := counters.Length;
      ghost var totals := Totals(packets, n);
      BoundFits(n, bound);
      hide Bytes, Sum, SumSquares;
      Count(counters, packets);
      assert forall f :: 0 <= f < n ==> totals[f] == Bytes(packets, f);
      assert counters[..] == totals;
      BoundIsEnough(totals, bound);
      ghost var exact;
      index, exact := Index(counters[..]);
    }
  }

  /** What a trace sink sees of a packet. */
  datatype Packet = Packet(flow: nat, size: nat)

  /** The bytes that flow `f` received. */
  function Bytes(packets: seq<Packet>, f: nat): nat {
    if packets == [] then 0
    else
      var p := packets[|packets| - 1];
      Bytes(packets[..|packets| - 1], f) + if p.flow == f then p.size else 0
  }

  function Totals(packets: seq<Packet>, flows: nat): seq<nat> {
    seq(flows, f requires 0 <= f < flows => Bytes(packets, f))
  }

  /** One packet more, counted modulo 2^64. */
  lemma BytesSnoc(packets: seq<Packet>, i: nat, f: nat)
    requires i < |packets|
    ensures Wrap(Bytes(packets[..i + 1], f))
         == if packets[i].flow == f then Wrap(Wrap(Bytes(packets[..i], f)) + packets[i].size)
            else Wrap(Bytes(packets[..i], f))
  {
    assert packets[..i + 1][..i] == packets[..i];
    WrapAdd(Bytes(packets[..i], f), packets[i].size);
  }

  lemma BoundFits(n: nat, bound: nat)
    requires n > 0 && (n * bound) * (n * bound) < WORD
    ensures bound < WORD
  {
    TimesBounds(n, bound);
    SquareBounds(n * bound);
  }
}
