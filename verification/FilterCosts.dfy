/** How the adaptive filter strategies weigh a filtered row (lodepng.c:5105-5112, 5185-5201, 5239-5249). */
module FilterCosts {
  import opened Bits

  // ---- Minimum sum ----

  /** The sum of the bytes, as signed differences except for type 0. */
  function RowCost(row: seq<Byte>, filterType: nat): nat {
    if row == [] then 0
    else
      var s := row[|row| - 1];
      RowCost(row[..|row| - 1], filterType) + if filterType == 0 || s < 128 then s else 255 - s
  }

  /** The byte as a signed difference. */
  function Signed(s: Byte): int { if s <= 127 then s else s as int - 256 }

  function PlainSum(row: seq<Byte>, n: nat): nat
    requires n <= |row|
  {
    if n == 0 then 0 else PlainSum(row, n - 1) + row[n - 1]
  }

  function DistanceSum(row: seq<Byte>, n: nat): nat
    requires n <= |row|
  {
    if n == 0 then 0 else DistanceSum(row, n - 1) + if Signed(row[n - 1]) < 0 then -Signed(row[n - 1]) else Signed(row[n - 1])
  }

  function NegativeCount(row: seq<Byte>, n: nat): nat
    requires n <= |row|
  {
    if n == 0 then 0 else NegativeCount(row, n - 1) + if Signed(row[n - 1]) < 0 then 1 else 0
  }

  /** For type 0 the sum of the bytes; else the sum of the absolute differences, less one for every negative one. */
  lemma {:induction false} CostIsDistance(row: seq<Byte>, t: nat, n: nat)
    requires n <= |row|
    ensures t == 0 ==> RowCost(row[..n], t) == PlainSum(row, n)
    ensures t != 0 ==> RowCost(row[..n], t) == DistanceSum(row, n) - NegativeCount(row, n)
  {
    if n > 0 {
      CostIsDistance(row, t, n - 1);
      assert row[..n][..n - 1] == row[..n - 1];
    }
  }

  method SumCost(attempt: seq<Byte>, t: Byte) returns (sum: nat)
    ensures sum == RowCost(attempt, t)
    ensures t == 0 ==> sum == PlainSum(attempt, |attempt|)
    ensures t != 0 ==> sum == DistanceSum(attempt, |attempt|) - NegativeCount(attempt, |attempt|)
  {
    CostIsDistance(attempt, t, |attempt|);
    sum := 0;
    for x := 0 to |attempt|
      invariant sum == RowCost(attempt[..x], t)
    {
      assert attempt[..x + 1][..x] == attempt[..x];
      var s := attempt[x];
      sum := sum + if t == 0 || s < 128 then s else 255 - s;
    }
    assert attempt[..|attempt|] == attempt;
  }

  // ---- Entropy, in exact arithmetic ----

  /** The approximation of the binary logarithm: a polynomial on the numbers up to 2. */
  function FLog2(f: real): real
    decreases f
  {
    if f > 32.0 then 4.0 + FLog2(f / 16.0)
    else if f > 2.0 then 1.0 + FLog2(f / 2.0)
    else 1.442695 * (f * f * f / 3.0 - 3.0 * f * f / 2.0 + 3.0 * f - 1.83333)
  }

  /** Doubling adds one, the approximation is nearly zero at 1, and it rises. */
  lemma LogShape(f: real, g: real)
    requires 0.0 < f <= g <= 2.0
    ensures FLog2(f) <= FLog2(g) && 0.0 <= FLog2(1.0) <= 0.00001
    ensures 1.0 < f ==> FLog2(2.0 * f) == 1.0 + FLog2(f) && FLog2(16.0 * f) == 4.0 + FLog2(f)
  {
    hide FLog2;
    LogRises(f, g);
    LogNearOne();
    if 1.0 < f {
      LogStep(16.0 * f);
      LogStep(8.0 * f);
      LogStep(4.0 * f);
      LogStep(2.0 * f);
      assert 16.0 * f / 2.0 == 8.0 * f && 8.0 * f / 2.0 == 4.0 * f && 4.0 * f / 2.0 == 2.0 * f && 2.0 * f / 2.0 == f;
    }
  }

  lemma LogStep(f: real)
    requires 2.0 < f <= 32.0
    ensures FLog2(f) == 1.0 + FLog2(f / 2.0)
  {
  }

  lemma LogNearOne()
    ensures 0.0 <= FLog2(1.0) <= 0.00001
  {
  }

  lemma LogRises(f: real, g: real)
    requires 0.0 < f <= g <= 2.0
    ensures FLog2(f) <= FLog2(g)
  {
    var d, e := g - f, f * f - 3.0 * f + 3.0;
    var p := e + d * f - 1.5 * d + d * d / 3.0;
    assert g * g * g / 3.0 - 3.0 * g * g / 2.0 + 3.0 * g == f * f * f / 3.0 - 3.0 * f * f / 2.0 + 3.0 * f + d * p;
    assert p == 3.0 / 4.0 + (f + d / 2.0 - 1.5) * (f + d / 2.0 - 1.5) + d * d / 12.0;
    Square(f + d / 2.0 - 1.5);
    Square(d);
    assert d * p >= 0.0;
  }

  lemma Square(x: real)
    ensures x * x >= 0.0
  {
    if x < 0.0 { assert x * x == (-x) * (-x); }
  }

  method ComputeFLog2(f: real) returns (result: real)
    ensures result == FLog2(f)
  {
    result := 0.0;
    var g := f;
    while g > 32.0
      invariant result + FLog2(g) == FLog2(f)
      decreases g
    {
      result := result + 4.0;
      g := g / 16.0;
    }
    while g > 2.0
      invariant g <= 32.0 && result + FLog2(g) == FLog2(f)
      decreases g
    {
      result := result + 1.0;
      g := g / 2.0;
    }
    result := result + 1.442695 * (g * g * g / 3.0 - 3.0 * g * g / 2.0 + 3.0 * g - 1.83333);
  }

  /** What a byte that occurs c times out of n adds to the entropy. */
  function Share(c: nat, n: nat): real
    requires c <= n
  {
    if c == 0 then 0.0 else FLog2(1.0 / (c as real / n as real)) * (c as real / n as real)
  }

  /** The entropy of a row and its filter type, over the bytes below x. */
  function EntropyBelow(row: seq<Byte>, t: Byte, x: nat): real
    requires x <= 256
  {
    if x == 0 then 0.0
    else
      CountAtMost(row + [t], x - 1);
      EntropyBelow(row, t, x - 1) + Share(multiset(row + [t])[x - 1], |row| + 1)
  }

  lemma CountAtMost(row: seq<Byte>, b: Byte)
    ensures multiset(row)[b] <= |row|
  {
    assert |multiset(row)| == |row|;
  }

  /** The histogram of a row and its filter type. */
  method CountBytes(attempt: seq<Byte>, t: Byte) returns (histogram: seq<nat>)
    ensures |histogram| == 256 && forall b: Byte :: histogram[b] == multiset(attempt + [t])[b]
  {
    var count := new nat[256](_ => 0);
    for x := 0 to |attempt|
      invariant forall b: Byte :: count[b] == multiset(attempt[..x])[b]
    {
      assert attempt[..x + 1] == attempt[..x] + [attempt[x]];
      count[attempt[x]] := count[attempt[x]] + 1;
    }
    assert attempt[..|attempt|] == attempt;
    count[t] := count[t] + 1;
    histogram := count[..];
  }

  method EntropyCost(attempt: seq<Byte>, t: Byte) returns (sum: real)
    ensures sum == EntropyBelow(attempt, t, 256)
  {
    hide FLog2, Share;
    var count := CountBytes(attempt, t);
    sum := 0.0;
    for x := 0 to 256
      invariant sum == EntropyBelow(attempt, t, x)
    {
      CountAtMost(attempt + [t], x);
      var share := ComputeShare(count[x], |attempt| + 1);
      sum := sum + share;
    }
  }

  method ComputeShare(c: nat, n: nat) returns (share: real)
    requires c <= n && n > 0
    ensures share == Share(c, n)
  {
    hide FLog2;
    var p := c as real / n as real;
    share := 0.0;
    if c != 0 {
      var log := ComputeFLog2(1.0 / p);
      share := log * p;
    }
  }

  // ---- The choice ----

  datatype FilterStrategy = Zero | MinSum | Entropy | BruteForce | Predefined | UnknownStrategy

  function AttemptCost(strategy: FilterStrategy, row: seq<Byte>, t: Byte): real {
    if strategy == Entropy then EntropyBelow(row, t, 256) else RowCost(row, t) as real
  }

  method Measure(strategy: FilterStrategy, attempt: seq<Byte>, t: Byte) returns (cost: real)
    ensures cost == AttemptCost(strategy, attempt, t)
  {
    if strategy == Entropy {
      cost := EntropyCost(attempt, t);
    } else {
      var sum := SumCost(attempt, t);
      cost := sum as real;
    }
  }
}
