/** No code whose lengths keep within the limit costs less than the one that package-merge makes (lodepng.c:738-855). */
module PackageMinimum {
  import opened Bits
  import opened Canonical
  import opened Coins

  // ---- The lightest coins of a row ----

  ghost function TotalWeight(freq: seq<nat>, coins: seq<CoinTree>): nat {
    if coins == [] then 0 else TotalWeight(freq, coins[..|coins| - 1]) + Weight(freq, coins[|coins| - 1])
  }

  lemma PushWeight(freq: seq<nat>, coins: seq<CoinTree>, x: CoinTree)
    ensures TotalWeight(freq, coins + [x]) == TotalWeight(freq, coins) + Weight(freq, x)
  {
    assert (coins + [x])[..|coins|] == coins;
  }

  lemma {:induction false} JoinWeight(freq: seq<nat>, a: seq<CoinTree>, b: seq<CoinTree>)
    ensures TotalWeight(freq, a + b) == TotalWeight(freq, a) + TotalWeight(freq, b)
    decreases |b|
  {
    if b == [] {
      assert a + b == a;
    } else {
      var front, x := b[..|b| - 1], b[|b| - 1];
      assert a + b == a + front + [x] && b == front + [x];
      JoinWeight(freq, a, front);
      PushWeight(freq, a + front, x);
    }
  }

  lemma {:induction false} PrefixWeight(freq: seq<nat>, coins: seq<CoinTree>, a: nat, b: nat)
    requires a <= b <= |coins|
    ensures TotalWeight(freq, coins[..a]) <= TotalWeight(freq, coins[..b])
  {
    assert coins[..b] == coins[..a] + coins[a..b];
    JoinWeight(freq, coins[..a], coins[a..b]);
  }

  /** A coin less on both sides. */
  lemma WithoutLastCoin(row: seq<CoinTree>, sub: seq<CoinTree>) returns (less: seq<CoinTree>, i: nat)
    requires row != [] && multiset(sub) <= multiset(row) && row[|row| - 1] in sub
    ensures i < |sub| && sub[i] == row[|row| - 1] && less == sub[..i] + sub[i + 1..]
    ensures multiset(less) <= multiset(row[..|row| - 1])
  {
    var x := row[|row| - 1];
    i :| i < |sub| && sub[i] == x;
    less := sub[..i] + sub[i + 1..];
    assert row == row[..|row| - 1] + [x] && sub == sub[..i] + [x] + sub[i + 1..];
    OneLess(multiset(less), multiset(row[..|row| - 1]), x);
  }

  lemma OneLess(a: multiset<CoinTree>, b: multiset<CoinTree>, x: CoinTree)
    requires a + multiset{x} <= b + multiset{x}
    ensures a <= b
  {
    forall t ensures a[t] <= b[t] { assert (a + multiset{x})[t] <= (b + multiset{x})[t]; }
  }

  lemma StillWithin(row: seq<CoinTree>, sub: seq<CoinTree>)
    requires row != [] && multiset(sub) <= multiset(row) && row[|row| - 1] !in sub
    ensures multiset(sub) <= multiset(row[..|row| - 1])
  {
    var front, x := row[..|row| - 1], row[|row| - 1];
    assert row == front + [x];
    forall t ensures multiset(sub)[t] <= multiset(front)[t] {
      if t == x { assert x !in multiset(sub); }
    }
  }

  lemma RemovedWeight(freq: seq<nat>, coins: seq<CoinTree>, i: nat)
    requires i < |coins|
    ensures TotalWeight(freq, coins) == TotalWeight(freq, coins[..i] + coins[i + 1..]) + Weight(freq, coins[i])
  {
    hide TotalWeight, Weight;
    assert coins == coins[..i] + [coins[i]] + coins[i + 1..];
    JoinWeight(freq, coins[..i], coins[i + 1..]);
    PushWeight(freq, coins[..i], coins[i]);
    JoinWeight(freq, coins[..i] + [coins[i]], coins[i + 1..]);
  }

  /** Of all choices of so many coins of a sorted row, the first ones are the lightest. */
  lemma {:induction false} FirstAreLightest(freq: seq<nat>, row: seq<CoinTree>, sub: seq<CoinTree>)
    requires Ascending(freq, row) && multiset(sub) <= multiset(row)
    ensures |sub| <= |row| && TotalWeight(freq, row[..|sub|]) <= TotalWeight(freq, sub)
    decreases |row|
  {
    hide Weight, TotalWeight;
    if row == [] {
      assert |multiset(sub)| <= |multiset(row)|;
      assert sub == [];
    } else {
      var n := |row| - 1;
      var front, x := row[..n], row[n];
      if x in sub {
        var less, i := WithoutLastCoin(row, sub);
        FirstAreLightest(freq, front, less);
        RemovedWeight(freq, sub, i);
        var k := |less|;
        assert row[..|sub|] == row[..k] + [row[k]] && row[..k] == front[..k];
        PushWeight(freq, row[..k], row[k]);
        assert Weight(freq, row[k]) <= Weight(freq, x);
      } else {
        StillWithin(row, sub);
        FirstAreLightest(freq, front, sub);
        assert row[..|sub|] == front[..|sub|];
      }
    }
  }

  /** The first pairs weigh what the coins in them weigh. */
  lemma {:induction false} PairsWeight(freq: seq<nat>, row: seq<CoinTree>, k: nat)
    requires 2 * k <= |row|
    ensures k <= |Merge(row)| && TotalWeight(freq, Merge(row)[..k]) == TotalWeight(freq, row[..2 * k])
  {
    hide Merge;
    MergeSize(row);
    if k > 0 {
      PairsWeight(freq, row, k - 1);
      MergeAt(row, k - 1);
      var a, b := row[2 * k - 2], row[2 * k - 1];
      assert row[..2 * k] == row[..2 * k - 2] + [a] + [b];
      assert Merge(row)[..k] == Merge(row)[..k - 1] + [Pair(a, b)];
      PushWeight(freq, Merge(row)[..k - 1], Pair(a, b));
      PushWeight(freq, row[..2 * k - 2], a);
      PushWeight(freq, row[..2 * k - 2] + [a], b);
    }
  }

  // ---- The coins of another code ----

  /** A single coin for each symbol below n that occurs and has a code of at least d bits. */
  ghost function Deep(freq: seq<nat>, other: seq<nat>, d: nat, n: nat): seq<CoinTree>
    requires n <= |freq| == |other|
  {
    if n == 0 then []
    else Deep(freq, other, d, n - 1) + (if freq[n - 1] > 0 && other[n - 1] >= d then [One(n - 1)] else [])
  }

  lemma {:induction false} DeepAreSingles(freq: seq<nat>, other: seq<nat>, d: nat, n: nat)
    requires n <= |freq| == |other|
    ensures multiset(Deep(freq, other, d, n)) <= multiset(Singles(freq, n))
  {
    if n > 0 {
      DeepAreSingles(freq, other, d, n - 1);
      MoreWithin(Deep(freq, other, d, n - 1), Singles(freq, n - 1), One(n - 1), freq[n - 1] > 0 && other[n - 1] >= d, freq[n - 1] > 0);
    }
  }

  lemma MoreWithin(a: seq<CoinTree>, b: seq<CoinTree>, x: CoinTree, left: bool, right: bool)
    requires multiset(a) <= multiset(b) && (left ==> right)
    ensures multiset(a + if left then [x] else []) <= multiset(b + if right then [x] else [])
  {
    var c, d := if left then [x] else [], if right then [x] else [];
    forall t ensures multiset(a + c)[t] <= multiset(b + d)[t] {
      assert multiset(a + c) == multiset(a) + multiset(c) && multiset(b + d) == multiset(b) + multiset(d);
    }
  }

  /** How many coins of row j those of the code in rows 0 to j come to, if pairs are merged and odd coins dropped. */
  ghost function Packages(freq: seq<nat>, other: seq<nat>, m: nat, j: nat): nat
    requires |freq| == |other| && j < m
  {
    |Deep(freq, other, m - j, |freq|)| + if j == 0 then 0 else Packages(freq, other, m, j - 1) / 2
  }

  /** What the coins in rows 0 to j weigh, for the symbols below n. */
  ghost function DeepWeight(freq: seq<nat>, other: seq<nat>, m: nat, j: nat, n: nat): nat
    requires n <= |freq| == |other| && j < m
  {
    TotalWeight(freq, Deep(freq, other, m - j, n)) + if j == 0 then 0 else DeepWeight(freq, other, m, j - 1, n)
  }

  /** And what they are worth, if a coin of row i is worth 2^i. */
  ghost function DeepWorth(freq: seq<nat>, other: seq<nat>, m: nat, j: nat, n: nat): nat
    requires n <= |freq| == |other| && j < m
  {
    |Deep(freq, other, m - j, n)| * Pow2(j) + if j == 0 then 0 else DeepWorth(freq, other, m, j - 1, n)
  }

  /** The main step, up the rows: the lightest coins of row j weigh no more than as many coins made from those of the code. */
  lemma {:induction false} NoLighterChoice(freq: seq<nat>, rows: seq<seq<CoinTree>>, other: seq<nat>, j: nat)
    requires Rows(freq, rows) && |freq| == |other| && j < |rows|
    ensures
      var p := Packages(freq, other, |rows|, j);
      p <= |rows[j]| && TotalWeight(freq, rows[j][..p]) <= DeepWeight(freq, other, |rows|, j, |freq|)
  {
    hide Deep, Singles, Merge, TotalWeight, Ascending, Rows;
    var singles := Deep(freq, other, |rows| - j, |freq|);
    DeepAreSingles(freq, other, |rows| - j, |freq|);
    RowOf(freq, rows, j);
    if j == 0 {
      FirstAreLightest(freq, rows[0], singles);
    } else {
      NoLighterChoice(freq, rows, other, j - 1);
      var p := Packages(freq, other, |rows|, j - 1);
      var prev, row := rows[j - 1], rows[j];
      PairsWeight(freq, prev, p / 2);
      PrefixWeight(freq, prev, 2 * (p / 2), p);
      var pairs := Merge(prev)[..p / 2];
      assert Merge(prev) == pairs + Merge(prev)[p / 2..];
      FirstAreLightest(freq, row, pairs + singles);
      JoinWeight(freq, pairs, singles);
    }
  }

  lemma RowOf(freq: seq<nat>, rows: seq<seq<CoinTree>>, j: nat)
    requires Rows(freq, rows) && j < |rows|
    ensures Ascending(freq, rows[j])
    ensures j == 0 ==> multiset(rows[0]) == multiset(Singles(freq, |freq|))
    ensures j > 0 ==> multiset(rows[j]) == multiset(Merge(rows[j - 1])) + multiset(Singles(freq, |freq|))
  {
    assert Row(freq, rows[j]);
    if j > 0 { assert Follows(freq, rows[j - 1], rows[j], false); }
  }

  /** Dropping odd coins loses less than one coin of the last row. */
  lemma {:induction false} FewDropped(freq: seq<nat>, other: seq<nat>, m: nat, j: nat)
    requires |freq| == |other| && j < m
    ensures DeepWorth(freq, other, m, j, |freq|) < (Packages(freq, other, m, j) + 1) * Pow2(j)
  {
    hide Deep;
    var d := |Deep(freq, other, m - j, |freq|)|;
    if j > 0 {
      FewDropped(freq, other, m, j - 1);
      var p := Packages(freq, other, m, j - 1);
      HalfDropped(p, d, Pow2(j - 1));
    }
  }

  lemma HalfDropped(p: nat, d: nat, w: nat)
    ensures (p + 1) * w + d * (2 * w) <= (d + p / 2 + 1) * (2 * w)
  {
    var h := p / 2;
    assert (p + 1) * w <= (2 * h + 2) * w;
    assert (d + h + 1) * (2 * w) == d * (2 * w) + (2 * h + 2) * w;
  }

  // ---- What a code is worth and what it costs ----

  /** The coins of a symbol with a code of c bits in rows 0 to j. */
  function CoinsOf(m: nat, c: nat, j: nat): nat
    requires j < m
  {
    if c + j >= m then c + j + 1 - m else 0
  }

  /** Whether symbol n - 1 has a coin of at least d bits. */
  lemma DeepStep(freq: seq<nat>, other: seq<nat>, d: nat, n: nat)
    requires 0 < n <= |freq| == |other|
    ensures
      var more := other[n - 1] >= d;
      && |Deep(freq, other, d, n)| == |Deep(freq, other, d, n - 1)| + B2N(freq[n - 1] > 0 && more)
      && TotalWeight(freq, Deep(freq, other, d, n)) == TotalWeight(freq, Deep(freq, other, d, n - 1)) + if more then freq[n - 1] else 0
  {
    hide TotalWeight;
    var before := Deep(freq, other, d, n - 1);
    if freq[n - 1] > 0 && other[n - 1] >= d { PushWeight(freq, before, One(n - 1)); } else { assert before + [] == before; }
  }

  lemma {:induction false} DeepWeightStep(freq: seq<nat>, other: seq<nat>, m: nat, j: nat, n: nat)
    requires 0 < n <= |freq| == |other| && j < m && other[n - 1] <= m
    ensures DeepWeight(freq, other, m, j, n) == DeepWeight(freq, other, m, j, n - 1) + freq[n - 1] * CoinsOf(m, other[n - 1], j)
  {
    hide TotalWeight, Deep;
    DeepStep(freq, other, m - j, n);
    OneMore(freq[n - 1], if j > 0 then CoinsOf(m, other[n - 1], j - 1) else 0);
    if j > 0 { DeepWeightStep(freq, other, m, j - 1, n); }
  }

  lemma OneMore(w: nat, c: nat)
    ensures w * (c + 1) == w * c + w && (c + 1) * w == c * w + w && w * 0 == 0
  {
  }

  lemma {:induction false} WeightIsCost(freq: seq<nat>, other: seq<nat>, m: nat, n: nat)
    requires n <= |freq| == |other| && m > 0 && LengthsWithin(other, m)
    ensures DeepWeight(freq, other, m, m - 1, n) == Cost(freq[..n], other[..n])
  {
    hide DeepWeight;
    if n == 0 {
      NoDeepCoins(freq, other, m, m - 1);
    } else {
      WeightIsCost(freq, other, m, n - 1);
      DeepWeightStep(freq, other, m, m - 1, n);
      CostFront(freq, other, n);
    }
  }

  lemma CostFront(w: seq<nat>, l: seq<nat>, n: nat)
    requires 0 < n <= |w| == |l|
    ensures Cost(w[..n], l[..n]) == Cost(w[..n - 1], l[..n - 1]) + w[n - 1] * l[n - 1]
  {
    assert w[..n][..n - 1] == w[..n - 1] && l[..n][..n - 1] == l[..n - 1];
  }

  lemma {:induction false} NoDeepCoins(freq: seq<nat>, other: seq<nat>, m: nat, j: nat)
    requires |freq| == |other| && j < m
    ensures DeepWeight(freq, other, m, j, 0) == 0 && DeepWorth(freq, other, m, j, 0) == 0
  {
    if j > 0 { NoDeepCoins(freq, other, m, j - 1); }
  }

  /** The worth of the coins of a symbol in rows 0 to j. */
  function WorthOf(m: nat, c: nat, j: nat): int
    requires j < m && c <= m
  {
    if c + j >= m then Pow2(j + 1) - Pow2(m - c) else 0
  }

  lemma {:induction false} DeepWorthStep(freq: seq<nat>, other: seq<nat>, m: nat, j: nat, n: nat)
    requires 0 < n <= |freq| == |other| && j < m && other[n - 1] <= m
    ensures DeepWorth(freq, other, m, j, n)
         == DeepWorth(freq, other, m, j, n - 1) + if freq[n - 1] > 0 then WorthOf(m, other[n - 1], j) else 0
  {
    hide Deep, TotalWeight, Pow2, WorthOf;
    DeepStep(freq, other, m - j, n);
    OneMore(Pow2(j), |Deep(freq, other, m - j, n - 1)|);
    WorthOfStep(m, other[n - 1], j);
    if j > 0 { DeepWorthStep(freq, other, m, j - 1, n); }
  }

  lemma WorthOfStep(m: nat, c: nat, j: nat)
    requires j < m && c <= m
    ensures WorthOf(m, c, j) == (if c >= m - j then Pow2(j) else 0) + if j > 0 then WorthOf(m, c, j - 1) else 0
  {
  }

  lemma {:induction false} WorthOfCode(freq: seq<nat>, other: seq<nat>, m: nat, n: nat)
    requires n <= |freq| == |other| && m > 0 && LengthsWithin(other, m)
    requires forall s :: 0 <= s < |freq| && freq[s] > 0 ==> other[s] > 0
    ensures DeepWorth(freq, other, m, m - 1, n) + KraftTo(other, m, m, n) >= |Singles(freq, n)| * Pow2(m)
  {
    hide DeepWorth, Pow2;
    if n == 0 {
      NoDeepCoins(freq, other, m, m - 1);
    } else {
      WorthOfCode(freq, other, m, n - 1);
      DeepWorthStep(freq, other, m, m - 1, n);
      OneMore(Pow2(m), |Singles(freq, n - 1)|);
    }
  }

  /** So the code has coins enough for the packages that are chosen. */
  lemma EnoughPackages(freq: seq<nat>, other: seq<nat>, m: nat, numpresent: nat)
    requires |freq| == |other| && m > 0 && FittingLengths(other, m) && numpresent == |Singles(freq, |freq|)| >= 1
    requires forall s :: 0 <= s < |freq| && freq[s] > 0 ==> other[s] > 0
    ensures 2 * (numpresent - 1) <= Packages(freq, other, m, m - 1)
  {
    hide DeepWorth, Pow2, KraftTo, Packages, Singles;
    WorthOfCode(freq, other, m, |freq|);
    FewDropped(freq, other, m, m - 1);
    TwoHalves(m);
    ManyCoins(Packages(freq, other, m, m - 1), numpresent, Pow2(m - 1));
  }

  lemma ManyCoins(p: nat, n: nat, w: nat)
    requires n >= 1 && n * (2 * w) - 2 * w < (p + 1) * w
    ensures 2 * (n - 1) <= p
  {
    assert n * (2 * w) - 2 * w == 2 * (n - 1) * w;
    if p + 1 <= 2 * (n - 1) { MulMonotone(p + 1, 2 * (n - 1), w); }
  }

  lemma TwoHalves(m: nat)
    requires m > 0
    ensures Pow2(m) == 2 * Pow2(m - 1)
  {
  }

  // ---- What the lengths counted off the chosen packages cost ----

  /** The weighted sum of how often the symbols below n occur in the coins. */
  ghost function CountCost(freq: seq<nat>, coins: seq<CoinTree>, n: nat): nat
    requires n <= |freq|
  {
    if n == 0 then 0 else CountCost(freq, coins, n - 1) + freq[n - 1] * CountIn(coins, n - 1)
  }

  ghost function LeafCost(freq: seq<nat>, t: CoinTree, n: nat): nat
    requires n <= |freq|
  {
    if n == 0 then 0 else LeafCost(freq, t, n - 1) + freq[n - 1] * Occurrences(t, n - 1)
  }

  lemma Distribute(w: nat, a: nat, b: nat)
    ensures w * (a + b) == w * a + w * b
  {
  }

  lemma {:induction false} LeafCostOfOne(freq: seq<nat>, s: nat, n: nat)
    requires n <= |freq|
    ensures LeafCost(freq, One(s), n) == if s < n then freq[s] else 0
  {
    if n > 0 { LeafCostOfOne(freq, s, n - 1); }
  }

  lemma {:induction false} LeafCostOfPair(freq: seq<nat>, l: CoinTree, r: CoinTree, n: nat)
    requires n <= |freq|
    ensures LeafCost(freq, Pair(l, r), n) == LeafCost(freq, l, n) + LeafCost(freq, r, n)
  {
    if n > 0 {
      LeafCostOfPair(freq, l, r, n - 1);
      Distribute(freq[n - 1], Occurrences(l, n - 1), Occurrences(r, n - 1));
    }
  }

  lemma {:induction false} LeafCostIsWeight(freq: seq<nat>, t: CoinTree)
    ensures LeafCost(freq, t, |freq|) == Weight(freq, t)
  {
    hide LeafCost;
    match t
    case One(s) => LeafCostOfOne(freq, s, |freq|);
    case Pair(l, r) =>
      LeafCostIsWeight(freq, l);
      LeafCostIsWeight(freq, r);
      LeafCostOfPair(freq, l, r, |freq|);
  }

  lemma {:induction false} CountCostStep(freq: seq<nat>, coins: seq<CoinTree>, x: CoinTree, n: nat)
    requires n <= |freq|
    ensures CountCost(freq, coins + [x], n) == CountCost(freq, coins, n) + LeafCost(freq, x, n)
  {
    hide CountIn, Occurrences;
    if n > 0 {
      CountCostStep(freq, coins, x, n - 1);
      CountInAppend(coins, x, n - 1);
      Distribute(freq[n - 1], CountIn(coins, n - 1), Occurrences(x, n - 1));
    }
  }

  lemma {:induction false} NoCountCost(freq: seq<nat>, n: nat)
    requires n <= |freq|
    ensures CountCost(freq, [], n) == 0
  {
    if n > 0 { NoCountCost(freq, n - 1); }
  }

  lemma {:induction false} CountCostIsWeight(freq: seq<nat>, coins: seq<CoinTree>)
    ensures CountCost(freq, coins, |freq|) == TotalWeight(freq, coins)
    decreases |coins|
  {
    hide CountCost, LeafCost;
    if coins == [] {
      NoCountCost(freq, |freq|);
    } else {
      var front, x := coins[..|coins| - 1], coins[|coins| - 1];
      assert coins == front + [x];
      CountCostIsWeight(freq, front);
      CountCostStep(freq, front, x, |freq|);
      LeafCostIsWeight(freq, x);
    }
  }

  lemma {:induction false} LengthsCost(freq: seq<nat>, coins: seq<CoinTree>, lengths: seq<nat>, n: nat)
    requires n <= |freq| == |lengths| && forall s :: 0 <= s < |freq| ==> lengths[s] == CountIn(coins, s)
    ensures Cost(freq[..n], lengths[..n]) == CountCost(freq, coins, n)
  {
    hide CountIn;
    if n > 0 {
      LengthsCost(freq, coins, lengths, n - 1);
      CostFront(freq, lengths, n);
    }
  }

  // ---- The theorem ----

  /** A code for every symbol that occurs, with lengths within the limit. */
  ghost predicate CodeFor(freq: seq<nat>, other: seq<nat>, m: nat) {
    |freq| == |other| && FittingLengths(other, m) && forall s :: 0 <= s < |freq| && freq[s] > 0 ==> other[s] > 0
  }

  /** No code for the symbols that occur, with lengths within the limit, needs fewer bits. */
  ghost predicate Cheapest(freq: seq<nat>, lengths: seq<nat>, m: nat) {
    && |freq| == |lengths|
    && forall other: seq<nat> {:trigger CodeFor(freq, other, m)} :: CodeFor(freq, other, m) ==> Cost(freq, lengths) <= Cost(freq, other)
  }

  lemma NotCheaper(freq: seq<nat>, rows: seq<seq<CoinTree>>, final: seq<CoinTree>, k: nat, other: seq<nat>)
    requires Rows(freq, rows) && |rows| > 0 && k + 1 == |Singles(freq, |freq|)| && k <= |final|
    requires Follows(freq, rows[|rows| - 1], final, true) && Ascending(freq, final) && CodeFor(freq, other, |rows|)
    ensures TotalWeight(freq, final[..k]) <= Cost(freq, other)
  {
    hide Singles, Rows, FittingLengths, Cost, Packages, DeepWeight, TotalWeight, Ascending, Merge;
    var m, prev := |rows|, rows[|rows| - 1];
    EnoughPackages(freq, other, m, k + 1);
    NoLighterChoice(freq, rows, other, m - 1);
    WithinLimit(other, m);
    WeightIsCost(freq, other, m, |freq|);
    assert freq[..|freq|] == freq && other[..|freq|] == other;
    PrefixWeight(freq, prev, 2 * k, Packages(freq, other, m, m - 1));
    PairsWeight(freq, prev, k);
    FirstPairs(prev, final, k);
    FirstAreLightest(freq, final, Merge(prev)[..k]);
  }

  lemma WithinLimit(other: seq<nat>, m: nat)
    requires FittingLengths(other, m)
    ensures LengthsWithin(other, m)
  {
  }

  /** The lengths counted off the numpresent - 1 lightest packages of the last row cost least. */
  lemma LengthsCheapest(freq: seq<nat>, rows: seq<seq<CoinTree>>, final: seq<CoinTree>, lengths: seq<nat>)
    requires Rows(freq, rows) && |lengths| == |freq|
    requires Follows(freq, rows[|rows| - 1], final, true) && Ascending(freq, final)
    requires 2 <= |Singles(freq, |freq|)| <= |final| + 1
    requires forall s :: 0 <= s < |freq| ==> lengths[s] == CountIn(final[..|Singles(freq, |freq|)| - 1], s)
    ensures Cheapest(freq, lengths, |rows|)
  {
    hide CountIn, Singles, Rows, FittingLengths, Cost, TotalWeight, Ascending, Follows;
    SomeRows(freq, rows);
    var k := |Singles(freq, |freq|)| - 1;
    LengthsCost(freq, final[..k], lengths, |freq|);
    CountCostIsWeight(freq, final[..k]);
    assert freq[..|freq|] == freq && lengths[..|freq|] == lengths;
    forall other: seq<nat> | CodeFor(freq, other, |rows|) ensures Cost(freq, lengths) <= Cost(freq, other) {
      NotCheaper(freq, rows, final, k, other);
    }
  }

  lemma SomeRows(freq: seq<nat>, rows: seq<seq<CoinTree>>)
    requires Rows(freq, rows)
    ensures |rows| > 0
  {
  }

  lemma FirstPairs(prev: seq<CoinTree>, final: seq<CoinTree>, k: nat)
    requires multiset(final) == multiset(Merge(prev)) + multiset([]) && k <= |Merge(prev)|
    ensures multiset(Merge(prev)[..k]) <= multiset(final)
  {
    assert Merge(prev) == Merge(prev)[..k] + Merge(prev)[k..];
  }

  /** A code of one bit for every symbol that occurs cannot be beaten. */
  lemma OneBitCheapest(freq: seq<nat>, lengths: seq<nat>, m: nat)
    requires |lengths| == |freq| && forall s :: 0 <= s < |freq| && freq[s] > 0 ==> lengths[s] == 1
    ensures Cheapest(freq, lengths, m)
  {
    hide Cost, FittingLengths;
    forall other: seq<nat> | CodeFor(freq, other, m) ensures Cost(freq, lengths) <= Cost(freq, other) {
      LongerCosts(freq, lengths, other, |freq|);
      assert freq[..|freq|] == freq && lengths[..|freq|] == lengths && other[..|freq|] == other;
    }
  }

  lemma {:induction false} LongerCosts(freq: seq<nat>, l: seq<nat>, other: seq<nat>, n: nat)
    requires n <= |freq| == |l| == |other| && forall s :: 0 <= s < |freq| && freq[s] > 0 ==> l[s] <= other[s]
    ensures Cost(freq[..n], l[..n]) <= Cost(freq[..n], other[..n])
  {
    hide Cost;
    if n == 0 {
      assert l[..0] == other[..0];
    } else {
      LongerCosts(freq, l, other, n - 1);
      CostFront(freq, l, n);
      CostFront(freq, other, n);
      if freq[n - 1] > 0 { Distribute(freq[n - 1], l[n - 1], other[n - 1] - l[n - 1]); } else { OneMore(0, 0); }
    }
  }
}
