/** The coins of the package-merge algorithm (lodepng.c:738-855): the lengths counted off the lightest ones form a complete code. */
module Coins {
  import opened Bits
  import opened Canonical

  /** A coin as the source keeps it: the symbols merged into it and the sum of their weights. */
  datatype Coin = Coin(symbols: seq<nat>, weight: nat)

  /** How a coin came about. */
  datatype CoinTree = One(symbol: nat) | Pair(left: CoinTree, right: CoinTree)

  ghost function Leaves(t: CoinTree): seq<nat> {
    match t
    case One(s) => [s]
    case Pair(l, r) => Leaves(l) + Leaves(r)
  }

  ghost function Weight(freq: seq<nat>, t: CoinTree): nat {
    match t
    case One(s) => if s < |freq| then freq[s] else 0
    case Pair(l, r) => Weight(freq, l) + Weight(freq, r)
  }

  /** Every leaf is a symbol that occurs. */
  ghost predicate Grounded(freq: seq<nat>, t: CoinTree) {
    match t
    case One(s) => s < |freq| && freq[s] > 0
    case Pair(l, r) => Grounded(freq, l) && Grounded(freq, r)
  }

  ghost function Occurrences(t: CoinTree, s: nat): nat {
    match t
    case One(a) => B2N(a == s)
    case Pair(l, r) => Occurrences(l, s) + Occurrences(r, s)
  }

  /** How often symbol s occurs in a collection of coins: the length the source gives it. */
  ghost function CountIn(coins: seq<CoinTree>, s: nat): nat {
    if coins == [] then 0 else Occurrences(coins[0], s) + CountIn(coins[1..], s)
  }

  ghost function Singles(freq: seq<nat>, n: nat): seq<CoinTree>
    requires n <= |freq|
  {
    if n == 0 then []
    else Singles(freq, n - 1) + (if freq[n - 1] > 0 then [One(n - 1)] else [])
  }

  /** Pairing neighbours; a last coin without a partner is dropped. */
  ghost function Merge(row: seq<CoinTree>): seq<CoinTree> {
    if |row| < 2 then [] else [Pair(row[0], row[1])] + Merge(row[2..])
  }

  ghost predicate Ascending(freq: seq<nat>, row: seq<CoinTree>) {
    forall i, j :: 0 <= i < j < |row| ==> Weight(freq, row[i]) <= Weight(freq, row[j])
  }

  ghost predicate Distinct(row: seq<CoinTree>) {
    forall i, j :: 0 <= i < j < |row| ==> row[i] != row[j]
  }

  /** A row of the algorithm: grounded, sorted, no coin twice. */
  ghost predicate Row(freq: seq<nat>, row: seq<CoinTree>) {
    && Ascending(freq, row) && Distinct(row)
    && (forall t :: t in row ==> Grounded(freq, t))
  }

  /** The next row: all pairs of the previous one, and all single symbols unless it is the last. */
  ghost predicate Follows(freq: seq<nat>, prev: seq<CoinTree>, next: seq<CoinTree>, last: bool) {
    multiset(next) == multiset(Merge(prev)) + multiset(if last then [] else Singles(freq, |freq|))
  }

  /** The history of all rows but the last. */
  ghost predicate Rows(freq: seq<nat>, rows: seq<seq<CoinTree>>) {
    && 0 < |rows|
    && multiset(rows[0]) == multiset(Singles(freq, |freq|))
    && (forall j :: 0 <= j < |rows| ==> Row(freq, rows[j]))
    && (forall j :: 0 < j < |rows| ==> Follows(freq, rows[j - 1], rows[j], false))
  }

  /** A choice of coins that leaves out nothing lighter than what it takes. */
  ghost predicate LightestOf(freq: seq<nat>, row: seq<CoinTree>, chosen: seq<CoinTree>) {
    Distinct(chosen) && TakesLightest(freq, row, chosen)
  }

  ghost predicate TakesLightest(freq: seq<nat>, row: seq<CoinTree>, chosen: seq<CoinTree>) {
    && (forall x :: x in chosen ==> x in row)
    && (forall x, y :: x in chosen && y in row && Weight(freq, y) < Weight(freq, x) ==> y in chosen)
  }

  ghost function Unpair(chosen: seq<CoinTree>): seq<CoinTree> {
    if chosen == [] then []
    else match chosen[0]
      case One(_) => Unpair(chosen[1..])
      case Pair(l, r) => [l, r] + Unpair(chosen[1..])
  }

  ghost function Ones(chosen: seq<CoinTree>): nat {
    if chosen == [] then 0 else B2N(chosen[0].One?) + Ones(chosen[1..])
  }

  // ---- Small facts about the functions above ----

  lemma {:induction false} MergeAt(row: seq<CoinTree>, i: nat)
    requires 2 * i + 1 < |row|
    ensures |Merge(row)| == |row| / 2 && Merge(row)[i] == Pair(row[2 * i], row[2 * i + 1])
  {
    if i > 0 {
      MergeAt(row[2..], i - 1);
    } else if |row| >= 4 {
      MergeAt(row[2..], 0);
    }
  }

  lemma MergeSize(row: seq<CoinTree>)
    ensures |Merge(row)| == |row| / 2
  {
    if |row| >= 2 { MergeAt(row, 0); }
  }

  lemma MergeIndex(row: seq<CoinTree>, p: CoinTree) returns (i: nat)
    requires p in Merge(row)
    ensures 2 * i + 1 < |row| && p == Pair(row[2 * i], row[2 * i + 1])
  {
    MergeSize(row);
    i :| 0 <= i < |Merge(row)| && Merge(row)[i] == p;
    MergeAt(row, i);
  }

  lemma {:induction false} InSingles(freq: seq<nat>, n: nat, t: CoinTree)
    requires n <= |freq|
    ensures t in Singles(freq, n) <==> t.One? && t.symbol < n && freq[t.symbol] > 0
  {
    if n > 0 { InSingles(freq, n - 1, t); }
  }

  lemma InUnpair(chosen: seq<CoinTree>, x: CoinTree) returns (p: CoinTree)
    requires x in Unpair(chosen)
    ensures p in chosen && p.Pair? && (x == p.left || x == p.right)
  {
    if chosen[0].Pair? && (x == chosen[0].left || x == chosen[0].right) {
      p := chosen[0];
    } else {
      p := InUnpair(chosen[1..], x);
    }
  }

  lemma {:induction false} UnpairHas(chosen: seq<CoinTree>, p: CoinTree)
    requires p in chosen && p.Pair?
    ensures p.left in Unpair(chosen) && p.right in Unpair(chosen)
  {
    if p != chosen[0] { UnpairHas(chosen[1..], p); }
  }

  lemma {:induction false} UnpairSize(chosen: seq<CoinTree>)
    ensures |Unpair(chosen)| == 2 * (|chosen| - Ones(chosen))
  {
    if chosen != [] { UnpairSize(chosen[1..]); }
  }

  lemma {:induction false} CountSplits(chosen: seq<CoinTree>, s: nat)
    requires Distinct(chosen)
    ensures CountIn(chosen, s) == CountIn(Unpair(chosen), s) + B2N(One(s) in chosen)
  {
    if chosen != [] {
      var rest := chosen[1..];
      CountSplits(rest, s);
      match chosen[0]
      case One(a) =>
        assert a == s ==> One(s) !in rest;
      case Pair(l, r) =>
        var u := Unpair(rest);
        assert ([l, r] + u)[1..] == [r] + u && ([r] + u)[1..] == u;
    }
  }

  lemma {:induction false} LeafWeight(freq: seq<nat>, t: CoinTree, s: nat)
    requires Grounded(freq, t)
    ensures Weight(freq, t) > 0
    ensures Occurrences(t, s) > 0 ==> s < |freq| && 0 < freq[s] <= Weight(freq, t)
  {
    if t.Pair? {
      LeafWeight(freq, t.left, s);
      LeafWeight(freq, t.right, s);
    }
  }

  lemma {:induction false} CountInHas(coins: seq<CoinTree>, s: nat) returns (x: CoinTree)
    requires CountIn(coins, s) > 0
    ensures x in coins && Occurrences(x, s) > 0
  {
    if Occurrences(coins[0], s) > 0 {
      x := coins[0];
    } else {
      x := CountInHas(coins[1..], s);
    }
  }

  lemma {:induction false} CountInAppend(coins: seq<CoinTree>, x: CoinTree, s: nat)
    ensures CountIn(coins + [x], s) == CountIn(coins, s) + Occurrences(x, s)
  {
    if coins == [] {
      assert ([x])[1..] == [];
    } else {
      assert (coins + [x])[1..] == coins[1..] + [x];
      CountInAppend(coins[1..], x, s);
    }
  }

  // ---- The coins behind a lightest choice are a lightest choice in the row before ----

  lemma PairsComeFromMerge(freq: seq<nat>, prev: seq<CoinTree>, next: seq<CoinTree>, last: bool, p: CoinTree)
    requires Follows(freq, prev, next, last) && p in next && p.Pair?
    ensures p in Merge(prev)
  {
    InSingles(freq, |freq|, p);
    assert p in multiset(next);
  }

  lemma MergeComesNext(freq: seq<nat>, prev: seq<CoinTree>, next: seq<CoinTree>, last: bool, p: CoinTree)
    requires Follows(freq, prev, next, last) && p in Merge(prev)
    ensures p in next
  {
    assert p in multiset(next);
  }

  lemma {:induction false} UnpairDistinct(prev: seq<CoinTree>, chosen: seq<CoinTree>)
    requires Distinct(prev) && Distinct(chosen)
    requires forall p :: p in chosen && p.Pair? ==> p in Merge(prev)
    ensures Distinct(Unpair(chosen))
  {
    if chosen != [] {
      var rest := chosen[1..];
      UnpairDistinct(prev, rest);
      if chosen[0].Pair? {
        var i := MergeIndex(prev, chosen[0]);
        forall x | x in Unpair(rest) ensures x != chosen[0].left && x != chosen[0].right {
          var p := InUnpair(rest, x);
          var k := MergeIndex(prev, p);
          assert p != chosen[0];
          assert i != k;
        }
        PrependTwo(chosen[0].left, chosen[0].right, Unpair(rest));
      }
    }
  }

  lemma PrependTwo(a: CoinTree, b: CoinTree, rest: seq<CoinTree>)
    requires a != b && Distinct(rest) && a !in rest && b !in rest
    ensures Distinct([a, b] + rest)
  {
  }

  lemma UnpairLightest(freq: seq<nat>, prev: seq<CoinTree>, next: seq<CoinTree>, last: bool, chosen: seq<CoinTree>)
    requires Row(freq, prev) && Follows(freq, prev, next, last)
    requires LightestOf(freq, next, chosen)
    ensures LightestOf(freq, prev, Unpair(chosen))
  {
    forall p | p in chosen && p.Pair? ensures p in Merge(prev) {
      PairsComeFromMerge(freq, prev, next, last, p);
    }
    UnpairDistinct(prev, chosen);
    forall x | x in Unpair(chosen)
      ensures x in prev && forall y :: y in prev && Weight(freq, y) < Weight(freq, x) ==> y in Unpair(chosen)
    {
      var p := InUnpair(chosen, x);
      var i := MergeIndex(prev, p);
      forall y | y in prev && Weight(freq, y) < Weight(freq, x) ensures y in Unpair(chosen) {
        LighterIsChosen(freq, prev, next, last, chosen, i, x, y);
      }
    }
  }

  lemma LighterIsChosen(freq: seq<nat>, prev: seq<CoinTree>, next: seq<CoinTree>, last: bool, chosen: seq<CoinTree>,
                        i: nat, x: CoinTree, y: CoinTree)
    requires Ascending(freq, prev) && Follows(freq, prev, next, last) && TakesLightest(freq, next, chosen)
    requires 2 * i + 1 < |prev| && Pair(prev[2 * i], prev[2 * i + 1]) in chosen
    requires x == prev[2 * i] || x == prev[2 * i + 1]
    requires y in prev && Weight(freq, y) < Weight(freq, x)
    ensures y in Unpair(chosen)
  {
    hide Follows, TakesLightest, Weight, Ascending, Unpair;
    var b: nat :| b < |prev| && prev[b] == y;
    LighterIsEarlier(freq, prev, b, if x == prev[2 * i] then 2 * i else 2 * i + 1);
    var k := b / 2;
    if k < i {
      LighterPair(freq, prev, k, i);
      EarlierPairChosen(freq, prev, next, last, chosen, k, i);
    }
    UnpairHas(chosen, Pair(prev[2 * k], prev[2 * k + 1]));
  }

  lemma EarlierPairChosen(freq: seq<nat>, prev: seq<CoinTree>, next: seq<CoinTree>, last: bool, chosen: seq<CoinTree>,
                          k: nat, i: nat)
    requires Ascending(freq, prev) && Follows(freq, prev, next, last) && TakesLightest(freq, next, chosen)
    requires k < i && 2 * i + 1 < |prev| && Pair(prev[2 * i], prev[2 * i + 1]) in chosen
    requires Weight(freq, prev[2 * k]) < Weight(freq, prev[2 * i + 1])
    ensures Weight(freq, prev[2 * k]) + Weight(freq, prev[2 * k + 1])
          < Weight(freq, prev[2 * i]) + Weight(freq, prev[2 * i + 1])
    ensures Pair(prev[2 * k], prev[2 * k + 1]) in chosen
  {
    var p, q := Pair(prev[2 * i], prev[2 * i + 1]), Pair(prev[2 * k], prev[2 * k + 1]);
    LighterPair(freq, prev, k, i);
    MergeAt(prev, k);
    assert q in Merge(prev);
    MergeComesNext(freq, prev, next, last, q);
    LighterTaken(freq, next, chosen, p, q);
  }

  lemma LighterTaken(freq: seq<nat>, row: seq<CoinTree>, chosen: seq<CoinTree>, x: CoinTree, y: CoinTree)
    requires TakesLightest(freq, row, chosen) && x in chosen && y in row && Weight(freq, y) < Weight(freq, x)
    ensures y in chosen
  {
  }

  lemma LighterIsEarlier(freq: seq<nat>, row: seq<CoinTree>, b: nat, x: nat)
    requires Ascending(freq, row) && b < |row| && x < |row| && Weight(freq, row[b]) < Weight(freq, row[x])
    ensures b < x
  {
  }

  lemma LighterPair(freq: seq<nat>, prev: seq<CoinTree>, k: nat, i: nat)
    requires Ascending(freq, prev) && k < i && 2 * i + 1 < |prev|
    ensures Weight(freq, prev[2 * k]) <= Weight(freq, prev[2 * k + 1])
    ensures Weight(freq, prev[2 * k + 1]) <= Weight(freq, prev[2 * i])
    ensures Weight(freq, prev[2 * i]) <= Weight(freq, prev[2 * i + 1])
  {
  }

  /** A symbol that some chosen pair contains is chosen as a single too: it is lighter than the pair. */
  lemma UsedMeansChosen(freq: seq<nat>, prev: seq<CoinTree>, next: seq<CoinTree>, chosen: seq<CoinTree>, s: nat)
    requires Row(freq, next) && Follows(freq, prev, next, false) && LightestOf(freq, next, chosen)
    requires CountIn(Unpair(chosen), s) > 0
    ensures One(s) in chosen
  {
    var x := CountInHas(Unpair(chosen), s);
    var p := InUnpair(chosen, x);
    LeafWeight(freq, p.left, s);
    LeafWeight(freq, p.right, s);
    InSingles(freq, |freq|, One(s));
    assert One(s) in multiset(next);
    assert Weight(freq, One(s)) < Weight(freq, p);
  }

  // ---- Accounting: what a choice is worth equals what its symbols are worth ----

  /** The value of c coins of one symbol, taken from the c most valuable of rows 0 to j. */
  ghost function Worth(j: nat, c: nat): int {
    if c <= j + 1 then Pow2(j + 1) - Pow2(j + 1 - c) else 0
  }

  ghost function TotalWorth(j: nat, coins: seq<CoinTree>, n: nat): int {
    if n == 0 then 0 else TotalWorth(j, coins, n - 1) + Worth(j, CountIn(coins, n - 1))
  }

  ghost function SinglesBelow(chosen: seq<CoinTree>, n: nat): nat {
    if n == 0 then 0 else SinglesBelow(chosen, n - 1) + B2N(One(n - 1) in chosen)
  }

  lemma {:induction false} SinglesBelowStep(chosen: seq<CoinTree>, n: nat)
    requires chosen != [] && Distinct(chosen)
    ensures SinglesBelow(chosen, n)
         == SinglesBelow(chosen[1..], n) + B2N(chosen[0].One? && chosen[0].symbol < n)
  {
    if n > 0 {
      SinglesBelowStep(chosen, n - 1);
      var rest := chosen[1..];
      assert One(n - 1) in chosen <==> One(n - 1) == chosen[0] || One(n - 1) in rest;
      assert chosen[0] !in rest;
    }
  }

  lemma {:induction false} SinglesAreOnes(chosen: seq<CoinTree>, n: nat)
    requires Distinct(chosen)
    requires forall x :: x in chosen && x.One? ==> x.symbol < n
    ensures SinglesBelow(chosen, n) == Ones(chosen)
  {
    if chosen == [] {
      NoSingles(chosen, n);
    } else {
      SinglesBelowStep(chosen, n);
      SinglesAreOnes(chosen[1..], n);
    }
  }

  lemma {:induction false} NoSingles(chosen: seq<CoinTree>, n: nat)
    requires chosen == []
    ensures SinglesBelow(chosen, n) == 0
  {
    if n > 0 { NoSingles(chosen, n - 1); }
  }

  lemma {:induction false} WorthSplits(j: nat, chosen: seq<CoinTree>, n: nat)
    requires Distinct(chosen)
    requires forall s: nat :: CountIn(Unpair(chosen), s) <= j + 1
    requires forall s: nat :: CountIn(Unpair(chosen), s) > 0 ==> One(s) in chosen
    ensures TotalWorth(j + 1, chosen, n) == Pow2(j + 1) * SinglesBelow(chosen, n) + TotalWorth(j, Unpair(chosen), n)
  {
    hide Pow2, CountIn, Unpair, Distinct;
    if n > 0 {
      WorthSplits(j, chosen, n - 1);
      CountSplits(chosen, n - 1);
      WorthOfOne(j, CountIn(Unpair(chosen), n - 1), One(n - 1) in chosen);
      OneMoreShare(Pow2(j + 1), SinglesBelow(chosen, n - 1), One(n - 1) in chosen);
    }
  }

  lemma OneMoreShare(p: nat, k: nat, more: bool)
    ensures p * (k + B2N(more)) == p * k + (if more then p else 0)
  {
  }

  lemma WorthOfOne(j: nat, c: nat, single: bool)
    requires c <= j + 1 && (c > 0 ==> single)
    ensures Worth(j + 1, c + B2N(single)) == (if single then Pow2(j + 1) else 0) + Worth(j, c)
  {
  }

  lemma {:induction false} FirstRowWorth(chosen: seq<CoinTree>, n: nat)
    requires Distinct(chosen) && Unpair(chosen) == []
    ensures TotalWorth(0, chosen, n) == SinglesBelow(chosen, n)
  {
    if n > 0 {
      FirstRowWorth(chosen, n - 1);
      CountSplits(chosen, n - 1);
    }
  }

  lemma {:induction false} OnlyOnes(chosen: seq<CoinTree>)
    requires forall x :: x in chosen ==> x.One?
    ensures Unpair(chosen) == [] && Ones(chosen) == |chosen|
  {
    if chosen != [] { OnlyOnes(chosen[1..]); }
  }

  /** Each chosen coin of row j is worth 2^j, whatever it consists of, and no symbol is counted more than once a row. */
  ghost predicate WellPaid(freq: seq<nat>, j: nat, chosen: seq<CoinTree>) {
    && TotalWorth(j, chosen, |freq|) == Pow2(j) * |chosen|
    && forall s: nat :: CountIn(chosen, s) <= if s < |freq| then j + 1 else 0
  }

  /** The main step, down the rows. */
  lemma {:induction false} Account(freq: seq<nat>, rows: seq<seq<CoinTree>>, j: nat, chosen: seq<CoinTree>)
    requires Rows(freq, rows) && j < |rows| && LightestOf(freq, rows[j], chosen)
    ensures WellPaid(freq, j, chosen)
    decreases j
  {
    hide Row, Follows, LightestOf, WellPaid, Unpair;
    assert Row(freq, rows[j]);
    if j == 0 {
      AccountFirst(freq, rows[0], chosen);
    } else {
      UnpairLightest(freq, rows[j - 1], rows[j], false, chosen);
      Account(freq, rows, j - 1, Unpair(chosen));
      AccountNext(freq, rows[j - 1], rows[j], j - 1, chosen);
    }
  }

  lemma ChosenOnes(freq: seq<nat>, row: seq<CoinTree>, chosen: seq<CoinTree>)
    requires Row(freq, row) && LightestOf(freq, row, chosen)
    ensures Distinct(chosen) && SinglesBelow(chosen, |freq|) == Ones(chosen)
    ensures forall s: nat :: One(s) in chosen ==> s < |freq|
  {
    hide Ones, SinglesBelow;
    forall x | x in chosen && x.One? ensures x.symbol < |freq| { assert Grounded(freq, x); }
    SinglesAreOnes(chosen, |freq|);
  }

  lemma AccountFirst(freq: seq<nat>, row: seq<CoinTree>, chosen: seq<CoinTree>)
    requires Row(freq, row) && multiset(row) == multiset(Singles(freq, |freq|)) && LightestOf(freq, row, chosen)
    ensures WellPaid(freq, 0, chosen)
  {
    hide Singles, Ones, TotalWorth, SinglesBelow, Row, Unpair, Distinct;
    ChosenOnes(freq, row, chosen);
    forall x | x in chosen ensures x.One? {
      InSingles(freq, |freq|, x);
      assert x in multiset(row);
    }
    OnlyOnes(chosen);
    FirstRowWorth(chosen, |freq|);
    forall s: nat ensures CountIn(chosen, s) <= if s < |freq| then 1 else 0 { CountSplits(chosen, s); }
  }

  lemma AccountNext(freq: seq<nat>, prev: seq<CoinTree>, next: seq<CoinTree>, j: nat, chosen: seq<CoinTree>)
    requires Row(freq, next) && Follows(freq, prev, next, false) && LightestOf(freq, next, chosen)
    requires WellPaid(freq, j, Unpair(chosen))
    ensures WellPaid(freq, j + 1, chosen)
  {
    hide Ones, TotalWorth, SinglesBelow, Row, Follows, LightestOf, Unpair, Distinct, CountIn;
    ChosenOnes(freq, next, chosen);
    UnpairSize(chosen);
    forall s: nat | CountIn(Unpair(chosen), s) > 0 ensures One(s) in chosen {
      UsedMeansChosen(freq, prev, next, chosen, s);
    }
    WorthSplits(j, chosen, |freq|);
    WorthSum(Pow2(j), Ones(chosen), |chosen|);
    forall s: nat ensures CountIn(chosen, s) <= if s < |freq| then j + 2 else 0 { CountSplits(chosen, s); }
  }

  lemma WorthSum(p: nat, ones: nat, all: nat)
    ensures 2 * p * ones + p * (2 * (all - ones)) == 2 * p * all
  {
  }

  // ---- Rows stay free of duplicates ----

  lemma {:induction false} DistinctCount(row: seq<CoinTree>, t: CoinTree)
    requires Distinct(row)
    ensures multiset(row)[t] <= 1
  {
    if row != [] {
      DistinctCount(row[1..], t);
      assert row == [row[0]] + row[1..];
      assert t == row[0] ==> t !in row[1..];
    }
  }

  lemma DistinctSame(a: seq<CoinTree>, b: seq<CoinTree>)
    requires Distinct(a) && multiset(a) == multiset(b)
    ensures Distinct(b)
  {
    forall i, j | 0 <= i < j < |b| ensures b[i] != b[j] {
      DistinctCount(a, b[i]);
      TwiceCount(b, i, j);
    }
  }

  lemma TwiceCount(b: seq<CoinTree>, i: nat, j: nat)
    requires i < j < |b|
    ensures b[i] == b[j] ==> multiset(b)[b[i]] >= 2
  {
    assert b == b[..j] + [b[j]] + b[j + 1..];
    assert b[..j] == b[..i] + [b[i]] + b[i + 1..j];
  }

  lemma MergeDistinct(prev: seq<CoinTree>)
    requires Distinct(prev)
    ensures Distinct(Merge(prev))
  {
    MergeSize(prev);
    forall i, k | 0 <= i < k < |Merge(prev)| ensures Merge(prev)[i] != Merge(prev)[k] {
      MergeAt(prev, i);
      MergeAt(prev, k);
    }
  }

  lemma {:induction false} SinglesRow(freq: seq<nat>, n: nat)
    requires n <= |freq|
    ensures Distinct(Singles(freq, n))
    ensures |Singles(freq, n)| <= n
    ensures forall t :: t in Singles(freq, n) ==> Grounded(freq, t)
  {
    if n > 0 {
      SinglesRow(freq, n - 1);
      InSingles(freq, n - 1, One(n - 1));
    }
  }

  /** What a sort makes of the merged coins and the single symbols is a row again. */
  lemma RowFollows(freq: seq<nat>, prev: seq<CoinTree>, next: seq<CoinTree>, last: bool)
    requires Row(freq, prev) && Follows(freq, prev, next, last) && Ascending(freq, next)
    ensures Row(freq, next)
  {
    var merged, singles := Merge(prev), if last then [] else Singles(freq, |freq|);
    MergeDistinct(prev);
    SinglesRow(freq, |freq|);
    MergeGrounded(freq, prev);
    forall t | t in singles ensures t.One? && Grounded(freq, t) { InSingles(freq, |freq|, t); }
    ConcatDistinct(merged, singles);
    assert multiset(merged + singles) == multiset(next);
    DistinctSame(merged + singles, next);
    forall t | t in next ensures Grounded(freq, t) {
      assert t in multiset(next);
    }
  }

  lemma MergeGrounded(freq: seq<nat>, prev: seq<CoinTree>)
    requires forall t :: t in prev ==> Grounded(freq, t)
    ensures forall t :: t in Merge(prev) ==> t.Pair? && Grounded(freq, t)
  {
    forall t | t in Merge(prev) ensures t.Pair? && Grounded(freq, t) {
      var i := MergeIndex(prev, t);
      assert prev[2 * i] in prev && prev[2 * i + 1] in prev;
    }
  }

  lemma ConcatDistinct(a: seq<CoinTree>, b: seq<CoinTree>)
    requires Distinct(a) && Distinct(b)
    requires (forall t :: t in a ==> t.Pair?) && (forall t :: t in b ==> t.One?)
    ensures Distinct(a + b)
  {
    forall i, j | 0 <= i < j < |a + b| ensures (a + b)[i] != (a + b)[j] {
      assert i < |a| ==> a[i] in a;
      assert j >= |a| ==> b[j - |a|] in b;
    }
  }

  lemma FirstRow(freq: seq<nat>, row: seq<CoinTree>)
    requires multiset(row) == multiset(Singles(freq, |freq|)) && Ascending(freq, row)
    ensures Row(freq, row)
  {
    SinglesRow(freq, |freq|);
    DistinctSame(Singles(freq, |freq|), row);
    forall t | t in row ensures Grounded(freq, t) {
      assert t in multiset(row);
      assert t in Singles(freq, |freq|);
    }
  }

  // ---- The lengths counted off the last row have Kraft sum one ----

  ghost function PresentKraft(freq: seq<nat>, lengths: seq<nat>, maxLen: nat, n: nat): nat
    requires n <= |freq| == |lengths|
  {
    if n == 0 then 0
    else PresentKraft(freq, lengths, maxLen, n - 1) +
         (if freq[n - 1] > 0 && lengths[n - 1] <= maxLen then Pow2(maxLen - lengths[n - 1]) else 0)
  }

  lemma {:induction false} WorthIsKraft(freq: seq<nat>, lengths: seq<nat>, maxLen: nat, coins: seq<CoinTree>, n: nat)
    requires n <= |freq| == |lengths| && maxLen >= 1
    requires forall s :: 0 <= s < |freq| ==> lengths[s] == CountIn(coins, s) <= maxLen
    requires forall s :: 0 <= s < |freq| && freq[s] == 0 ==> lengths[s] == 0
    ensures TotalWorth(maxLen - 1, coins, n) == |Singles(freq, n)| * Pow2(maxLen) - PresentKraft(freq, lengths, maxLen, n)
  {
    if n > 0 {
      WorthIsKraft(freq, lengths, maxLen, coins, n - 1);
      TimesPlusOne(|Singles(freq, n - 1)|, Pow2(maxLen));
    }
  }

  lemma {:induction false} ZeroTooHeavy(freq: seq<nat>, lengths: seq<nat>, maxLen: nat, n: nat, s: nat)
    requires n <= |freq| == |lengths| && s < n && freq[s] > 0 && lengths[s] == 0
    requires LengthsWithin(lengths, maxLen)
    ensures PresentKraft(freq, lengths, maxLen, n) >= Pow2(maxLen) + |Singles(freq, n)| - 1
  {
    if s < n - 1 {
      ZeroTooHeavy(freq, lengths, maxLen, n - 1, s);
    } else {
      PresentAtLeast(freq, lengths, maxLen, n - 1);
    }
  }

  lemma {:induction false} PresentAtLeast(freq: seq<nat>, lengths: seq<nat>, maxLen: nat, n: nat)
    requires n <= |freq| == |lengths| && LengthsWithin(lengths, maxLen)
    ensures PresentKraft(freq, lengths, maxLen, n) >= |Singles(freq, n)|
  {
    if n > 0 { PresentAtLeast(freq, lengths, maxLen, n - 1); }
  }

  lemma {:induction false} PresentKraftIsKraft(freq: seq<nat>, lengths: seq<nat>, maxLen: nat, n: nat)
    requires n <= |freq| == |lengths| && LengthsWithin(lengths, maxLen)
    requires forall s :: 0 <= s < |freq| ==> (freq[s] > 0 <==> lengths[s] > 0)
    ensures KraftTo(lengths, maxLen, maxLen, n) == PresentKraft(freq, lengths, maxLen, n)
  {
    if n > 0 { PresentKraftIsKraft(freq, lengths, maxLen, n - 1); }
  }

  lemma {:induction false} AbsentNeverCounted(freq: seq<nat>, coins: seq<CoinTree>, s: nat)
    requires forall t :: t in coins ==> Grounded(freq, t)
    requires s >= |freq| || freq[s] == 0
    ensures CountIn(coins, s) == 0
  {
    if coins != [] {
      LeafWeight(freq, coins[0], s);
      AbsentNeverCounted(freq, coins[1..], s);
    }
  }

  /** Counting symbols over the numpresent - 1 lightest packages of the last row gives a complete code. */
  lemma LengthsComplete(freq: seq<nat>, rows: seq<seq<CoinTree>>, final: seq<CoinTree>, lengths: seq<nat>)
    requires Rows(freq, rows) && |lengths| == |freq|
    requires Follows(freq, rows[|rows| - 1], final, true) && Ascending(freq, final)
    requires 2 <= |Singles(freq, |freq|)| <= |final| + 1
    requires forall s :: 0 <= s < |freq| ==> lengths[s] == CountIn(final[..|Singles(freq, |freq|)| - 1], s)
    ensures CompleteLengths(lengths, |rows|)
    ensures forall s :: 0 <= s < |freq| ==> (freq[s] > 0 <==> lengths[s] > 0)
  {
    hide CountIn, TotalWorth, KraftTo, Singles, Row, Follows, Unpair, Ones, LightestOf, Distinct;
    var prev, n := rows[|rows| - 1], |Singles(freq, |freq|)|;
    var chosen := final[..n - 1];
    assert Row(freq, prev);
    RowFollows(freq, prev, final, true);
    FinalPairs(freq, prev, final);
    ChosenPairs(freq, final, n - 1);
    PrefixIsLightest(freq, final, n - 1);
    UnpairLightest(freq, prev, final, true, chosen);
    UnpairSize(chosen);
    NoOnes(chosen);
    Account(freq, rows, |rows| - 1, Unpair(chosen));
    CountsAgree(freq, chosen, lengths, |rows|);
    KraftFromWorth(freq, lengths, |rows|, Unpair(chosen), n);
  }

  lemma FinalPairs(freq: seq<nat>, prev: seq<CoinTree>, final: seq<CoinTree>)
    requires Follows(freq, prev, final, true)
    ensures forall x :: x in final ==> x.Pair?
  {
    forall x | x in final ensures x.Pair? {
      assert x in multiset(final);
      var i := MergeIndex(prev, x);
    }
  }

  lemma ChosenPairs(freq: seq<nat>, final: seq<CoinTree>, k: nat)
    requires Row(freq, final) && k <= |final| && forall x :: x in final ==> x.Pair?
    ensures Distinct(final[..k]) && forall x :: x in final[..k] ==> x.Pair? && Grounded(freq, x)
  {
    forall x | x in final[..k] ensures x in final {}
  }

  lemma CountsAgree(freq: seq<nat>, chosen: seq<CoinTree>, lengths: seq<nat>, maxLen: nat)
    requires Distinct(chosen) && |lengths| == |freq|
    requires forall x :: x in chosen ==> x.Pair? && Grounded(freq, x)
    requires forall s :: 0 <= s < |freq| ==> lengths[s] == CountIn(chosen, s)
    requires forall s: nat :: CountIn(Unpair(chosen), s) <= maxLen
    ensures forall s :: 0 <= s < |freq| ==> lengths[s] == CountIn(Unpair(chosen), s) <= maxLen
    ensures forall s :: 0 <= s < |freq| && freq[s] == 0 ==> lengths[s] == 0
  {
    forall s | 0 <= s < |freq|
      ensures lengths[s] == CountIn(Unpair(chosen), s) && (freq[s] == 0 ==> lengths[s] == 0)
    {
      CountSplits(chosen, s);
      if freq[s] == 0 { AbsentNeverCounted(freq, chosen, s); }
    }
  }

  lemma KraftFromWorth(freq: seq<nat>, lengths: seq<nat>, maxLen: nat, coins: seq<CoinTree>, n: nat)
    requires |lengths| == |freq| && maxLen >= 1 && 2 <= n == |Singles(freq, |freq|)|
    requires forall s :: 0 <= s < |freq| ==> lengths[s] == CountIn(coins, s) <= maxLen
    requires forall s :: 0 <= s < |freq| && freq[s] == 0 ==> lengths[s] == 0
    requires |coins| == 2 * (n - 1) && TotalWorth(maxLen - 1, coins, |freq|) == Pow2(maxLen - 1) * |coins|
    ensures CompleteLengths(lengths, maxLen)
    ensures forall s :: 0 <= s < |freq| ==> (freq[s] > 0 <==> lengths[s] > 0)
  {
    hide KraftTo, PresentKraft, TotalWorth, CountIn;
    WorthIsKraft(freq, lengths, maxLen, coins, |freq|);
    var p := Pow2(maxLen);
    assert Pow2(maxLen - 1) * (2 * (n - 1)) == (n - 1) * p;
    assert n * p == (n - 1) * p + p;
    forall s | 0 <= s < |freq| ensures freq[s] > 0 <==> lengths[s] > 0 {
      if freq[s] > 0 && lengths[s] == 0 { ZeroTooHeavy(freq, lengths, maxLen, |freq|, s); }
    }
    PresentKraftIsKraft(freq, lengths, maxLen, |freq|);
  }

  lemma PrefixIsLightest(freq: seq<nat>, row: seq<CoinTree>, k: nat)
    requires Row(freq, row) && k <= |row|
    ensures LightestOf(freq, row, row[..k])
  {
    forall x, y | x in row[..k] && y in row && Weight(freq, y) < Weight(freq, x)
      ensures y in row[..k]
    {
      var i: nat :| i < k && row[i] == x;
      var j: nat :| j < |row| && row[j] == y;
      LighterIsEarlier(freq, row, j, i);
      assert y == row[..k][j];
    }
  }

  lemma {:induction false} NoOnes(chosen: seq<CoinTree>)
    requires forall x :: x in chosen ==> x.Pair?
    ensures Ones(chosen) == 0
  {
    if chosen != [] {
      assert chosen[0] in chosen;
      NoOnes(chosen[1..]);
    }
  }
}
