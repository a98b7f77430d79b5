/** Length-limited Huffman code lengths by the package-merge algorithm (lodepng.c:738-855), with exact weights. */
module PackageMerge {
  import opened Bits
  import opened Canonical
  import opened Coins
  import opened PackageMinimum

  /** The coins a row is made of, beside what the proof knows about how they came about. */
  ghost predicate Shows(freq: seq<nat>, coins: seq<Coin>, trees: seq<CoinTree>) {
    && |coins| == |trees|
    && (forall i :: 0 <= i < |coins| ==>
          coins[i].symbols == Leaves(trees[i]) && coins[i].weight == Weight(freq, trees[i]))
  }

  /** One coin for every symbol that occurs. */
  method AppendSymbolCoins(coins: seq<Coin>, frequencies: seq<nat>, ghost trees: seq<CoinTree>)
    returns (all: seq<Coin>, ghost allTrees: seq<CoinTree>)
    requires Shows(frequencies, coins, trees)
    ensures Shows(frequencies, all, allTrees)
    ensures allTrees == trees + Singles(frequencies, |frequencies|)
  {
    all, allTrees := coins, trees;
    for i := 0 to |frequencies|
      invariant Shows(frequencies, all, allTrees)
      invariant allTrees == trees + Singles(frequencies, i)
    {
      if frequencies[i] != 0 {
        all := all + [Coin([i], frequencies[i])];
        allTrees := allTrees + [One(i)];
      }
    }
  }

  lemma LightestExists(coins: seq<Coin>)
    requires coins != []
    ensures exists i :: 0 <= i < |coins| && Lightest(coins, i)
  {
    if |coins| > 1 {
      LightestExists(coins[1..]);
      var i :| 0 <= i < |coins| - 1 && Lightest(coins[1..], i);
      var k := if coins[0].weight <= coins[1..][i].weight then 0 else i + 1;
      forall j | 0 <= j < |coins| ensures coins[k].weight <= coins[j].weight {
        if j > 0 { assert coins[j] == coins[1..][j - 1]; }
      }
      assert Lightest(coins, k);
    } else {
      assert Lightest(coins, 0);
    }
  }

  predicate Lightest(coins: seq<Coin>, i: nat)
    requires i < |coins|
  {
    forall j :: 0 <= j < |coins| ==> coins[i].weight <= coins[j].weight
  }

  /** The library sort. Which of several equally light coins comes first is left open, as it is in the source. */
  method SortCoins(coins: seq<Coin>, ghost freq: seq<nat>, ghost trees: seq<CoinTree>)
    returns (sorted: seq<Coin>, ghost sortedTrees: seq<CoinTree>)
    requires Shows(freq, coins, trees)
    ensures Shows(freq, sorted, sortedTrees)
    ensures multiset(sortedTrees) == multiset(trees) && Ascending(freq, sortedTrees)
    ensures |sorted| == |coins|
  {
    var rest := coins;
    ghost var restTrees := trees;
    sorted, sortedTrees := [], [];
    while rest != []
      invariant |sorted| + |rest| == |coins|
      invariant multiset(sortedTrees) + multiset(restTrees) == multiset(trees)
      invariant PartlySorted(freq, sorted, sortedTrees, rest, restTrees)
      decreases |rest|
    {
      LightestExists(rest);
      var i :| 0 <= i < |rest| && Lightest(rest, i);
      SortStep(freq, sorted, sortedTrees, rest, restTrees, i);
      sorted, sortedTrees := sorted + [rest[i]], sortedTrees + [restTrees[i]];
      rest, restTrees := rest[..i] + rest[i + 1..], restTrees[..i] + restTrees[i + 1..];
    }
  }

  ghost predicate PartlySorted(freq: seq<nat>, sorted: seq<Coin>, sortedTrees: seq<CoinTree>,
                               rest: seq<Coin>, restTrees: seq<CoinTree>) {
    && Shows(freq, rest, restTrees) && Shows(freq, sorted, sortedTrees)
    && Ascending(freq, sortedTrees)
    && (forall i, j :: 0 <= i < |sorted| && 0 <= j < |rest| ==> sorted[i].weight <= rest[j].weight)
  }

  lemma SortStep(freq: seq<nat>, sorted: seq<Coin>, sortedTrees: seq<CoinTree>,
                 rest: seq<Coin>, restTrees: seq<CoinTree>, i: nat)
    requires PartlySorted(freq, sorted, sortedTrees, rest, restTrees)
    requires i < |rest| && Lightest(rest, i)
    ensures PartlySorted(freq, sorted + [rest[i]], sortedTrees + [restTrees[i]],
                         rest[..i] + rest[i + 1..], restTrees[..i] + restTrees[i + 1..])
    ensures multiset(sortedTrees + [restTrees[i]]) + multiset(restTrees[..i] + restTrees[i + 1..])
         == multiset(sortedTrees) + multiset(restTrees)
  {
    hide PartlySorted;
    RestLength(freq, sorted, sortedTrees, rest, restTrees);
    OneMoved(sortedTrees, restTrees, i);
    OneMoreSorted(freq, sorted, sortedTrees, rest, restTrees, i);
  }

  lemma RestLength(freq: seq<nat>, sorted: seq<Coin>, sortedTrees: seq<CoinTree>, rest: seq<Coin>, restTrees: seq<CoinTree>)
    requires PartlySorted(freq, sorted, sortedTrees, rest, restTrees)
    ensures |rest| == |restTrees|
  {
  }

  lemma OneMoved(sorted: seq<CoinTree>, rest: seq<CoinTree>, i: nat)
    requires i < |rest|
    ensures multiset(sorted + [rest[i]]) + multiset(rest[..i] + rest[i + 1..]) == multiset(sorted) + multiset(rest)
  {
    assert rest == rest[..i] + [rest[i]] + rest[i + 1..];
  }

  lemma OneMoreSorted(freq: seq<nat>, sorted: seq<Coin>, sortedTrees: seq<CoinTree>,
                      rest: seq<Coin>, restTrees: seq<CoinTree>, i: nat)
    requires PartlySorted(freq, sorted, sortedTrees, rest, restTrees)
    requires i < |rest| && Lightest(rest, i)
    ensures PartlySorted(freq, sorted + [rest[i]], sortedTrees + [restTrees[i]],
                         rest[..i] + rest[i + 1..], restTrees[..i] + restTrees[i + 1..])
  {
    hide Weight, Leaves;
  }

  /** Merging neighbours of the previous row. */
  method MergeCoins(prev: seq<Coin>, ghost freq: seq<nat>, ghost trees: seq<CoinTree>)
    returns (merged: seq<Coin>, ghost mergedTrees: seq<CoinTree>)
    requires Shows(freq, prev, trees)
    ensures Shows(freq, merged, mergedTrees)
    ensures mergedTrees == Merge(trees)
  {
    merged, mergedTrees := [], [];
    var i := 0;
    while i + 1 < |prev|
      invariant 0 <= i <= |prev|
      invariant Shows(freq, merged, mergedTrees)
      invariant mergedTrees + Merge(trees[i..]) == Merge(trees)
    {
      merged := merged + [Coin(prev[i].symbols + prev[i + 1].symbols, prev[i].weight + prev[i + 1].weight)];
      assert trees[i..][2..] == trees[i + 2..];
      mergedTrees := mergedTrees + [Pair(trees[i], trees[i + 1])];
      i := i + 2;
    }
  }

  /** A code within the limit has room for the symbols that occur. */
  ghost predicate FitsLimit(frequencies: seq<nat>, maxbitlen: nat) {
    maxbitlen >= 1 && |Singles(frequencies, |frequencies|)| <= Pow2(maxbitlen)
  }

  /**
   * All rows. No row ever holds as many as twice the coins there are symbols, and if the symbols
   * fit, the last one still holds a coin less than there are symbols.
   */
  method BuildRows(frequencies: seq<nat>, numpresent: nat, maxbitlen: nat)
    returns (coins: seq<Coin>, ghost rows: seq<seq<CoinTree>>, ghost final: seq<CoinTree>)
    requires numpresent == |Singles(frequencies, |frequencies|)| >= 2
    ensures maxbitlen >= 1 ==>
      && |rows| == maxbitlen && Rows(frequencies, rows)
      && Follows(frequencies, rows[maxbitlen - 1], final, true) && Ascending(frequencies, final)
    ensures Shows(frequencies, coins, final) && Row(frequencies, final)
    ensures FitsLimit(frequencies, maxbitlen) ==> numpresent - 1 <= |coins|
    ensures |coins| < 2 * numpresent && forall j :: 0 <= j < |rows| ==> |rows[j]| < 2 * numpresent
  {
    hide Follows, Row, Ascending, Shows, Rows, Pow2, FitsLimit, Singles;
    FitsIs(frequencies, maxbitlen);
    NothingShown(frequencies);
    coins, final := AppendSymbolCoins([], frequencies, []);
    coins, final := SortCoins(coins, frequencies, final);
    ShownSize(frequencies, coins, final);
    FirstRows(frequencies, final);
    rows := [final];
    if maxbitlen == 0 { return; }
    ghost var fits := FitsLimit(frequencies, maxbitlen);
    for j := 1 to maxbitlen
      invariant |rows| == j && Rows(frequencies, rows) && final == rows[j - 1]
      invariant Shows(frequencies, coins, final) && Row(frequencies, final) && |coins| == |final|
      invariant numpresent <= |coins| < 2 * numpresent
      invariant fits ==> 2 * numpresent <= |coins| + Pow2(maxbitlen - j + 1)
      invariant forall k :: 0 <= k < |rows| ==> |rows[k]| < 2 * numpresent
    {
      coins, final := NextRow(coins, frequencies, final, false);
      ShownSize(frequencies, coins, final);
      MoreRows(frequencies, rows, final);
      rows := rows + [final];
      HalfPower(maxbitlen - j);
    }
    HalfPower(0);
    coins, final := NextRow(coins, frequencies, final, true);
  }

  lemma FitsIs(frequencies: seq<nat>, maxbitlen: nat)
    ensures FitsLimit(frequencies, maxbitlen) <==> maxbitlen >= 1 && |Singles(frequencies, |frequencies|)| <= Pow2(maxbitlen)
  {
  }

  lemma NothingShown(freq: seq<nat>)
    ensures Shows(freq, [], [])
  {
  }

  lemma ShownSize(freq: seq<nat>, coins: seq<Coin>, trees: seq<CoinTree>)
    requires Shows(freq, coins, trees)
    ensures |coins| == |trees|
  {
  }

  lemma HalfPower(k: nat)
    ensures Pow2(0) == 1 && Pow2(k + 1) == 2 * Pow2(k)
  {
  }

  lemma FirstRows(freq: seq<nat>, row: seq<CoinTree>)
    requires multiset(row) == multiset(Singles(freq, |freq|)) && Ascending(freq, row)
    ensures Rows(freq, [row]) && Row(freq, row)
  {
    FirstRow(freq, row);
  }

  lemma MoreRows(freq: seq<nat>, rows: seq<seq<CoinTree>>, row: seq<CoinTree>)
    requires Rows(freq, rows) && Row(freq, row) && Follows(freq, rows[|rows| - 1], row, false)
    ensures Rows(freq, rows + [row])
  {
    hide Row, Follows;
  }

  /** The coins of the next row: the merged ones and, unless it is the last, a single for every symbol. */
  method NextRow(prev: seq<Coin>, frequencies: seq<nat>, ghost prevTrees: seq<CoinTree>, last: bool)
    returns (coins: seq<Coin>, ghost trees: seq<CoinTree>)
    requires Shows(frequencies, prev, prevTrees) && Row(frequencies, prevTrees)
    ensures Shows(frequencies, coins, trees) && Row(frequencies, trees) && Ascending(frequencies, trees)
    ensures Follows(frequencies, prevTrees, trees, last)
    ensures |coins| == |prev| / 2 + if last then 0 else |Singles(frequencies, |frequencies|)|
  {
    MergeSize(prevTrees);
    coins, trees := MergeCoins(prev, frequencies, prevTrees);
    if !last { coins, trees := AppendSymbolCoins(coins, frequencies, trees); }
    coins, trees := SortCoins(coins, frequencies, trees);
    RowFollows(frequencies, prevTrees, trees, last);
  }

  /** Adds one to the length of every symbol of a coin, as often as it occurs there. */
  method CountCoin(lengths: array<nat>, symbols: seq<nat>, ghost tree: CoinTree)
    requires symbols == Leaves(tree) && forall k :: 0 <= k < |symbols| ==> symbols[k] < lengths.Length
    modifies lengths
    ensures forall s :: 0 <= s < lengths.Length ==> lengths[s] == old(lengths[s]) + Occurrences(tree, s)
  {
    for j := 0 to |symbols|
      invariant forall s :: 0 <= s < lengths.Length ==> lengths[s] == old(lengths[s]) + CountUpTo(symbols, s, j)
    {
      lengths[symbols[j]] := lengths[symbols[j]] + 1;
    }
    forall s | 0 <= s < lengths.Length
      ensures CountUpTo(symbols, s, |symbols|) == Occurrences(tree, s)
    {
      LeavesCount(tree, s);
    }
  }

  lemma {:induction false} LeavesCount(t: CoinTree, s: nat)
    ensures CountUpTo(Leaves(t), s, |Leaves(t)|) == Occurrences(t, s)
  {
    match t
    case One(a) =>
      assert CountUpTo([a], s, 1) == CountUpTo([a], s, 0) + B2N(a == s);
    case Pair(l, r) =>
      LeavesCount(l, s);
      LeavesCount(r, s);
      CountConcat(Leaves(l), Leaves(r), s, |Leaves(r)|);
  }

  lemma {:induction false} LeavesInRange(freq: seq<nat>, t: CoinTree)
    requires Grounded(freq, t)
    ensures forall k :: 0 <= k < |Leaves(t)| ==> Leaves(t)[k] < |freq|
  {
    if t.Pair? {
      LeavesInRange(freq, t.left);
      LeavesInRange(freq, t.right);
    }
  }

  method CountPresent(frequencies: seq<nat>) returns (numpresent: nat)
    ensures numpresent == |Singles(frequencies, |frequencies|)|
  {
    numpresent := 0;
    for i := 0 to |frequencies|
      invariant numpresent == |Singles(frequencies, i)|
    {
      if frequencies[i] > 0 { numpresent := numpresent + 1; }
    }
  }

  /** A complete code within the limit, with a code for every symbol that occurs. */
  predicate CodesAll(frequencies: seq<nat>, lengths: seq<nat>, maxbitlen: nat) {
    |frequencies| == |lengths| && CompleteLengths(lengths, maxbitlen)
    && forall s :: 0 <= s < |lengths| && frequencies[s] > 0 ==> lengths[s] > 0
  }

  lemma {:induction false} KraftAtLeast(freq: seq<nat>, lengths: seq<nat>, m: nat, n: nat)
    requires n <= |freq| == |lengths| && LengthsWithin(lengths, m)
    requires forall s :: 0 <= s < |lengths| && freq[s] > 0 ==> lengths[s] > 0
    ensures |Singles(freq, n)| <= KraftTo(lengths, m, m, n)
    ensures m == 0 ==> KraftTo(lengths, m, m, n) == 0
  {
    if n > 0 { KraftAtLeast(freq, lengths, m, n - 1); }
  }

  /** Only symbols that fit the limit can all be given codes within it. */
  lemma CodesAllFits(frequencies: seq<nat>, lengths: seq<nat>, maxbitlen: nat)
    requires CodesAll(frequencies, lengths, maxbitlen)
    ensures FitsLimit(frequencies, maxbitlen)
  {
    KraftAtLeast(frequencies, lengths, maxbitlen, |lengths|);
  }

  /**
   * Code lengths for the given frequencies. The code is complete, within the limit, and has every symbol that
   * occurs exactly if the limit leaves room for them; then no code within the limit costs less, however the
   * sort orders coins of equal weight. In an alphabet of one symbol a second length is written past the end.
   */
  method HuffmanCodeLengths(frequencies: seq<nat>, maxbitlen: nat) returns (error: nat, lengths: seq<nat>)
    ensures error == if |frequencies| == 0 then 80 else if |frequencies| == 1 then OUT_OF_BOUNDS else 0
    ensures error == 0 ==> |lengths| == |frequencies|
    ensures error == 0 ==> (CodesAll(frequencies, lengths, maxbitlen) <==> FitsLimit(frequencies, maxbitlen))
    ensures error == 0 && FitsLimit(frequencies, maxbitlen) && |Singles(frequencies, |frequencies|)| >= 2 ==>
      forall s :: 0 <= s < |lengths| ==> (frequencies[s] > 0 <==> lengths[s] > 0)
    ensures error == 0 && FitsLimit(frequencies, maxbitlen) ==> Cheapest(frequencies, lengths, maxbitlen)
  {
    lengths := [];
    if |frequencies| == 0 { return 80, lengths; }
    var numpresent := CountPresent(frequencies);
    if numpresent < 2 {
      error, lengths := OneBitLengths(frequencies, numpresent, maxbitlen);
    } else {
      FewSingles(frequencies, |frequencies|);
      lengths := PackageMerge(frequencies, numpresent, maxbitlen);
      error := 0;
    }
    if error == 0 && CodesAll(frequencies, lengths, maxbitlen) { CodesAllFits(frequencies, lengths, maxbitlen); }
  }

  lemma {:induction false} FewSingles(freq: seq<nat>, n: nat)
    requires n <= |freq|
    ensures |Singles(freq, n)| <= n
  {
    if n > 0 { FewSingles(freq, n - 1); }
  }

  /** Fewer than two symbols occur: two symbols get one bit each. */
  method OneBitLengths(frequencies: seq<nat>, numpresent: nat, maxbitlen: nat) returns (error: nat, lengths: seq<nat>)
    requires |frequencies| > 0 && numpresent == |Singles(frequencies, |frequencies|)| < 2
    ensures error == if |frequencies| == 1 then OUT_OF_BOUNDS else 0
    ensures error == 0 && maxbitlen >= 1 ==> CodesAll(frequencies, lengths, maxbitlen)
    ensures error == 0 ==> |lengths| == |frequencies| && Cheapest(frequencies, lengths, maxbitlen)
  {
    hide Cheapest;
    var numcodes := |frequencies|;
    if numcodes == 1 { return OUT_OF_BOUNDS, []; }
    error := 0;
    if numpresent == 0 {
      lengths := [1, 1] + seq(numcodes - 2, _ => 0);
      if maxbitlen >= 1 { TwoOnes(lengths, maxbitlen, 0, 1, numcodes); }
      forall s | 0 <= s < numcodes ensures frequencies[s] == 0 {
        InSingles(frequencies, numcodes, One(s));
      }
    } else {
      var i := 0;
      while frequencies[i] == 0
        invariant i < numcodes && |Singles(frequencies, i)| == 0
        decreases numcodes - i
      {
        assert |Singles(frequencies, i + 1)| == 0;
        i := i + 1;
      }
      var other := if i == 0 then 1 else 0;
      lengths := seq(numcodes, _ => 0)[i := 1][other := 1];
      if maxbitlen >= 1 { TwoOnes(lengths, maxbitlen, i, other, numcodes); }
      forall s | 0 <= s < numcodes && frequencies[s] > 0 ensures s == i {
        OnlySingle(frequencies, numcodes, s, i);
      }
    }
    OneBitCheapest(frequencies, lengths, maxbitlen);
  }

  /** The code with two symbols of one bit each. */
  lemma {:induction false} TwoOnes(lengths: seq<nat>, maxLen: nat, a: nat, b: nat, n: nat)
    requires n <= |lengths| && a < |lengths| && b < |lengths| && a != b && maxLen >= 1
    requires forall s :: 0 <= s < |lengths| ==> lengths[s] == if s == a || s == b then 1 else 0
    ensures KraftTo(lengths, maxLen, maxLen, n) == Pow2(maxLen - 1) * (B2N(a < n) + B2N(b < n))
  {
    if n > 0 { TwoOnes(lengths, maxLen, a, b, n - 1); }
  }

  lemma OnlySingle(freq: seq<nat>, n: nat, a: nat, b: nat)
    requires n == |freq| && |Singles(freq, n)| == 1
    requires a < n && b < n && freq[a] > 0 && freq[b] > 0
    ensures a == b
  {
    InSingles(freq, n, One(a));
    InSingles(freq, n, One(b));
  }

  /** The general case: at least two symbols occur. Coins past the last row are empty. */
  method PackageMerge(frequencies: seq<nat>, numpresent: nat, maxbitlen: nat) returns (lengths: seq<nat>)
    requires numpresent == |Singles(frequencies, |frequencies|)| >= 2
    ensures |lengths| == |frequencies|
    ensures FitsLimit(frequencies, maxbitlen) ==>
      && CodesAll(frequencies, lengths, maxbitlen) && Cheapest(frequencies, lengths, maxbitlen)
      && forall s :: 0 <= s < |lengths| ==> (frequencies[s] > 0 <==> lengths[s] > 0)
  {
    hide Cheapest, Rows, Row, Follows, Shows, CompleteLengths;
    var coins;
    ghost var rows, final;
    coins, rows, final := BuildRows(frequencies, numpresent, maxbitlen);
    ShownSize(frequencies, coins, final);
    var counts := new nat[|frequencies|](_ => 0);
    for i := 0 to numpresent - 1
      invariant forall s :: 0 <= s < |frequencies| ==> counts[s] == CountIn(final[..if i < |final| then i else |final|], s)
    {
      if i < |coins| {
        OneCoin(frequencies, coins, final, i);
        CountCoin(counts, coins[i].symbols, final[i]);
      }
    }
    lengths := counts[..];
    if FitsLimit(frequencies, maxbitlen) {
      LengthsComplete(frequencies, rows, final, lengths);
      LengthsCheapest(frequencies, rows, final, lengths);
    }
  }

  lemma OneCoin(freq: seq<nat>, coins: seq<Coin>, row: seq<CoinTree>, i: nat)
    requires Shows(freq, coins, row) && Row(freq, row) && i < |coins|
    ensures i < |row| && coins[i].symbols == Leaves(row[i])
    ensures forall k :: 0 <= k < |Leaves(row[i])| ==> Leaves(row[i])[k] < |freq|
    ensures forall s: nat :: CountIn(row[..i + 1], s) == CountIn(row[..i], s) + Occurrences(row[i], s)
  {
    hide CountIn;
    assert row[i] in row;
    LeavesInRange(freq, row[i]);
    assert row[..i + 1] == row[..i] + [row[i]];
    forall s: nat ensures CountIn(row[..i + 1], s) == CountIn(row[..i], s) + Occurrences(row[i], s) {
      CountInAppend(row[..i], row[i], s);
    }
  }
}
