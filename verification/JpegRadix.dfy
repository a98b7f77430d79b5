/** The stable radix sort of symbol frequencies (compositor/jpge.cpp:143-160). */
module JpegRadix {
  import opened Bits

  /** sym_freq. */
  datatype SymFreq = SymFreq(key: nat, sym_index: nat)

  function Pow256(p: nat): (r: nat)
    requires p <= 4
    ensures r > 0
  {
    if p == 0 then 1 else if p == 1 then 256 else if p == 2 then 0x1_0000 else if p == 3 then 0x100_0000 else 0x1_0000_0000
  }

  /** Byte p of a key, and its value below that byte. */
  function Digit(key: nat, p: nat): (d: nat)
    requires p < 4
    ensures d < 256
  {
    key / Pow256(p) % 256
  }

  function Low(key: nat, p: nat): nat
    requires p <= 4
  {
    key % Pow256(p)
  }

  lemma LowNext(key: nat, p: nat)
    requires p < 4
    ensures Low(key, p + 1) == Digit(key, p) * Pow256(p) + Low(key, p) && Low(key, p) < Pow256(p)
  {
    var q := key / Pow256(p);
    assert key == q * Pow256(p) + key % Pow256(p);
    var h := q / 256;
    assert q == h * 256 + q % 256;
    if p == 0 {
    } else if p == 1 {
      DivUnique(key, 0x1_0000, h, q % 256 * 256 + key % 256);
    } else if p == 2 {
      DivUnique(key, 0x100_0000, h, q % 256 * 0x1_0000 + key % 0x1_0000);
    } else {
      DivUnique(key, 0x1_0000_0000, h, q % 256 * 0x100_0000 + key % 0x100_0000);
    }
  }

  /** The symbols with one digit, in order. */
  function Bucket(s: seq<SymFreq>, p: nat, d: nat): (r: seq<SymFreq>)
    requires p < 4
    ensures forall x :: x in r ==> x in s && Digit(x.key, p) == d
  {
    if s == [] then []
    else Bucket(s[..|s| - 1], p, d) + (if Digit(s[|s| - 1].key, p) == d then [s[|s| - 1]] else [])
  }

  /** The buckets of the digits below n, one after the other. */
  function Buckets(s: seq<SymFreq>, p: nat, n: nat): seq<SymFreq>
    requires p < 4
  {
    if n == 0 then [] else Buckets(s, p, n - 1) + Bucket(s, p, n - 1)
  }

  /** Ascending by the key below byte p, symbols of equal value in the order of their indices. */
  ghost predicate SortedTo(s: seq<SymFreq>, p: nat)
    requires p <= 4
  {
    forall i, j :: 0 <= i < j < |s| ==> Before(s[i], s[j], p)
  }

  ghost predicate Before(x: SymFreq, y: SymFreq, p: nat)
    requires p <= 4
  {
    Low(x.key, p) < Low(y.key, p) || (Low(x.key, p) == Low(y.key, p) && x.sym_index < y.sym_index)
  }

  lemma {:induction false} BucketSorted(s: seq<SymFreq>, p: nat, d: nat)
    requires p < 4 && SortedTo(s, p)
    ensures SortedTo(Bucket(s, p, d), p + 1)
  {
    hide Digit, Low, Before;
    if s != [] {
      var front, last := s[..|s| - 1], s[|s| - 1];
      BucketSorted(front, p, d);
      if Digit(last.key, p) == d {
        forall x | x in Bucket(front, p, d) ensures Before(x, last, p + 1) {
          var i :| 0 <= i < |front| && front[i] == x;
          assert Before(s[i], s[|s| - 1], p);
          SameDigit(x, last, p);
        }
        SortedPush(Bucket(front, p, d), last, p + 1);
      }
    }
  }

  lemma SameDigit(x: SymFreq, y: SymFreq, p: nat)
    requires p < 4 && Before(x, y, p) && Digit(x.key, p) == Digit(y.key, p)
    ensures Before(x, y, p + 1)
  {
    hide Digit, Low;
    LowNext(x.key, p);
    LowNext(y.key, p);
  }

  lemma SortedPush(s: seq<SymFreq>, x: SymFreq, p: nat)
    requires p <= 4 && SortedTo(s, p) && forall y :: y in s ==> Before(y, x, p)
    ensures SortedTo(s + [x], p)
  {
    hide Before;
    var all := s + [x];
    forall i, j | 0 <= i < j < |all| ensures Before(all[i], all[j], p) {
      if j < |s| { assert Before(s[i], s[j], p); } else { assert all[i] in s; }
    }
  }

  /** One pass sorts by one more byte. */
  lemma {:induction false} BucketsSorted(s: seq<SymFreq>, p: nat, n: nat)
    requires p < 4 && SortedTo(s, p)
    ensures SortedTo(Buckets(s, p, n), p + 1)
    ensures forall x :: x in Buckets(s, p, n) ==> Digit(x.key, p) < n
  {
    hide Digit, Low, Bucket, SortedTo;
    if n > 0 {
      var a, b := Buckets(s, p, n - 1), Bucket(s, p, n - 1);
      BucketsSorted(s, p, n - 1);
      BucketSorted(s, p, n - 1);
      JoinSorted(a, b, p, n - 1);
      assert Buckets(s, p, n) == a + b;
    } else {
      NothingSorted(Buckets(s, p, 0), p + 1);
    }
  }

  lemma NothingSorted(s: seq<SymFreq>, p: nat)
    requires p <= 4 && s == []
    ensures SortedTo(s, p)
  {
  }

  lemma JoinSorted(a: seq<SymFreq>, b: seq<SymFreq>, p: nat, d: nat)
    requires p < 4 && SortedTo(a, p + 1) && SortedTo(b, p + 1)
    requires (forall x :: x in a ==> Digit(x.key, p) < d) && forall x :: x in b ==> Digit(x.key, p) == d
    ensures SortedTo(a + b, p + 1)
  {
    hide Digit, Low;
    var s := a + b;
    forall i, j | 0 <= i < j < |s| ensures Before(s[i], s[j], p + 1) {
      if i < |a| <= j {
        assert s[i] in a && s[j] in b;
        SmallerDigit(s[i].key, s[j].key, p);
      }
    }
  }

  lemma SmallerDigit(x: nat, y: nat, p: nat)
    requires p < 4 && Digit(x, p) < Digit(y, p)
    ensures Low(x, p + 1) < Low(y, p + 1)
  {
    hide Digit, Low;
    LowNext(x, p);
    LowNext(y, p);
    var d := Digit(y, p) - Digit(x, p) - 1;
    assert Digit(y, p) * Pow256(p) == (Digit(x, p) + 1 + d) * Pow256(p);
    assert (Digit(x, p) + 1 + d) * Pow256(p) == Digit(x, p) * Pow256(p) + Pow256(p) + d * Pow256(p);
  }

  /** The symbol again, if its byte is below n. */
  ghost function OnceBelow(d: nat, n: nat, x: SymFreq): multiset<SymFreq> { if d < n then multiset{x} else multiset{} }

  lemma {:induction false} BucketsPush(s: seq<SymFreq>, x: SymFreq, p: nat, n: nat)
    requires p < 4
    ensures multiset(Buckets(s + [x], p, n)) == multiset(Buckets(s, p, n)) + OnceBelow(Digit(x.key, p), n, x)
  {
    hide Digit, Bucket, Buckets, OnceBelow;
    if n > 0 {
      BucketsPush(s, x, p, n - 1);
      BucketOneMore(s, x, p, n - 1);
      BucketsLast(s, p, n);
      BucketsLast(s + [x], p, n);
      JoinPush(Buckets(s, p, n - 1), Buckets(s + [x], p, n - 1), Bucket(s, p, n - 1), Bucket(s + [x], p, n - 1), x, Digit(x.key, p), n);
    } else {
      NoneYet(s, x, p);
    }
  }

  lemma JoinPush(a: seq<SymFreq>, a': seq<SymFreq>, b: seq<SymFreq>, b': seq<SymFreq>, x: SymFreq, d: nat, n: nat)
    requires n > 0 && multiset(a') == multiset(a) + OnceBelow(d, n - 1, x) && b' == b + if d == n - 1 then [x] else []
    ensures multiset(a' + b') == multiset(a + b) + OnceBelow(d, n, x)
  {
    if d == n - 1 {
      assert multiset(b') == multiset(b) + multiset{x};
    } else {
      assert b' == b;
    }
  }

  lemma NoneYet(s: seq<SymFreq>, x: SymFreq, p: nat)
    requires p < 4
    ensures Buckets(s, p, 0) == [] && Buckets(s + [x], p, 0) == [] && OnceBelow(Digit(x.key, p), 0, x) == multiset{}
  {
    hide Digit;
  }

  lemma BucketsLast(s: seq<SymFreq>, p: nat, n: nat)
    requires p < 4 && n > 0
    ensures Buckets(s, p, n) == Buckets(s, p, n - 1) + Bucket(s, p, n - 1)
  {
    hide Bucket;
  }

  lemma BucketOneMore(s: seq<SymFreq>, x: SymFreq, p: nat, d: nat)
    requires p < 4
    ensures Bucket(s + [x], p, d) == Bucket(s, p, d) + if Digit(x.key, p) == d then [x] else []
  {
    hide Digit;
    assert (s + [x])[..|s|] == s;
  }

  /** A pass loses nothing. */
  lemma {:induction false} BucketsKeep(s: seq<SymFreq>, p: nat)
    requires p < 4
    ensures multiset(Buckets(s, p, 256)) == multiset(s)
  {
    if s == [] {
      NoBuckets(p, 256);
    } else {
      var front, last := s[..|s| - 1], s[|s| - 1];
      BucketsKeep(front, p);
      BucketsPush(front, last, p, 256);
      assert s == front + [last];
    }
  }

  lemma {:induction false} NoBuckets(p: nat, n: nat)
    requires p < 4
    ensures Buckets([], p, n) == []
  {
    if n > 0 { NoBuckets(p, n - 1); }
  }

  // ---- One pass ----

  function Start(s: seq<SymFreq>, p: nat, d: nat): nat
    requires p < 4
  {
    |Buckets(s, p, d)|
  }

  lemma {:induction false} StartsApart(s: seq<SymFreq>, p: nat, d: nat, e: nat)
    requires p < 4 && d < e
    ensures Start(s, p, d) + |Bucket(s, p, d)| <= Start(s, p, e)
  {
    if d + 1 < e { StartsApart(s, p, d, e - 1); }
  }

  lemma {:induction false} BucketPrefix(s: seq<SymFreq>, p: nat, d: nat, i: nat)
    requires p < 4 && i <= |s|
    ensures |Bucket(s[..i], p, d)| <= |Bucket(s, p, d)|
    decreases |s|
  {
    hide Digit;
    if i < |s| {
      assert s[..|s| - 1][..i] == s[..i];
      BucketPrefix(s[..|s| - 1], p, d, i);
    } else {
      assert s[..i] == s;
    }
  }

  lemma BucketPush(s: seq<SymFreq>, i: nat, p: nat, d: nat)
    requires p < 4 && i < |s|
    ensures Bucket(s[..i + 1], p, d) == Bucket(s[..i], p, d) + if Digit(s[i].key, p) == d then [s[i]] else []
  {
    assert s[..i + 1][..i] == s[..i];
  }

  lemma {:induction false} BucketsSize(s: seq<SymFreq>, p: nat)
    requires p < 4
    ensures |Buckets(s, p, 256)| == |s|
  {
    BucketsKeep(s, p);
    assert |multiset(Buckets(s, p, 256))| == |multiset(s)|;
  }

  /** The first i symbols with digit d are in place. */
  ghost predicate BucketPlaced(now: seq<SymFreq>, s: seq<SymFreq>, p: nat, i: nat, d: nat) {
    && p < 4 && i <= |s| && Start(s, p, d) + |Bucket(s[..i], p, d)| <= |now|
    && now[Start(s, p, d)..Start(s, p, d) + |Bucket(s[..i], p, d)|] == Bucket(s[..i], p, d)
  }

  ghost predicate Placed(now: seq<SymFreq>, s: seq<SymFreq>, p: nat, i: nat) {
    forall d: nat {:trigger BucketPlaced(now, s, p, i, d)} :: d < 256 ==> BucketPlaced(now, s, p, i, d)
  }

  lemma PlaceStep(now: seq<SymFreq>, s: seq<SymFreq>, p: nat, i: nat)
    requires p < 4 && i < |s| <= |now| && Placed(now, s, p, i)
    ensures
      var d := Digit(s[i].key, p);
      var at := Start(s, p, d) + |Bucket(s[..i], p, d)|;
      at < |s| && Placed(now[at := s[i]], s, p, i + 1)
  {
    hide Digit, Bucket, Buckets;
    var d := Digit(s[i].key, p);
    var at := Start(s, p, d) + |Bucket(s[..i], p, d)|;
    BucketPush(s, i, p, d);
    BucketPrefix(s, p, d, i + 1);
    StartsApart(s, p, d, 256);
    BucketsSize(s, p);
    var after, next := now[at := s[i]], i + 1;
    forall e: nat | e < 256 ensures BucketPlaced(after, s, p, next, e) {
      assert BucketPlaced(now, s, p, i, e);
      BucketPush(s, i, p, e);
      BucketPrefix(s, p, e, i);
      if e < d { StartsApart(s, p, e, d); }
      if d < e { StartsApart(s, p, d, e); }
      PlaceOne(now, s[i], at, Start(s, p, e), Bucket(s[..i], p, e), e == d);
    }
  }

  lemma PlaceOne(now: seq<SymFreq>, x: SymFreq, at: nat, start: nat, bucket: seq<SymFreq>, here: bool)
    requires at < |now| && start + |bucket| <= |now| && now[start..start + |bucket|] == bucket
    requires if here then at == start + |bucket| else at < start || start + |bucket| <= at
    ensures here ==> now[at := x][start..start + |bucket| + 1] == bucket + [x]
    ensures !here ==> now[at := x][start..start + |bucket|] == bucket
  {
  }

  lemma {:induction false} AllPlaced(now: seq<SymFreq>, s: seq<SymFreq>, p: nat, n: nat)
    requires p < 4 && n <= 256 && Placed(now, s, p, |s|)
    ensures Start(s, p, n) <= |now| && now[..Start(s, p, n)] == Buckets(s, p, n)
  {
    hide Digit, Bucket;
    assert s[..|s|] == s;
    if n > 0 {
      AllPlaced(now, s, p, n - 1);
      assert BucketPlaced(now, s, p, |s|, n - 1);
      var a, b := Start(s, p, n - 1), Start(s, p, n);
      assert now[..b] == now[..a] + now[a..b];
    }
  }

  /** One pass: the symbols are dealt out to their buckets. */
  method RadixPass(pCur_syms: array<SymFreq>, pNew_syms: array<SymFreq>, num_syms: nat, pass: nat, hist: array<nat>)
    requires pCur_syms != pNew_syms && num_syms <= pCur_syms.Length && num_syms <= pNew_syms.Length && pass < 4
    requires hist.Length == 1024
    requires forall d :: 0 <= d < 256 ==> hist[256 * pass + d] == |Bucket(pCur_syms[..num_syms], pass, d)|
    modifies pNew_syms
    ensures pNew_syms[..num_syms] == Buckets(pCur_syms[..num_syms], pass, 256)
  {
    hide Digit, Bucket, Buckets, Placed;
    ghost var s := pCur_syms[..num_syms];
    var offsets := new nat[256];
    var cur_ofs := 0;
    BucketsNone(s, pass);
    for i := 0 to 256
      invariant cur_ofs == Start(s, pass, i)
      invariant forall d: nat :: d < i ==> offsets[d] == Start(s, pass, d)
    {
      offsets[i] := cur_ofs;
      BucketsNext(s, pass, i);
      cur_ofs := cur_ofs + hist[256 * pass + i];
    }
    NothingPlaced(pNew_syms[..], s, pass);
    for i := 0 to num_syms
      invariant pCur_syms[..num_syms] == s && Placed(pNew_syms[..], s, pass, i)
      invariant forall d: nat :: d < 256 ==> offsets[d] == Start(s, pass, d) + |Bucket(s[..i], pass, d)|
    {
      var digit := Digit(pCur_syms[i].key, pass);
      PlaceStep(pNew_syms[..], s, pass, i);
      ghost var was := pNew_syms[..];
      pNew_syms[offsets[digit]] := pCur_syms[i];
      assert pNew_syms[..] == was[offsets[digit] := s[i]];
      offsets[digit] := offsets[digit] + 1;
      forall d: nat | d < 256 ensures offsets[d] == Start(s, pass, d) + |Bucket(s[..i + 1], pass, d)| { BucketPush(s, i, pass, d); }
    }
    AllPlaced(pNew_syms[..], s, pass, 256);
    BucketsSize(s, pass);
  }

  lemma BucketsNone(s: seq<SymFreq>, p: nat)
    requires p < 4
    ensures Start(s, p, 0) == 0 && forall d :: Bucket([], p, d) == []
  {
  }

  lemma BucketsNext(s: seq<SymFreq>, p: nat, d: nat)
    requires p < 4
    ensures Start(s, p, d + 1) == Start(s, p, d) + |Bucket(s, p, d)|
  {
  }

  lemma NothingPlaced(now: seq<SymFreq>, s: seq<SymFreq>, p: nat)
    requires p < 4 && |s| <= |now|
    ensures Placed(now, s, p, 0) && forall d :: Bucket(s[..0], p, d) == []
  {
    hide Digit, Buckets;
    BucketsSize(s, p);
    forall d: nat | d < 256 ensures BucketPlaced(now, s, p, 0, d) { StartsApart(s, p, d, 256); }
  }

  // ---- The whole sort ----

  /** How often every digit occurs at every byte. */
  ghost predicate Histogram(hist: seq<nat>, s: seq<SymFreq>) {
    && |hist| == 1024
    && forall p: nat, d: nat {:trigger Bucket(s, p, d)} :: p < 4 && d < 256 ==> hist[256 * p + d] == |Bucket(s, p, d)|
  }

  /** While symbol i is counted: bytes below p have it, the others do not. */
  ghost predicate Counting(hist: seq<nat>, s: seq<SymFreq>, i: nat, p: nat) {
    && i < |s| && |hist| == 1024
    && forall q: nat, d: nat {:trigger Bucket(s[..i], q, d)} {:trigger Bucket(s[..i + 1], q, d)} :: q < 4 && d < 256 ==>
         hist[256 * q + d] == if q < p then |Bucket(s[..i + 1], q, d)| else |Bucket(s[..i], q, d)|
  }

  lemma CountStart(hist: seq<nat>, s: seq<SymFreq>, i: nat)
    requires i < |s| && Histogram(hist, s[..i])
    ensures Counting(hist, s, i, 0)
  {
    hide Digit, Bucket;
  }

  lemma CountStep(hist: seq<nat>, s: seq<SymFreq>, i: nat, p: nat)
    requires Counting(hist, s, i, p) && p < 4
    ensures
      var at := 256 * p + Digit(s[i].key, p);
      at < |hist| && Counting(hist[at := hist[at] + 1], s, i, p + 1)
  {
    hide Digit, Bucket;
    forall d: nat | d < 256 ensures Bucket(s[..i + 1], p, d) == Bucket(s[..i], p, d) + (if Digit(s[i].key, p) == d then [s[i]] else []) {
      BucketPush(s, i, p, d);
    }
  }

  lemma CountEnd(hist: seq<nat>, s: seq<SymFreq>, i: nat)
    requires Counting(hist, s, i, 4)
    ensures Histogram(hist, s[..i + 1])
  {
    hide Digit, Bucket;
  }

  method CountDigits(syms: array<SymFreq>, num_syms: nat) returns (hist: array<nat>)
    requires num_syms <= syms.Length
    ensures fresh(hist) && Histogram(hist[..], syms[..num_syms])
  {
    hide Digit, Bucket, Histogram, Counting;
    ghost var s := syms[..num_syms];
    hist := new nat[1024](_ => 0);
    EmptyHistogram(hist[..], s);
    for i := 0 to num_syms
      invariant Histogram(hist[..], s[..i]) && hist.Length == 1024
    {
      var freq := syms[i].key;
      CountStart(hist[..], s, i);
      for p := 0 to 4
        invariant Counting(hist[..], s, i, p) && hist.Length == 1024
      {
        CountStep(hist[..], s, i, p);
        ghost var was := hist[..];
        var at := 256 * p + Digit(freq, p);
        hist[at] := hist[at] + 1;
        assert hist[..] == was[at := was[at] + 1];
      }
      CountEnd(hist[..], s, i);
    }
    assert s[..num_syms] == s;
  }

  lemma EmptyHistogram(hist: seq<nat>, s: seq<SymFreq>)
    requires |hist| == 1024 && forall i :: 0 <= i < 1024 ==> hist[i] == 0
    ensures Histogram(hist, s[..0])
  {
  }

  /** If all symbols are in bucket zero of a byte, the byte can be left out. */
  lemma {:induction false} AllZeroDigit(s: seq<SymFreq>, p: nat)
    requires p < 4
    ensures |Bucket(s, p, 0)| <= |s|
    ensures |Bucket(s, p, 0)| == |s| ==> forall x :: x in s ==> Digit(x.key, p) == 0
  {
    hide Digit;
    if s != [] { AllZeroDigit(s[..|s| - 1], p); }
  }

  ghost predicate KeysBelow(s: seq<SymFreq>, p: nat)
    requires p <= 4
  {
    forall x :: x in s ==> Low(x.key, p) == x.key
  }

  lemma FewerBytes(hist: seq<nat>, s: seq<SymFreq>, p: nat)
    requires p < 4 && Histogram(hist, s) && hist[256 * p] == |s| && KeysBelow(s, p + 1)
    ensures KeysBelow(s, p)
  {
    hide Digit, Low, Bucket;
    assert hist[256 * p + 0] == |Bucket(s, p, 0)|;
    AllZeroDigit(s, p);
    forall x | x in s ensures Low(x.key, p) == x.key { LowNext(x.key, p); }
  }

  /** A histogram does not depend on the order. */
  lemma {:induction false} SameBucketSize(s: seq<SymFreq>, r: seq<SymFreq>, p: nat, d: nat)
    requires p < 4 && multiset(s) == multiset(r)
    ensures |Bucket(s, p, d)| == |Bucket(r, p, d)|
    decreases |s|
  {
    hide Digit, Bucket;
    if s == [] {
      assert |multiset(r)| == 0;
      assert r == s;
    } else {
      var k := WhereIsLast(s, r);
      var front, last := s[..|s| - 1], s[|s| - 1];
      var a, b := r[..k], r[k + 1..];
      SameBucketSize(front, a + b, p, d);
      BucketAppend(front, [last], p, d);
      BucketAppend(a, b, p, d);
      BucketAppend(a, [last], p, d);
      BucketAppend(a + [last], b, p, d);
    }
  }

  lemma WhereIsLast(s: seq<SymFreq>, r: seq<SymFreq>) returns (k: nat)
    requires s != [] && multiset(s) == multiset(r)
    ensures k < |r| && s == s[..|s| - 1] + [s[|s| - 1]] && r == r[..k] + [s[|s| - 1]] + r[k + 1..]
    ensures multiset(s[..|s| - 1]) == multiset(r[..k] + r[k + 1..])
  {
    hide *;
    var front, last := s[..|s| - 1], s[|s| - 1];
    assert s == front + [last];
    assert last in multiset(r);
    k :| 0 <= k < |r| && r[k] == last;
    var a, b := r[..k], r[k + 1..];
    assert r == a + [last] + b;
    TakenOut(front, [], last);
    assert front + [last] + [] == s && front + [] == front;
    TakenOut(a, b, last);
    SameRest(multiset(front), multiset(a + b), last);
  }

  lemma TakenOut(a: seq<SymFreq>, b: seq<SymFreq>, x: SymFreq)
    ensures multiset(a + [x] + b) == multiset(a + b) + multiset{x}
  {
  }

  lemma SameRest(m: multiset<SymFreq>, n: multiset<SymFreq>, x: SymFreq)
    requires m + multiset{x} == n + multiset{x}
    ensures m == n
  {
    forall y: SymFreq ensures m[y] == n[y] { assert (m + multiset{x})[y] == (n + multiset{x})[y]; }
  }

  lemma {:induction false} BucketAppend(a: seq<SymFreq>, b: seq<SymFreq>, p: nat, d: nat)
    requires p < 4
    ensures Bucket(a + b, p, d) == Bucket(a, p, d) + Bucket(b, p, d)
    decreases |b|
  {
    hide Digit;
    if b == [] {
      assert a + b == a;
    } else {
      assert (a + b)[..|a + b| - 1] == a + b[..|b| - 1];
      BucketAppend(a, b[..|b| - 1], p, d);
    }
  }

  lemma SameHistogram(hist: seq<nat>, s: seq<SymFreq>, r: seq<SymFreq>, p: nat)
    requires Histogram(hist, s) && multiset(s) == multiset(r) && p < 4
    ensures |hist| == 1024 && forall d :: 0 <= d < 256 ==> hist[256 * p + d] == |Bucket(r, p, d)|
  {
    hide Digit, Bucket;
    forall d: nat | d < 256 ensures hist[256 * p + d] == |Bucket(r, p, d)| { SameBucketSize(s, r, p, d); }
  }

  /** Ascending by key, and among equal keys by index. */
  ghost predicate SortedByKey(s: seq<SymFreq>) {
    forall i, j :: 0 <= i < j < |s| ==> s[i].key < s[j].key || (s[i].key == s[j].key && s[i].sym_index < s[j].sym_index)
  }

  /** radix_sort_syms: for symbols in the order of their indices, a sort that keeps the order of equal keys. */
  method RadixSortSyms(num_syms: nat, pSyms0: array<SymFreq>, pSyms1: array<SymFreq>) returns (result: array<SymFreq>)
    requires pSyms0 != pSyms1 && num_syms <= pSyms0.Length && num_syms <= pSyms1.Length
    requires forall i, j :: 0 <= i < j < num_syms ==> pSyms0[i].sym_index < pSyms0[j].sym_index
    requires forall i :: 0 <= i < num_syms ==> pSyms0[i].key < 0x1_0000_0000
    modifies pSyms0, pSyms1
    ensures result == pSyms0 || result == pSyms1
    ensures SortedByKey(result[..num_syms]) && multiset(result[..num_syms]) == multiset(old(pSyms0[..num_syms]))
  {
    hide Digit, Bucket, Buckets, Histogram, KeysBelow, SortedTo, Low, SortedByKey;
    ghost var s := pSyms0[..num_syms];
    StartSorted(s);
    var hist := CountDigits(pSyms0, num_syms);
    ghost var counts := hist[..];
    var total_passes := 4;
    HistogramSize(counts, s);
    while total_passes > 1 && num_syms == hist[(total_passes - 1) * 256]
      invariant 1 <= total_passes <= 4 && KeysBelow(s, total_passes) && hist[..] == counts && pSyms0[..num_syms] == s
      decreases total_passes
    {
      FewerBytes(counts, s, total_passes - 1);
      total_passes := total_passes - 1;
    }
    result := pSyms0;
    var other := pSyms1;
    for pass := 0 to total_passes
      invariant (result == pSyms0 && other == pSyms1) || (result == pSyms1 && other == pSyms0)
      invariant SortedTo(result[..num_syms], pass) && multiset(result[..num_syms]) == multiset(s) && hist[..] == counts
    {
      SameHistogram(counts, s, result[..num_syms], pass);
      RadixPass(result, other, num_syms, pass, hist);
      BucketsSorted(result[..num_syms], pass, 256);
      BucketsKeep(result[..num_syms], pass);
      result, other := other, result;
    }
    SortedAtEnd(s, result[..num_syms], total_passes);
  }

  lemma StartSorted(s: seq<SymFreq>)
    requires (forall i, j :: 0 <= i < j < |s| ==> s[i].sym_index < s[j].sym_index) && forall i :: 0 <= i < |s| ==> s[i].key < 0x1_0000_0000
    ensures SortedTo(s, 0) && KeysBelow(s, 4)
  {
  }

  lemma HistogramSize(hist: seq<nat>, s: seq<SymFreq>)
    requires Histogram(hist, s)
    ensures |hist| == 1024
  {
  }

  lemma SortedAtEnd(s: seq<SymFreq>, r: seq<SymFreq>, p: nat)
    requires p <= 4 && SortedTo(r, p) && multiset(r) == multiset(s) && KeysBelow(s, p)
    ensures SortedByKey(r)
  {
    hide Low;
    forall i | 0 <= i < |r| ensures Low(r[i].key, p) == r[i].key {
      assert r[i] in multiset(r);
      assert r[i] in s;
    }
    forall i, j | 0 <= i < j < |r| ensures r[i].key < r[j].key || (r[i].key == r[j].key && r[i].sym_index < r[j].sym_index) {
      assert Before(r[i], r[j], p);
    }
  }
}
