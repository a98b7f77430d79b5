/** Stretches of memory and rows laid out one after the other. */
module Memory {

  /** Memory in which a stretch from start on is new and everything else is as before. */
  ghost predicate Written<T>(before: seq<T>, now: seq<T>, start: nat, row: seq<T>) {
    start + |row| <= |before| && now == before[..start] + row + before[start + |row|..]
  }

  lemma WrittenIs<T>(before: seq<T>, now: seq<T>, start: nat, row: seq<T>)
    requires Written(before, now, start, row)
    ensures start + |row| <= |before| == |now| && now[start..start + |row|] == row
    ensures now == before[..start] + row + before[start + |row|..]
  {
  }

  lemma WrittenStep<T>(before: seq<T>, now: seq<T>, start: nat, row: seq<T>, v: T)
    requires Written(before, now, start, row) && start + |row| < |before|
    ensures Written(before, now[start + |row| := v], start, row + [v])
  {
  }

  lemma WrittenAt<T>(before: seq<T>, now: seq<T>, start: nat, row: seq<T>)
    requires Written(before, now, start, row)
    ensures |now| == |before|
    ensures forall k :: 0 <= k < |row| ==> now[start + k] == row[k]
    ensures forall k :: 0 <= k < start || start + |row| <= k < |before| ==> now[k] == before[k]
  {
  }

  lemma WrittenFits<T>(before: seq<T>, now: seq<T>, start: nat, row: seq<T>)
    requires Written(before, now, start, row)
    ensures start + |row| <= |before|
  {
  }

  lemma WrittenFirst<T>(before: seq<T>, now: seq<T>, start: nat, v: T)
    requires start < |before| && now == before[start := v]
    ensures Written(before, now, start, [v])
  {
  }

  lemma AppendWritten<T>(before: seq<T>, now: seq<T>, start: nat, done: seq<T>, row: seq<T>)
    requires Written(before, now, start, done) && start + |done| + |row| <= |before| && |now| == |before|
    ensures Written(before, now[..start + |done|] + row + now[start + |done| + |row|..], start, done + row)
  {
    var new_ := now[..start + |done|] + row + now[start + |done| + |row|..];
    assert new_ == before[..start] + (done + row) + before[start + |done + row|..];
  }

  lemma SliceOfSlice<T>(s: seq<T>, a: nat, length: nat, p: nat, n: nat)
    requires a + length <= |s| && p + n <= length
    ensures s[a..a + length][p..p + n] == s[a + p..a + p + n]
  {
    var t := s[a..a + length];
    var u := t[p..p + n];
    forall k | 0 <= k < n ensures u[k] == s[a + p..a + p + n][k] { assert u[k] == t[p + k]; }
  }

  /** Where row y starts, for rows of n elements. */
  function RowAt(y: nat, n: nat): nat { y * n }

  lemma NextRow(y: nat, n: nat)
    ensures RowAt(0, n) == 0 && RowAt(y + 1, n) == RowAt(y, n) + n
  {
  }

  lemma {:induction false} RowInside(y: nat, n: nat, h: nat)
    requires y < h
    ensures RowAt(y, n) + n <= RowAt(h, n)
  {
    hide RowAt;
    NextRow(h - 1, n);
    if y < h - 1 { RowInside(y, n, h - 1); }
  }

  lemma Offsets(y: nat, n: nat)
    ensures n * y == RowAt(y, n) && (1 + n) * y == RowAt(y, n + 1)
  {
  }

  /** With one more element before every row. */
  lemma RowAtStep(y: nat, n: nat)
    ensures RowAt(y, n + 1) == RowAt(y, n) + y
  {
  }
}
