/** The zigzag order of Figure A.6 of T.81 (compositor/jpgd.cpp:38). */
module JpegZigzag {

  /** The table in rows of eight. */
  const ZAG_ROWS: seq<seq<nat>> := [
    [0, 1, 8, 16, 9, 2, 3, 10],
    [17, 24, 32, 25, 18, 11, 4, 5],
    [12, 19, 26, 33, 40, 48, 41, 34],
    [27, 20, 13, 6, 7, 14, 21, 28],
    [35, 42, 49, 56, 57, 50, 43, 36],
    [29, 22, 15, 23, 30, 37, 44, 51],
    [58, 59, 52, 45, 38, 31, 39, 46],
    [53, 60, 61, 54, 47, 55, 62, 63]
  ]

  const PLACE_ROWS: seq<seq<nat>> := [
    [0, 1, 5, 6, 14, 15, 27, 28],
    [2, 4, 7, 13, 16, 26, 29, 42],
    [3, 8, 12, 17, 25, 30, 41, 43],
    [9, 11, 18, 24, 31, 40, 44, 53],
    [10, 19, 23, 32, 39, 45, 52, 54],
    [20, 22, 33, 38, 46, 51, 55, 60],
    [21, 34, 37, 47, 50, 56, 59, 61],
    [35, 36, 48, 49, 57, 58, 62, 63]
  ]

  /** g_ZAG: the entry of the block that comes k-th. */
  function Zag(k: nat): nat
    requires k < 64
  {
    ZAG_ROWS[k / 8][k % 8]
  }

  /** Where an entry of the block comes in zigzag order. */
  function Place(z: nat): nat
    requires z < 64
  {
    PLACE_ROWS[z / 8][z % 8]
  }

  /** The order is a permutation: every entry has one place. */
  lemma ZagPlace(k: nat)
    requires k < 64
    ensures Zag(k) < 64 && Place(Zag(k)) == k
  {
    if k < 16 { ZagPlace0(k); } else if k < 32 { ZagPlace1(k); } else if k < 48 { ZagPlace2(k); } else { ZagPlace3(k); }
  }

  lemma ZagPlace0(k: nat)
    requires 0 <= k < 16
    ensures Zag(k) < 64 && Place(Zag(k)) == k
  {
  }

  lemma ZagPlace1(k: nat)
    requires 16 <= k < 32
    ensures Zag(k) < 64 && Place(Zag(k)) == k
  {
  }

  lemma ZagPlace2(k: nat)
    requires 32 <= k < 48
    ensures Zag(k) < 64 && Place(Zag(k)) == k
  {
  }

  lemma ZagPlace3(k: nat)
    requires 48 <= k < 64
    ensures Zag(k) < 64 && Place(Zag(k)) == k
  {
  }

  /** Every entry comes somewhere in the order. */
  lemma PlaceZag(z: nat)
    requires z < 64
    ensures Place(z) < 64 && Zag(Place(z)) == z
  {
    if z < 16 { PlaceZag0(z); } else if z < 32 { PlaceZag1(z); } else if z < 48 { PlaceZag2(z); } else { PlaceZag3(z); }
  }

  lemma PlaceZag0(z: nat)
    requires 0 <= z < 16
    ensures Place(z) < 64 && Zag(Place(z)) == z
  {
  }

  lemma PlaceZag1(z: nat)
    requires 16 <= z < 32
    ensures Place(z) < 64 && Zag(Place(z)) == z
  {
  }

  lemma PlaceZag2(z: nat)
    requires 32 <= z < 48
    ensures Place(z) < 64 && Zag(Place(z)) == z
  {
  }

  lemma PlaceZag3(z: nat)
    requires 48 <= z < 64
    ensures Place(z) < 64 && Zag(Place(z)) == z
  {
  }

  // ---- The walk ----

  /**
   * From row r and column c along the anti-diagonals: down to the left where r + c is odd, up to the right where it is
   * even, and along the border to the next one at its end.
   */
  function Walk(r: nat, c: nat): (z: nat)
    requires r < 8 && c < 8 && (r < 7 || c < 7)
    ensures z < 64
  {
    if (r + c) % 2 == 1 then
      if r == 7 then 8 * r + c + 1 else if c == 0 then 8 * (r + 1) else 8 * (r + 1) + c - 1
    else
      if c == 7 then 8 * (r + 1) + c else if r == 0 then c + 1 else 8 * (r - 1) + c + 1
  }

  /** The order starts in the upper left corner and walks to the lower right one. */
  lemma ZagWalks(k: nat)
    requires k < 63
    ensures Zag(0) == 0 && Zag(63) == 63 && Zag(k) < 63 && Zag(k + 1) == Walk(Zag(k) / 8, Zag(k) % 8)
  {
    if k < 16 { ZagWalks0(k); } else if k < 32 { ZagWalks1(k); } else if k < 48 { ZagWalks2(k); } else { ZagWalks3(k); }
  }

  lemma ZagWalks0(k: nat)
    requires 0 <= k < 16
    ensures Zag(k) < 63 && Zag(k + 1) == Walk(Zag(k) / 8, Zag(k) % 8)
  {
  }

  lemma ZagWalks1(k: nat)
    requires 16 <= k < 32
    ensures Zag(k) < 63 && Zag(k + 1) == Walk(Zag(k) / 8, Zag(k) % 8)
  {
  }

  lemma ZagWalks2(k: nat)
    requires 32 <= k < 48
    ensures Zag(k) < 63 && Zag(k + 1) == Walk(Zag(k) / 8, Zag(k) % 8)
  {
  }

  lemma ZagWalks3(k: nat)
    requires 48 <= k < 63
    ensures Zag(k) < 63 && Zag(k + 1) == Walk(Zag(k) / 8, Zag(k) % 8)
  {
  }
}
