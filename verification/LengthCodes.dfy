// The lengths and distances of back references and the symbols that stand for
// them (RFC 1951, section 3.2.5).
module LengthCodes {
  import opened BitStrings

  const LENGTH_BASE: seq<nat> :=
    [3, 4, 5, 6, 7, 8, 9, 10, 11, 13, 15, 17, 19, 23, 27, 31, 35, 43, 51, 59, 67, 83, 99, 115, 131, 163, 195, 227,
        258, 0, 0]
  const LENGTH_EXTRA: seq<nat> :=
    [0, 0, 0, 0, 0, 0, 0, 0, 1, 1, 1, 1, 2, 2, 2, 2, 3, 3, 3, 3, 4, 4, 4, 4, 5, 5, 5, 5, 0, 0, 0]
  const DIST_BASE: seq<nat> :=
    [1, 2, 3, 4, 5, 7, 9, 13, 17, 25, 33, 49, 65, 97, 129, 193, 257, 385, 513, 769, 1025, 1537, 2049, 3073, 4097, 6145,
        8193, 12289, 16385, 24577, 0, 0]
  const DIST_EXTRA: seq<nat> :=
    [0, 0, 0, 0, 1, 1, 2, 2, 3, 3, 4, 4, 5, 5, 6, 6, 7, 7, 8, 8, 9, 9, 10, 10, 11, 11, 12, 12, 13, 13, 0, 0]

  const MAX_DISTS: nat := 32
  const MIN_LENGTH: nat := 3
  const MAX_LENGTH: nat := 258
  const MAX_DISTANCE: nat := 32768

  function LengthBase(z: nat): nat requires z < 31 { LENGTH_BASE[z] }

  function LengthExtra(z: nat): (e: nat)
    requires z < 31
    ensures e <= 5
  {
    LENGTH_EXTRA[z]
  }

  function DistBase(d: nat): nat requires d < MAX_DISTS { DIST_BASE[d] }

  function DistExtra(d: nat): (e: nat)
    requires d < MAX_DISTS
    ensures e <= 13
  {
    DIST_EXTRA[d]
  }

  // ---- The tables as the standard gives them ----

  // The lengths of symbol 257 + z end where those of the next begin, from 3 up to
  // 258, which has a symbol of its own without extra bits.
  lemma LengthTable(z: nat)
    requires z < 28
    ensures LengthExtra(z) == if z < 8 then 0 else (z - 4) / 4
    ensures LengthBase(0) == 3 && LengthBase(28) == 258 && LengthExtra(28) == 0
    ensures z < 27 ==> LengthBase(z + 1) == LengthBase(z) + Shl(1, LengthExtra(z))
    ensures z == 27 ==> LengthBase(z + 1) == LengthBase(z) + Shl(1, LengthExtra(z)) - 1
  {
    Powers();
    LengthExtras(z);
    LengthExtras(28);
    hide Shl, LengthExtra;
  }

  lemma LengthExtras(z: nat)
    requires z < 29
    ensures LengthExtra(z) == if z < 8 || z == 28 then 0 else (z - 4) / 4
  {
  }

  // So do the distances, from 1 up to 32768.
  lemma DistTable(d: nat)
    requires d < 30
    ensures DistExtra(d) == if d < 2 then 0 else (d - 2) / 2
    ensures DistBase(0) == 1
    ensures d < 29 ==> DistBase(d + 1) == DistBase(d) + Shl(1, DistExtra(d))
    ensures d == 29 ==> DistBase(d) + Shl(1, DistExtra(d)) == MAX_DISTANCE + 1
  {
    Powers();
    DistExtras(d);
    hide Shl, DistExtra;
  }

  lemma DistExtras(d: nat)
    requires d < 30
    ensures DistExtra(d) == if d < 2 then 0 else (d - 2) / 2
  {
  }

  lemma Powers()
    ensures Shl(1, 0) == 1 && Shl(1, 1) == 2 && Shl(1, 2) == 4 && Shl(1, 3) == 8 && Shl(1, 4) == 16 && Shl(1, 5) == 32
    ensures Shl(1, 6) == 64 && Shl(1, 7) == 128 && Shl(1, 8) == 256 && Shl(1, 9) == 512 && Shl(1, 10) == 1024
    ensures Shl(1, 11) == 2048 && Shl(1, 12) == 4096 && Shl(1, 13) == 8192
  {
  }

  // ---- One symbol for every length and distance ----

  // Symbol 257 + z with extra bits x stands for the length.
  predicate IsLength(len: nat, z: nat, x: int) {
    z < 29 && 0 <= x < Shl(1, LengthExtra(z)) && LengthBase(z) + x == len
  }

  predicate IsDistance(dist: nat, d: nat, x: int) {
    d < 30 && 0 <= x < Shl(1, DistExtra(d)) && DistBase(d) + x == dist
  }

  // The last symbol below the n-th whose lengths do not begin above len.
  function LengthSymbol(len: nat, n: nat): (z: nat)
    requires MIN_LENGTH <= len && 1 <= n <= 29
    ensures z < n
  {
    if n == 1 || LengthBase(n - 1) <= len then n - 1 else LengthSymbol(len, n - 1)
  }

  function DistSymbol(dist: nat, n: nat): (d: nat)
    requires 1 <= dist && 1 <= n <= 30
    ensures d < n
  {
    if n == 1 || DistBase(n - 1) <= dist then n - 1 else DistSymbol(dist, n - 1)
  }

  // Bases rise with the symbols, a whole range of extra bits at a time.
  lemma {:induction false} LengthsRise(a: nat, b: nat)
    requires a < b <= 28
    ensures LengthBase(a) + Shl(1, LengthExtra(a)) <= LengthBase(b) + if a == 27 then 1 else 0
    decreases b - a
  {
    LengthTable(a);
    if a + 1 < b {
      LengthsRise(a + 1, b);
      PowerPositive(LengthExtra(a + 1));
    }
  }

  lemma {:induction false} DistancesRise(a: nat, b: nat)
    requires a < b <= 29
    ensures DistBase(a) + Shl(1, DistExtra(a)) <= DistBase(b)
    decreases b - a
  {
    DistTable(a);
    if a + 1 < b {
      DistancesRise(a + 1, b);
      PowerPositive(DistExtra(a + 1));
    }
  }

  lemma PowerPositive(n: nat)
    ensures Shl(1, n) >= 1
  {
  }

  // The symbol and the extra bits a compressor writes for a length and a distance.
  function LengthSym(len: nat): (z: nat)
    requires MIN_LENGTH <= len
    ensures z < 29
  {
    LengthSymbol(len, 29)
  }

  function DistSym(dist: nat): (d: nat)
    requires 1 <= dist
    ensures d < 30
  {
    DistSymbol(dist, 30)
  }

  lemma {:induction false} LengthSymbolFits(len: nat, n: nat)
    requires MIN_LENGTH <= len <= MAX_LENGTH && 1 <= n <= 29 && (n < 29 ==> len < LengthBase(n))
    ensures var z := LengthSymbol(len, n);
            LengthBase(z) <= len < LengthBase(z) + Shl(1, LengthExtra(z))
  {
    hide LengthBase, LengthExtra;
    LengthTable(if n < 29 then n - 1 else 0);
    if n > 1 && LengthBase(n - 1) > len {
      LengthSymbolFits(len, n - 1);
    } else {
      Powers();
    }
  }

  lemma {:induction false} DistSymbolFits(dist: nat, n: nat)
    requires 1 <= dist <= MAX_DISTANCE && 1 <= n <= 30 && (n < 30 ==> dist < DistBase(n))
    ensures var d := DistSymbol(dist, n);
            DistBase(d) <= dist < DistBase(d) + Shl(1, DistExtra(d))
  {
    hide DistBase, DistExtra, Shl;
    DistTable(n - 1);
    if n > 1 && DistBase(n - 1) > dist {
      DistSymbolFits(dist, n - 1);
    }
  }

  // Every length from 3 to 257 has exactly one symbol with extra bits, and 258 has
  // the last symbol without any; a symbol stands for no other length.
  lemma LengthOnce(len: nat)
    ensures MIN_LENGTH <= len <= MAX_LENGTH ==> IsLength(len, LengthSym(len), len - LengthBase(LengthSym(len)))
    ensures MIN_LENGTH <= len < MAX_LENGTH ==>
              forall z, x :: IsLength(len, z, x) ==> z == LengthSym(len) < 28 && x == len - LengthBase(LengthSym(len))
    ensures LengthSym(MAX_LENGTH) == 28 && LengthBase(28) == MAX_LENGTH && LengthExtra(28) == 0
    ensures forall z, x :: IsLength(len, z, x) ==> MIN_LENGTH <= len <= MAX_LENGTH
  {
    LengthTable(0);
    hide LengthBase, LengthExtra, Shl, LengthSymbol;
    if MIN_LENGTH <= len <= MAX_LENGTH {
      LengthSymbolFits(len, 29);
    }
    LastLength();
    forall z, x | IsLength(len, z, x)
      ensures MIN_LENGTH <= len <= MAX_LENGTH
      ensures len < MAX_LENGTH ==> z == LengthSym(len) < 28 && x == len - LengthBase(LengthSym(len))
    {
      LengthRange(len, z, x);
      if len < MAX_LENGTH {
        OnlyLength(len, z, x, LengthSym(len));
      }
    }
  }

  lemma LastLength()
    ensures LengthSym(MAX_LENGTH) == 28
  {
  }

  lemma LengthRange(len: nat, z: nat, x: int)
    requires IsLength(len, z, x)
    ensures MIN_LENGTH <= len <= MAX_LENGTH
  {
    Powers();
    hide Shl, LengthBase, LengthExtra;
    LengthTable(0);
    if z > 0 {
      LengthsRise(0, z);
    }
    if z < 28 {
      LengthsRise(z, 28);
    }
  }

  lemma OnlyLength(len: nat, z: nat, x: int, s: nat)
    requires IsLength(len, z, x) && len < MAX_LENGTH
    requires s < 29 && LengthBase(s) <= len < LengthBase(s) + Shl(1, LengthExtra(s))
    ensures z == s < 28
  {
    hide Shl, LengthBase, LengthExtra;
    LengthTable(0);
    if z < s {
      LengthsRise(z, s);
    } else if s < z {
      LengthsRise(s, z);
    }
  }

  // Every distance from 1 to 32768 has exactly one symbol with extra bits, and a
  // symbol stands for no other distance.
  lemma DistanceOnce(dist: nat)
    ensures 1 <= dist <= MAX_DISTANCE ==> IsDistance(dist, DistSym(dist), dist - DistBase(DistSym(dist)))
    ensures forall d, x :: IsDistance(dist, d, x) ==>
              1 <= dist <= MAX_DISTANCE && d == DistSym(dist) && x == dist - DistBase(DistSym(dist))
  {
    hide DistBase, DistExtra, Shl, DistSymbol;
    if 1 <= dist <= MAX_DISTANCE {
      DistSymbolFits(dist, 30);
    }
    forall d, x | IsDistance(dist, d, x)
      ensures 1 <= dist <= MAX_DISTANCE && d == DistSym(dist) && x == dist - DistBase(DistSym(dist))
    {
      DistRange(dist, d, x);
      OnlyDistance(dist, d, x, DistSym(dist));
    }
  }

  lemma DistRange(dist: nat, d: nat, x: int)
    requires IsDistance(dist, d, x)
    ensures 1 <= dist <= MAX_DISTANCE
  {
    hide Shl, DistBase, DistExtra;
    DistTable(0);
    DistTable(29);
    PowerPositive(DistExtra(0));
    PowerPositive(DistExtra(29));
    if d > 0 {
      DistancesRise(0, d);
    }
    if d < 29 {
      DistancesRise(d, 29);
    }
  }

  lemma OnlyDistance(dist: nat, d: nat, x: int, s: nat)
    requires IsDistance(dist, d, x)
    requires s < 30 && DistBase(s) <= dist < DistBase(s) + Shl(1, DistExtra(s))
    ensures d == s
  {
    hide Shl, DistBase, DistExtra;
    if d < s {
      DistancesRise(d, s);
    } else if s < d {
      DistancesRise(s, d);
    }
  }
}
