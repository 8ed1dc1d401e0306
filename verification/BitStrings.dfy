// Bit strings and the numbers they spell, with C's shifts and masks on those
// numbers, down to the bit reversal the DEFLATE decoder uses.
module BitStrings {

  // ---- Shifts and masks of a number ----

  // a << n
  function Shl(a: nat, n: nat): nat {
    if n == 0 then a else 2 * Shl(a, n - 1)
  }

  // a >> n
  function Shr(a: nat, n: nat): nat {
    if n == 0 then a else Shr(a / 2, n - 1)
  }

  // a & ((1 << n) - 1)
  function Low(a: nat, n: nat): nat {
    if n == 0 then 0 else a % 2 + 2 * Low(a / 2, n - 1)
  }

  // a & b
  function And(a: nat, b: nat): nat {
    if a == 0 then 0 else B(a % 2 == 1 && b % 2 == 1) + 2 * And(a / 2, b / 2)
  }

  // a | b
  function Or(a: nat, b: nat): nat
    decreases a
  {
    if a == 0 then b else B(a % 2 == 1 || b % 2 == 1) + 2 * Or(a / 2, b / 2)
  }

  lemma {:induction false} ShlSum(a: nat, b: nat, n: nat)
    ensures Shl(a + b, n) == Shl(a, n) + Shl(b, n)
  {
    if n > 0 { ShlSum(a, b, n - 1); }
  }

  lemma {:induction false} ShlOrder(a: nat, b: nat, n: nat)
    ensures a <= b <==> Shl(a, n) <= Shl(b, n)
  {
    if n > 0 { ShlOrder(a, b, n - 1); }
  }

  lemma {:induction false} ShlShl(a: nat, m: nat, n: nat)
    ensures Shl(Shl(a, m), n) == Shl(a, m + n)
  {
    if n > 0 { ShlShl(a, m, n - 1); }
  }

  lemma {:induction false} ShlGrows(a: nat, n: nat)
    requires a > 0 && n > 0
    ensures a < Shl(a, n)
  {
    if n > 1 { ShlGrows(a, n - 1); }
  }

  lemma ShlDouble(a: nat, n: nat)
    ensures Shl(2 * a, n) == Shl(a, n + 1)
  {
  }

  lemma {:induction false} ShrInterval(k: nat, v: nat, n: nat)
    ensures Shr(k, n) == v <==> Shl(v, n) <= k < Shl(v + 1, n)
  {
    if n > 0 { ShrInterval(k / 2, v, n - 1); }
  }

  lemma {:induction false} SplitNumber(a: nat, n: nat)
    ensures a == Low(a, n) + Shl(Shr(a, n), n)
    ensures Low(a, n) < Shl(1, n)
  {
    if n > 0 { SplitNumber(a / 2, n - 1); }
  }

  lemma {:induction false} LowPeriod(a: nat, n: nat)
    ensures Low(a + Shl(1, n), n) == Low(a, n)
  {
    if n > 0 {
      LowPeriod(a / 2, n - 1);
      assert (a + 2 * Shl(1, n - 1)) / 2 == a / 2 + Shl(1, n - 1);
    }
  }

  lemma {:induction false} LowLow(a: nat, m: nat, n: nat)
    requires n <= m
    ensures Low(Low(a, m), n) == Low(a, n)
  {
    if n > 0 {
      LowLow(a / 2, m - 1, n - 1);
      assert Low(a, m) / 2 == Low(a / 2, m - 1) && Low(a, m) % 2 == a % 2;
    }
  }

  // Numbers that agree in their n low bits are at least 1 << n apart.
  lemma LowSpacing(a: nat, b: nat, n: nat)
    requires Low(a, n) == Low(b, n) && a < b
    ensures a + Shl(1, n) <= b
  {
  }

  // ---- Bit strings, in the order they travel ----

  type Bits = seq<bool>

  function B(c: bool): nat { if c then 1 else 0 }

  // The number whose least significant bit comes first.
  function Lsb(b: Bits): nat {
    if b == [] then 0 else B(b[0]) + 2 * Lsb(b[1..])
  }

  function Rev(b: Bits): (r: Bits)
    ensures |r| == |b|
    ensures forall i :: 0 <= i < |b| ==> r[i] == b[|b| - 1 - i]
  {
    seq(|b|, i requires 0 <= i < |b| => b[|b| - 1 - i])
  }

  // The number whose most significant bit comes first, as in a Huffman code.
  function Msb(b: Bits): nat {
    Lsb(Rev(b))
  }

  // The low n bits of v, least significant first.
  function BitsOf(v: nat, n: nat): (b: Bits)
    ensures |b| == n
  {
    if n == 0 then [] else [v % 2 == 1] + BitsOf(v / 2, n - 1)
  }

  function Zeros(n: nat): (z: Bits)
    ensures |z| == n
    ensures forall i :: 0 <= i < n ==> !z[i]
  {
    seq(n, _ => false)
  }

  lemma {:induction false} LsbBound(b: Bits)
    ensures Lsb(b) < Shl(1, |b|)
  {
    if b != [] { LsbBound(b[1..]); }
  }

  lemma {:induction false} LsbOfBits(v: nat, n: nat)
    requires v < Shl(1, n)
    ensures Lsb(BitsOf(v, n)) == v
  {
    if n > 0 {
      LsbOfBits(v / 2, n - 1);
      assert BitsOf(v, n)[1..] == BitsOf(v / 2, n - 1);
    }
  }

  lemma {:induction false} BitsOfLsb(b: Bits)
    ensures BitsOf(Lsb(b), |b|) == b
  {
    if b != [] {
      BitsOfLsb(b[1..]);
      assert Lsb(b) / 2 == Lsb(b[1..]);
      assert b == [b[0]] + b[1..];
    }
  }

  lemma LsbInjective(a: Bits, b: Bits)
    requires |a| == |b| && Lsb(a) == Lsb(b)
    ensures a == b
  {
  }

  lemma {:induction false} LsbConcat(a: Bits, b: Bits)
    ensures Lsb(a + b) == Lsb(a) + Shl(Lsb(b), |a|)
  {
    if a == [] {
      assert a + b == b;
    } else {
      LsbConcat(a[1..], b);
      assert (a + b)[1..] == a[1..] + b;
    }
  }

  lemma {:induction false} LsbZeros(n: nat)
    ensures Lsb(Zeros(n)) == 0
  {
    if n > 0 {
      LsbZeros(n - 1);
      assert Zeros(n)[1..] == Zeros(n - 1);
    }
  }

  lemma {:induction false} ShlZero(n: nat)
    ensures Shl(0, n) == 0
  {
    if n > 0 { ShlZero(n - 1); }
  }

  // Zeros behind a string leave its number, zeros in front shift it.
  lemma LsbPad(b: Bits, n: nat)
    ensures Lsb(b + Zeros(n)) == Lsb(b)
    ensures Lsb(Zeros(n) + b) == Shl(Lsb(b), n)
  {
    LsbConcat(b, Zeros(n));
    LsbConcat(Zeros(n), b);
    LsbZeros(n);
    ShlZero(|b|);
  }

  // A mask keeps the first bits and a right shift drops them.
  lemma {:induction false} LsbSplit(b: Bits, s: nat)
    requires s <= |b|
    ensures Low(Lsb(b), s) == Lsb(b[..s])
    ensures Shr(Lsb(b), s) == Lsb(b[s..])
  {
    if s > 0 {
      LsbSplit(b[1..], s - 1);
      assert b[..s][1..] == b[1..][..s - 1];
      assert b[1..][s - 1..] == b[s..];
      assert Lsb(b) / 2 == Lsb(b[1..]);
    }
  }

  lemma MsbSplit(b: Bits, s: nat)
    requires s <= |b|
    ensures Shr(Msb(b), |b| - s) == Msb(b[..s])
    ensures Msb(b) < Shl(1, |b|)
  {
    LsbSplit(Rev(b), |b| - s);
    assert Rev(b)[|b| - s..] == Rev(b[..s]);
    LsbBound(Rev(b));
  }

  // Shifting a number of n bits right drops its first bits.
  lemma {:induction false} BitsDrop(v: nat, n: nat, s: nat)
    requires s <= n && v < Shl(1, n)
    ensures BitsOf(Shr(v, s), n - s) == BitsOf(v, n)[s..]
    ensures Shr(v, s) < Shl(1, n - s)
    ensures Low(v, s) == Lsb(BitsOf(v, n)[..s])
  {
    if s > 0 {
      BitsDrop(v / 2, n - 1, s - 1);
      assert BitsOf(v, n)[..s][1..] == BitsOf(v / 2, n - 1)[..s - 1];
    }
  }

  lemma RevTwice(b: Bits)
    ensures Rev(Rev(b)) == b
  {
  }

  function Both(a: Bits, b: Bits): (r: Bits)
    requires |a| == |b|
    ensures |r| == |a| && forall i :: 0 <= i < |a| ==> r[i] == (a[i] && b[i])
  {
    seq(|a|, i requires 0 <= i < |a| => a[i] && b[i])
  }

  function Either(a: Bits, b: Bits): (r: Bits)
    requires |a| == |b|
    ensures |r| == |a| && forall i :: 0 <= i < |a| ==> r[i] == (a[i] || b[i])
  {
    seq(|a|, i requires 0 <= i < |a| => a[i] || b[i])
  }

  lemma {:induction false} AndIsBoth(a: Bits, b: Bits)
    requires |a| == |b|
    ensures And(Lsb(a), Lsb(b)) == Lsb(Both(a, b))
  {
    if a != [] {
      AndIsBoth(a[1..], b[1..]);
      assert Both(a, b)[1..] == Both(a[1..], b[1..]);
      assert Lsb(a) / 2 == Lsb(a[1..]) && Lsb(b) / 2 == Lsb(b[1..]);
    }
  }

  lemma {:induction false} OrIsEither(a: Bits, b: Bits)
    requires |a| == |b|
    ensures Or(Lsb(a), Lsb(b)) == Lsb(Either(a, b))
  {
    if a != [] {
      OrIsEither(a[1..], b[1..]);
      assert Either(a, b)[1..] == Either(a[1..], b[1..]);
      assert Lsb(a) / 2 == Lsb(a[1..]) && Lsb(b) / 2 == Lsb(b[1..]);
    }
  }

  // Bits set above the first |a| bits append to them.
  lemma OrAppends(a: Bits, b: Bits)
    ensures Or(Lsb(a), Shl(Lsb(b), |a|)) == Lsb(a + b)
  {
    var x, y := a + Zeros(|b|), Zeros(|a|) + b;
    LsbPad(a, |b|);
    LsbPad(b, |a|);
    OrIsEither(x, y);
    EitherJoins(a, b);
    hide Or, Lsb, Shl, Either;
  }

  lemma EitherJoins(a: Bits, b: Bits)
    ensures Either(a + Zeros(|b|), Zeros(|a|) + b) == a + b
  {
    hide Lsb;
    var e := Either(a + Zeros(|b|), Zeros(|a|) + b);
    forall i | 0 <= i < |a| + |b|
      ensures e[i] == (a + b)[i]
    {
    }
  }

  // ---- Bit reversal ----

  // ((n & hi) >> g) | ((n & lo) << g)
  function Exchange(n: nat, hi: nat, lo: nat, g: nat): nat {
    Or(Shr(And(n, hi), g), Shl(And(n, lo), g))
  }

  // stbi__bitreverse16: neighbours, pairs, nibbles and bytes change places.
  function BitReverse16(n: nat): nat {
    var n1 := Exchange(n, 0xAAAA, 0x5555, 1);
    var n2 := Exchange(n1, 0xCCCC, 0x3333, 2);
    var n4 := Exchange(n2, 0xF0F0, 0x0F0F, 4);
    Exchange(n4, 0xFF00, 0x00FF, 8)
  }

  // stbi__bit_reverse
  function BitReverse(v: nat, bits: nat): nat
    requires bits <= 16
  {
    Shr(BitReverse16(v), 16 - bits)
  }

  // hi selects every second group of g bits, lo the others.
  predicate Groups(hi: Bits, lo: Bits, g: nat) {
    && 0 < g <= 8 && |hi| == |lo| == 16
    && (forall i :: 0 <= i < 16 ==> lo[i] == !hi[i])
    && (forall i :: 0 <= i < 16 && hi[i] ==> i >= g && lo[i - g])
    && (forall i :: 0 <= i < 16 && lo[i] ==> i + g < 16 && hi[i + g])
  }

  function Exchanged(w: Bits, hi: Bits, lo: Bits, g: nat): (r: Bits)
    requires |w| == 16 && Groups(hi, lo, g)
    ensures |r| == 16
    ensures forall i :: 0 <= i < 16 && hi[i] ==> r[i] == w[i - g]
    ensures forall i :: 0 <= i < 16 && lo[i] ==> r[i] == w[i + g]
  {
    seq(16, i requires 0 <= i < 16 => assert hi[i] || lo[i]; if hi[i] then w[i - g] else w[i + g])
  }

  lemma ExchangeMoves(w: Bits, hi: Bits, lo: Bits, g: nat)
    requires |w| == 16 && Groups(hi, lo, g)
    ensures Exchange(Lsb(w), Lsb(hi), Lsb(lo), g) == Lsb(Exchanged(w, hi, lo, g))
  {
    var h, l := Both(w, hi), Both(w, lo);
    AndIsBoth(w, hi);
    AndIsBoth(w, lo);
    LsbSplit(h, g);
    LsbPad(h[g..], 2 * g);
    LsbPad(l, g);
    var x, y := h[g..] + Zeros(2 * g), Zeros(g) + l;
    OrIsEither(x, y);
    var e := Exchanged(w, hi, lo, g);
    EitherIsExchanged(w, hi, lo, g, h, l);
    LsbPad(e, g);
  }

  lemma EitherIsExchanged(w: Bits, hi: Bits, lo: Bits, g: nat, h: Bits, l: Bits)
    requires |w| == 16 && Groups(hi, lo, g) && h == Both(w, hi) && l == Both(w, lo)
    ensures Either(h[g..] + Zeros(2 * g), Zeros(g) + l) == Exchanged(w, hi, lo, g) + Zeros(g)
  {
    var x, y, e := h[g..] + Zeros(2 * g), Zeros(g) + l, Exchanged(w, hi, lo, g);
    forall i | 0 <= i < 16 + g
      ensures Either(x, y)[i] == (e + Zeros(g))[i]
    {
      assert x[i] == (i + g < 16 && h[i + g]);
      assert y[i] == (i >= g && l[i - g]);
      if i < 16 {
        assert hi[i] || lo[i];
      }
    }
  }

  lemma LsbNibble(b: Bits)
    requires |b| >= 4
    ensures Lsb(b) == B(b[0]) + 2 * B(b[1]) + 4 * B(b[2]) + 8 * B(b[3]) + 16 * Lsb(b[4..])
  {
    var b1 := b[1..];
    var b2 := b1[1..];
    var b3 := b2[1..];
    assert b3[1..] == b[4..];
    assert Lsb(b) == B(b[0]) + 2 * Lsb(b1) && Lsb(b1) == B(b[1]) + 2 * Lsb(b2);
    assert Lsb(b2) == B(b[2]) + 2 * Lsb(b3) && Lsb(b3) == B(b[3]) + 2 * Lsb(b[4..]);
  }

  lemma LsbNibbles(b: Bits)
    requires |b| == 16
    ensures Lsb(b) == Nibble(b, 0) + 0x10 * Nibble(b, 4) + 0x100 * Nibble(b, 8) + 0x1000 * Nibble(b, 12)
  {
    LsbNibble(b);
    LsbNibble(b[4..]);
    assert b[4..][4..] == b[8..];
    LsbNibble(b[8..]);
    assert b[8..][4..] == b[12..];
    LsbNibble(b[12..]);
    assert b[12..][4..] == [];
  }

  function Nibble(b: Bits, i: nat): nat
    requires i + 4 <= |b|
  {
    B(b[i]) + 2 * B(b[i + 1]) + 4 * B(b[i + 2]) + 8 * B(b[i + 3])
  }

  // Whether position i is in an upper group of g bits.
  predicate Upper(i: nat, g: nat) {
    match g
    case 1 => i % 2 >= 1
    case 2 => i % 4 >= 2
    case 4 => i % 8 >= 4
    case _ => i % 16 >= 8
  }

  function UpperMask(g: nat): nat {
    match g
    case 1 => 0xAAAA
    case 2 => 0xCCCC
    case 4 => 0xF0F0
    case _ => 0xFF00
  }

  function LowerMask(g: nat): nat {
    match g
    case 1 => 0x5555
    case 2 => 0x3333
    case 4 => 0x0F0F
    case _ => 0x00FF
  }

  function Alternate(g: nat, up: bool): (m: Bits)
    ensures |m| == 16 && forall i :: 0 <= i < 16 ==> m[i] == (Upper(i, g) == up)
  {
    seq(16, i requires 0 <= i => Upper(i, g) == up)
  }

  lemma MaskValues(g: nat)
    requires g == 1 || g == 2 || g == 4 || g == 8
    ensures Lsb(Alternate(g, true)) == UpperMask(g)
    ensures Lsb(Alternate(g, false)) == LowerMask(g)
  {
    hide Lsb, Alternate;
    LsbNibbles(Alternate(g, true));
    LsbNibbles(Alternate(g, false));
    if g == 1 {
      NibblesOf(1);
    } else if g == 2 {
      NibblesOf(2);
    } else if g == 4 {
      NibblesOf(4);
    } else {
      NibblesOf(8);
    }
  }

  lemma NibblesOf(g: nat)
    requires g == 1 || g == 2 || g == 4 || g == 8
    ensures forall k: nat, up :: k < 4 ==>
      Nibble(Alternate(g, up), 4 * k) ==
      B(Upper(4 * k, g) == up) + 2 * B(Upper(4 * k + 1, g) == up) +
      4 * B(Upper(4 * k + 2, g) == up) + 8 * B(Upper(4 * k + 3, g) == up)
  {
  }

  // Where the bit that a step by g puts at position i comes from.
  function From(i: nat, g: nat): (j: nat)
    requires i < 16 && (g == 1 || g == 2 || g == 4 || g == 8)
    ensures j < 16
  {
    if Upper(i, g) then i - g else i + g
  }

  lemma AlternateGroups(g: nat)
    requires g == 1 || g == 2 || g == 4 || g == 8
    ensures Groups(Alternate(g, true), Alternate(g, false), g)
  {
    hide Upper, Alternate;
    var hi, lo := Alternate(g, true), Alternate(g, false);
    forall i | 0 <= i < 16 && hi[i]
      ensures i >= g && lo[i - g]
    {
      UpperNeighbour(i, g);
    }
    forall i | 0 <= i < 16 && lo[i]
      ensures i + g < 16 && hi[i + g]
    {
      UpperNeighbour(i, g);
    }
  }

  lemma UpperNeighbour(i: nat, g: nat)
    requires i < 16 && (g == 1 || g == 2 || g == 4 || g == 8)
    ensures Upper(i, g) ==> i >= g && !Upper(i - g, g)
    ensures !Upper(i, g) ==> i + g < 16 && Upper(i + g, g)
  {
    if g == 1 {
      UpperInGroups(i, i / 2, i % 2, 1);
    } else if g == 2 {
      UpperInGroups(i, i / 4, i % 4, 2);
    } else if g == 4 {
      UpperInGroups(i, i / 8, i % 8, 4);
    } else {
      UpperInGroups(i, 0, i, 8);
    }
  }

  // Position i in the q-th double group of g bits, r places in.
  lemma UpperInGroups(i: nat, q: nat, r: nat, g: nat)
    requires i < 16 && (g == 1 || g == 2 || g == 4 || g == 8) && r < 2 * g
    requires i == (match g case 1 => 2 * q case 2 => 4 * q case 4 => 8 * q case _ => 16 * q) + r
    ensures Upper(i, g) <==> r >= g
    ensures r >= g ==> i >= g && !Upper(i - g, g)
    ensures r < g ==> i + g < 16 && Upper(i + g, g)
  {
    var other := if r >= g then i - g else i + g;
    var rest := if r >= g then r - g else r + g;
    match g {
      case 1 =>
        Rest2(i, q, r);
        Rest2(other, q, rest);
      case 2 =>
        Rest4(i, q, r);
        Rest4(other, q, rest);
      case 4 =>
        Rest8(i, q, r);
        Rest8(other, q, rest);
      case _ =>
        assert q == 0;
    }
  }

  lemma Rest2(i: nat, q: nat, r: nat)
    requires i == 2 * q + r && r < 2
    ensures i % 2 == r
  {
  }

  lemma Rest4(i: nat, q: nat, r: nat)
    requires i == 4 * q + r && r < 4
    ensures i % 4 == r
  {
  }

  lemma Rest8(i: nat, q: nat, r: nat)
    requires i == 8 * q + r && r < 8
    ensures i % 8 == r
  {
  }

  lemma StepMoves(w: Bits, g: nat) returns (r: Bits)
    requires |w| == 16 && (g == 1 || g == 2 || g == 4 || g == 8)
    ensures |r| == 16 && Exchange(Lsb(w), UpperMask(g), LowerMask(g), g) == Lsb(r)
    ensures forall i :: 0 <= i < 16 ==> r[i] == w[From(i, g)]
  {
    hide Exchange, Lsb, Groups, UpperMask, LowerMask;
    var hi, lo := Alternate(g, true), Alternate(g, false);
    AlternateGroups(g);
    MaskValues(g);
    ExchangeMoves(w, hi, lo, g);
    r := Exchanged(w, hi, lo, g);
    forall i | 0 <= i < 16
      ensures r[i] == w[From(i, g)]
    {
      assert if Upper(i, g) then hi[i] else lo[i];
    }
  }

  lemma FourSteps(i: nat)
    requires i < 16
    ensures From(From(From(From(i, 8), 4), 2), 1) == 15 - i
  {
  }

  // The four steps reverse the order of sixteen bits.
  lemma BitReverse16Reverses(w: Bits)
    requires |w| == 16
    ensures BitReverse16(Lsb(w)) == Msb(w)
  {
    hide Exchange, Lsb, From;
    var r1 := StepMoves(w, 1);
    var r2 := StepMoves(r1, 2);
    var r4 := StepMoves(r2, 4);
    var r8 := StepMoves(r4, 8);
    forall i | 0 <= i < 16
      ensures r8[i] == Rev(w)[i]
    {
      FourSteps(i);
    }
    assert r8 == Rev(w);
  }

  // Reversing the low bits of a number of that many bits.
  lemma BitReverseReverses(w: Bits)
    requires |w| <= 16
    ensures BitReverse(Lsb(w), |w|) == Msb(w)
  {
    hide BitReverse16, Lsb, Shr;
    var n := 16 - |w|;
    var x := w + Zeros(n);
    LsbPad(w, n);
    BitReverse16Reverses(x);
    assert Rev(x) == Zeros(n) + Rev(w);
    LsbSplit(Rev(x), n);
    assert Rev(x)[n..] == Rev(w);
  }
}
