// Canonical prefix codes of RFC 1951, section 3.2.2: the code words a list of
// lengths determines, and which lists determine a code at all.
module HuffmanCode {
  import opened BitStrings

  // ---- The code of a list of lengths ----

  const SYMBOLS: nat := 288

  // sizelist: one length a symbol, 0 for a symbol that does not occur
  predicate Lengths(l: seq<nat>) {
    && |l| <= SYMBOLS
    && forall i :: 0 <= i < |l| ==> l[i] <= 15
  }

  function Count(l: seq<nat>, s: nat): (n: nat)
    ensures n <= |l|
  {
    if l == [] then 0 else Count(l[..|l| - 1], s) + B(l[|l| - 1] == s)
  }

  // The first code word of length s, as a number.
  function First(l: seq<nat>, s: nat): nat {
    if s <= 1 then 0 else 2 * (First(l, s - 1) + Count(l, s - 1))
  }

  // One past the last code word of length s, at 16 bits.
  function Limit(l: seq<nat>, s: nat): nat
    requires s <= 15
  {
    if s == 0 then 0 else Shl(First(l, s) + Count(l, s), 16 - s)
  }

  // No length has more code words than fit below 2^s.
  predicate Fits(l: seq<nat>) {
    forall s :: 1 <= s <= 15 ==> First(l, s) + Count(l, s) <= Shl(1, s)
  }

  // How many of the 65536 16-bit strings the code words claim.
  function Claimed(l: seq<nat>): nat
    requires Lengths(l)
  {
    if l == [] then 0 else
      var x := l[|l| - 1];
      Claimed(l[..|l| - 1]) + if x == 0 then 0 else Shl(1, 16 - x)
  }

  lemma LimitStep(l: seq<nat>, s: nat)
    requires 1 <= s <= 15
    ensures Shl(First(l, s), 16 - s) == Limit(l, s - 1)
    ensures Limit(l, s) == Limit(l, s - 1) + Shl(Count(l, s), 16 - s)
  {
    ShlSum(First(l, s), Count(l, s), 16 - s);
    if s > 1 {
      ShlDouble(First(l, s - 1) + Count(l, s - 1), 16 - s);
    } else {
      ShlZero(15);
    }
  }

  lemma NoneBelow(l: seq<nat>)
    ensures Limit(l, 0) == 0
  {
  }

  lemma {:induction false} LimitMonotone(l: seq<nat>, s: nat, t: nat)
    requires s <= t <= 15
    ensures Limit(l, s) <= Limit(l, t)
  {
    if s < t {
      LimitMonotone(l, s, t - 1);
      LimitStep(l, t);
    }
  }

  lemma {:induction false} LimitAppend(l: seq<nat>, x: nat, s: nat)
    requires s <= 15
    ensures Limit(l + [x], s) == Limit(l, s) + if 1 <= x <= s then Shl(1, 16 - x) else 0
  {
    hide First, Count, Shl, Limit;
    if s == 0 {
      NoneBelow(l);
      NoneBelow(l + [x]);
    } else {
      LimitAppend(l, x, s - 1);
      LimitStep(l, s);
      LimitStep(l + [x], s);
      CountAppend(l, x, s);
      ShlSum(Count(l, s), 1, 16 - s);
    }
  }

  lemma CountAppend(l: seq<nat>, x: nat, s: nat)
    ensures Count(l + [x], s) == Count(l, s) + B(x == s)
  {
  }

  lemma {:induction false} LimitIsClaimed(l: seq<nat>)
    requires Lengths(l)
    ensures Limit(l, 15) == Claimed(l)
  {
    if l == [] {
      NoneLimit(15);
    } else {
      var f := l[..|l| - 1];
      LimitIsClaimed(f);
      LimitAppend(f, l[|l| - 1], 15);
      assert l == f + [l[|l| - 1]];
    }
  }

  lemma {:induction false} NoneLimit(s: nat)
    requires s <= 15
    ensures Limit([], s) == 0
  {
    if s > 0 {
      NoneLimit(s - 1);
      LimitStep([], s);
      ShlZero(16 - s);
    }
  }

  lemma AllWindows()
    ensures Shl(1, 16) == 0x1_0000
  {
    assert Shl(1, 4) == 16 && Shl(16, 4) == 256 && Shl(256, 4) == 4096 && Shl(4096, 4) == 0x1_0000;
    ShlShl(1, 4, 4);
    ShlShl(1, 8, 4);
    ShlShl(1, 12, 4);
  }

  lemma FitsIffLimit(l: seq<nat>, s: nat)
    requires 1 <= s <= 15
    ensures First(l, s) + Count(l, s) <= Shl(1, s) <==> Limit(l, s) <= 0x1_0000
  {
    hide First, Count;
    ShlShl(1, s, 16 - s);
    assert s + (16 - s) == 16;
    AllWindows();
    ShlOrder(First(l, s) + Count(l, s), Shl(1, s), 16 - s);
  }

  // Kraft's inequality is exactly what the table builder tests.
  lemma FitsIffKraft(l: seq<nat>)
    requires Lengths(l)
    ensures Fits(l) <==> Claimed(l) <= 0x1_0000
  {
    LimitIsClaimed(l);
    forall s | 1 <= s <= 15
      ensures First(l, s) + Count(l, s) <= Shl(1, s) <==> Limit(l, s) <= 0x1_0000
      ensures Limit(l, s) <= Limit(l, 15)
    {
      FitsIffLimit(l, s);
      LimitMonotone(l, s, 15);
    }
    if Claimed(l) > 0x1_0000 {
      assert First(l, 15) + Count(l, 15) > Shl(1, 15);
    }
  }

  // ---- Code words ----

  predicate Used(l: seq<nat>, i: nat) {
    i < |l| && l[i] > 0
  }

  function Rank(l: seq<nat>, i: nat): nat
    requires i < |l|
  {
    Count(l[..i], l[i])
  }

  function Value(l: seq<nat>, i: nat): nat
    requires i < |l|
  {
    First(l, l[i]) + Rank(l, i)
  }

  function Word(l: seq<nat>, i: nat): (w: Bits)
    requires i < |l|
    ensures |w| == l[i]
  {
    Rev(BitsOf(Value(l, i), l[i]))
  }

  lemma {:induction false} CountMonotone(l: seq<nat>, i: nat, s: nat)
    requires i <= |l|
    ensures Count(l[..i], s) <= Count(l, s)
  {
    if i == |l| {
      assert l[..i] == l;
    } else {
      CountMonotone(l[..|l| - 1], i, s);
      assert l[..|l| - 1][..i] == l[..i];
    }
  }

  // The rank of a symbol is below the count of those up to any later symbol.
  lemma RankBound(l: seq<nat>, i: nat, j: nat)
    requires i < j <= |l|
    ensures Rank(l, i) + 1 <= Count(l[..j], l[i])
  {
    CountMonotone(l[..j], i + 1, l[i]);
    assert l[..j][..i + 1] == l[..i + 1];
    assert l[..i + 1][..i] == l[..i];
  }

  lemma ValueBound(l: seq<nat>, i: nat)
    requires Lengths(l) && Used(l, i)
    ensures Value(l, i) + 1 <= First(l, l[i]) + Count(l, l[i])
  {
    RankBound(l, i, |l|);
    assert l[..|l|] == l;
  }

  lemma WordValue(l: seq<nat>, i: nat)
    requires Lengths(l) && Fits(l) && Used(l, i)
    ensures Msb(Word(l, i)) == Value(l, i) == Lsb(BitsOf(Value(l, i), l[i]))
  {
    ValueBound(l, i);
    LsbOfBits(Value(l, i), l[i]);
    RevTwice(BitsOf(Value(l, i), l[i]));
  }

  // The 16-bit strings that start with symbol i's word are [Least, Beyond).
  function Least(l: seq<nat>, i: nat): nat
    requires i < |l| && l[i] <= 15
  {
    Shl(Value(l, i), 16 - l[i])
  }

  function Beyond(l: seq<nat>, i: nat): nat
    requires i < |l| && l[i] <= 15
  {
    Shl(Value(l, i) + 1, 16 - l[i])
  }

  // A window starts with a code word exactly when its low bits are the word's.
  lemma StartsInLowBits(l: seq<nat>, i: nat, w: Bits)
    requires Used(l, i) && l[i] <= |w|
    ensures Word(l, i) <= w <==> Low(Lsb(w), l[i]) == Lsb(Word(l, i))
  {
    hide Word, Lsb, Low, Shr;
    var p := w[..l[i]];
    LsbSplit(w, l[i]);
    if Lsb(p) == Lsb(Word(l, i)) {
      LsbInjective(p, Word(l, i));
    }
    assert Word(l, i) <= w <==> p == Word(l, i);
  }

  lemma MsbInjective(a: Bits, b: Bits)
    requires |a| == |b| && Msb(a) == Msb(b)
    ensures a == b
  {
    hide Lsb;
    LsbInjective(Rev(a), Rev(b));
    RevTwice(a);
    RevTwice(b);
  }

  // A 16-bit window does exactly when its number is in the word's interval.
  lemma StartsInInterval(l: seq<nat>, i: nat, w: Bits)
    requires Lengths(l) && Fits(l) && Used(l, i) && |w| == 16
    ensures Word(l, i) <= w <==> Least(l, i) <= Msb(w) < Beyond(l, i)
  {
    hide Value, Fits, Word, Msb, Shr, Shl;
    var p := w[..l[i]];
    WordValue(l, i);
    MsbSplit(w, l[i]);
    ShrInterval(Msb(w), Value(l, i), 16 - l[i]);
    if Msb(p) == Msb(Word(l, i)) {
      MsbInjective(p, Word(l, i));
    }
    assert Word(l, i) <= w <==> p == Word(l, i);
  }

  // Three ways to see that a window starts with a code word: as bit strings, in
  // the slow path's interval, and in the low bits that index the fast table.
  lemma StartsWith(l: seq<nat>, i: nat, w: Bits)
    requires Lengths(l) && Fits(l) && Used(l, i) && l[i] <= |w|
    ensures Word(l, i) <= w <==> Low(Lsb(w), l[i]) == Lsb(Word(l, i))
    ensures |w| == 16 ==> (Word(l, i) <= w <==> Least(l, i) <= Msb(w) < Beyond(l, i))
  {
    hide Fits, Word, Lsb, Low, Least, Beyond, Msb;
    StartsInLowBits(l, i, w);
    if |w| == 16 {
      StartsInInterval(l, i, w);
    }
  }

  // i comes before j in the canonical order.
  predicate Before(l: seq<nat>, i: nat, j: nat)
    requires i < |l| && j < |l|
  {
    l[i] < l[j] || (l[i] == l[j] && i < j)
  }

  // Code words follow one another in the order of lengths, then of symbols.
  lemma Ordered(l: seq<nat>, i: nat, j: nat)
    requires Lengths(l) && Used(l, i) && Used(l, j) && Before(l, i, j)
    ensures Beyond(l, i) <= Least(l, j)
  {
    if l[i] == l[j] {
      RankBound(l, i, j);
      ShlOrder(Value(l, i) + 1, Value(l, j), 16 - l[i]);
    } else {
      BelowLimit(l, i);
      LimitMonotone(l, l[i], l[j] - 1);
      BelowLimit(l, j);
    }
  }

  lemma BelowLimit(l: seq<nat>, i: nat)
    requires Lengths(l) && Used(l, i)
    ensures Limit(l, l[i] - 1) <= Least(l, i) < Beyond(l, i) <= Limit(l, l[i])
  {
    hide First, Count;
    ValueBound(l, i);
    ShlOrder(Value(l, i) + 1, First(l, l[i]) + Count(l, l[i]), 16 - l[i]);
    LimitStep(l, l[i]);
    ShlOrder(First(l, l[i]), Value(l, i), 16 - l[i]);
    ShlOrder(Value(l, i) + 1, Value(l, i), 16 - l[i]);
  }

  // At most one symbol's word starts a window.
  lemma OneSymbol(l: seq<nat>, i: nat, j: nat, w: Bits)
    requires Lengths(l) && Fits(l) && Used(l, i) && Used(l, j) && |w| == 16
    requires Word(l, i) <= w && Word(l, j) <= w
    ensures i == j
  {
    hide Fits, Word, Least, Beyond;
    StartsWith(l, i, w);
    StartsWith(l, j, w);
    if i != j {
      if Before(l, i, j) {
        Ordered(l, i, j);
      } else {
        Ordered(l, j, i);
      }
    }
  }

  // No code word is a prefix of another.
  lemma PrefixFree(l: seq<nat>, i: nat, j: nat)
    requires Lengths(l) && Fits(l) && Used(l, i) && Used(l, j)
    requires Word(l, i) <= Word(l, j)
    ensures i == j
  {
    hide Fits;
    var w := Word(l, j) + Zeros(16 - l[j]);
    assert Word(l, j) <= w && Word(l, i) <= w;
    OneSymbol(l, i, j, w);
  }

  // The symbol of length s and rank r.
  lemma {:induction false} Nth(l: seq<nat>, s: nat, r: nat) returns (i: nat)
    requires r < Count(l, s)
    ensures i < |l| && l[i] == s && Rank(l, i) == r
  {
    var f := l[..|l| - 1];
    if r < Count(f, s) {
      i := Nth(f, s, r);
      assert f[..i] == l[..i];
    } else {
      i := |l| - 1;
    }
  }

  // A 16-bit string between two limits starts with a word of that length.
  lemma WordOfLength(l: seq<nat>, k: nat, s: nat) returns (i: nat)
    requires Lengths(l) && 1 <= s <= 15 && Limit(l, s - 1) <= k < Limit(l, s)
    ensures Used(l, i) && l[i] == s && Least(l, i) <= k < Beyond(l, i)
    ensures Shr(k, 16 - s) == Value(l, i)
  {
    hide First, Count;
    var v := Shr(k, 16 - s);
    LimitStep(l, s);
    ShrInterval(k, v, 16 - s);
    ShlOrder(First(l, s), v, 16 - s);
    ShlOrder(v + 1, First(l, s), 16 - s);
    ShlOrder(First(l, s) + Count(l, s), v, 16 - s);
    i := Nth(l, s, v - First(l, s));
  }

  // Below the limit of length t every string starts with a word that short.
  lemma Covered(l: seq<nat>, k: nat, t: nat) returns (i: nat)
    requires Lengths(l) && 1 <= t <= 15 && k < Limit(l, t)
    ensures Used(l, i) && l[i] <= t && Least(l, i) <= k < Beyond(l, i)
  {
    var s := t;
    while s > 1 && k < Limit(l, s - 1)
      invariant 1 <= s <= t && k < Limit(l, s)
    {
      s := s - 1;
    }
    i := WordOfLength(l, k, s);
  }

  // ---- Decoding as a function of the bit string ----

  datatype Option<T> = Some(value: T) | None

  ghost predicate Starts(l: seq<nat>, i: nat, bits: Bits) {
    Used(l, i) && Word(l, i) <= bits
  }

  // The symbol whose word the bit string starts with.
  ghost function Symbol(l: seq<nat>, bits: Bits): (r: Option<nat>)
    ensures r.Some? ==> Starts(l, r.value, bits)
    ensures r.None? ==> forall i :: !Starts(l, i, bits)
  {
    if exists i :: Starts(l, i, bits) then
      var i :| Starts(l, i, bits);
      Some(i)
    else None
  }

  lemma SymbolUnique(l: seq<nat>, i: nat, bits: Bits)
    requires Lengths(l) && Fits(l) && Starts(l, i, bits)
    ensures Symbol(l, bits) == Some(i)
  {
    var j := Symbol(l, bits).value;
    if l[i] <= l[j] {
      assert Word(l, i) == bits[..l[i]] && Word(l, j)[..l[i]] == bits[..l[i]];
      PrefixFree(l, i, j);
    } else {
      assert Word(l, j) == bits[..l[j]] && Word(l, i)[..l[j]] == bits[..l[j]];
      PrefixFree(l, j, i);
    }
  }

  // Decoding a symbol's word, whatever bits follow, gives that symbol.
  lemma SymbolOfWord(l: seq<nat>, i: nat, rest: Bits)
    requires Lengths(l) && Fits(l) && Used(l, i)
    ensures Symbol(l, Word(l, i) + rest) == Some(i)
    ensures (Word(l, i) + rest)[l[i]..] == rest
  {
    SymbolUnique(l, i, Word(l, i) + rest);
  }

  function Encode(l: seq<nat>, m: seq<nat>): Bits
    requires forall k {:trigger m[k]} :: 0 <= k < |m| ==> Used(l, m[k])
  {
    if m == [] then [] else
      assert Used(l, m[0]);
      Word(l, m[0]) + Encode(l, m[1..])
  }

  lemma EmptyEncoding(l: seq<nat>, m: seq<nat>)
    requires forall k :: 0 <= k < |m| ==> Used(l, m[k])
    ensures Encode(l, m) == [] <==> m == []
  {
    if m != [] {
      assert |Word(l, m[0])| == l[m[0]] > 0;
    }
  }

  lemma FirstSymbolSame(l: seq<nat>, m: seq<nat>, n: seq<nat>)
    requires Lengths(l) && Fits(l) && m != [] && n != []
    requires forall k :: 0 <= k < |m| ==> Used(l, m[k])
    requires forall k :: 0 <= k < |n| ==> Used(l, n[k])
    requires Encode(l, m) == Encode(l, n)
    ensures m[0] == n[0] && Encode(l, m[1..]) == Encode(l, n[1..])
  {
    hide Word, Fits;
    SymbolOfWord(l, m[0], Encode(l, m[1..]));
    SymbolOfWord(l, n[0], Encode(l, n[1..]));
  }

  // Different messages have different encodings.
  lemma {:induction false} UniquelyDecodable(l: seq<nat>, m: seq<nat>, n: seq<nat>)
    requires Lengths(l) && Fits(l)
    requires forall k :: 0 <= k < |m| ==> Used(l, m[k])
    requires forall k :: 0 <= k < |n| ==> Used(l, n[k])
    requires Encode(l, m) == Encode(l, n)
    ensures m == n
  {
    hide Word, Fits, Symbol;
    if m == [] || n == [] {
      EmptyEncoding(l, m);
      EmptyEncoding(l, n);
    } else {
      FirstSymbolSame(l, m, n);
      UniquelyDecodable(l, m[1..], n[1..]);
      assert m == [m[0]] + m[1..] && n == [n[0]] + n[1..];
    }
  }
}
