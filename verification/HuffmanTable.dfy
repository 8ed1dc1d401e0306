// stbi__zhuffman: the 9-bit fast table and the ranked symbol list of the slow
// path, built from a list of code lengths.
module HuffmanTable {
  import opened Bytes
  import opened BitStrings
  import opened HuffmanCode

  const FAST_BITS: nat := 9
  const FAST_SIZE: nat := 512

  // ---- The ranked symbol list ----

  // Where the symbols of length s start in the list.
  function FirstSymbol(l: seq<nat>, s: nat): nat {
    if s <= 1 then 0 else FirstSymbol(l, s - 1) + Count(l, s - 1)
  }

  function Slot(l: seq<nat>, i: nat): nat
    requires i < |l|
  {
    FirstSymbol(l, l[i]) + Rank(l, i)
  }

  lemma {:induction false} FirstSymbolMonotone(l: seq<nat>, s: nat, t: nat)
    requires 1 <= s < t
    ensures FirstSymbol(l, s) + Count(l, s) <= FirstSymbol(l, t)
  {
    if s < t - 1 { FirstSymbolMonotone(l, s, t - 1); }
  }

  lemma {:induction false} FirstSymbolAppend(l: seq<nat>, x: nat, s: nat)
    requires s >= 1
    ensures FirstSymbol(l + [x], s) == FirstSymbol(l, s) + B(1 <= x < s)
  {
    hide Count;
    if s > 1 {
      FirstSymbolAppend(l, x, s - 1);
      CountAppend(l, x, s - 1);
    }
  }

  lemma {:induction false} FirstSymbolNone(s: nat)
    ensures FirstSymbol([], s) == 0
  {
    if s > 1 { FirstSymbolNone(s - 1); }
  }

  lemma {:induction false} ListFits(l: seq<nat>, s: nat)
    requires s >= 1
    ensures FirstSymbol(l, s) <= |l|
  {
    if l == [] {
      FirstSymbolNone(s);
    } else {
      var f := l[..|l| - 1];
      ListFits(f, s);
      FirstSymbolAppend(f, l[|l| - 1], s);
      assert l == f + [l[|l| - 1]];
    }
  }

  lemma SlotBound(l: seq<nat>, i: nat)
    requires Lengths(l) && Used(l, i)
    ensures Slot(l, i) < |l|
  {
    RankBound(l, i, |l|);
    assert l[..|l|] == l;
    ListFits(l, l[i] + 1);
  }

  lemma SlotsDiffer(l: seq<nat>, i: nat, j: nat)
    requires Used(l, i) && Used(l, j) && i < j
    ensures Slot(l, i) != Slot(l, j)
  {
    assert l[..|l|] == l;
    RankBound(l, i, |l|);
    RankBound(l, j, |l|);
    if l[i] == l[j] {
      RankBound(l, i, j);
    } else if l[i] < l[j] {
      FirstSymbolMonotone(l, l[i], l[j]);
    } else {
      FirstSymbolMonotone(l, l[j], l[i]);
    }
  }

  // The first n symbols are in the list.
  ghost predicate ListTable(l: seq<nat>, n: nat, size: seq<int>, value: seq<int>) {
    && |size| == |value| == SYMBOLS
    && forall i :: 0 <= i < n && i < |l| && l[i] > 0 && Slot(l, i) < SYMBOLS ==>
        size[Slot(l, i)] == l[i] && value[Slot(l, i)] == i
  }

  lemma ListGrows(l: seq<nat>, n: nat, size: seq<int>, value: seq<int>)
    requires Lengths(l) && Used(l, n) && ListTable(l, n, size, value)
    ensures Slot(l, n) < SYMBOLS
    ensures ListTable(l, n + 1, size[Slot(l, n) := l[n]], value[Slot(l, n) := n])
  {
    hide Slot;
    SlotBound(l, n);
    forall i | 0 <= i < n && l[i] > 0
      ensures Slot(l, i) != Slot(l, n)
    {
      SlotsDiffer(l, i, n);
    }
  }

  lemma ListSkips(l: seq<nat>, n: nat, size: seq<int>, value: seq<int>)
    requires n < |l| && l[n] == 0 && ListTable(l, n, size, value)
    ensures ListTable(l, n + 1, size, value)
  {
  }

  // ---- The fast table ----

  // Symbol i's word is short enough for the fast table and starts index x.
  predicate Indexes(l: seq<nat>, i: nat, x: nat) {
    i < |l| && 0 < l[i] <= FAST_BITS && Low(x, l[i]) == Lsb(Word(l, i))
  }

  // (s << 9) | i
  function FastValue(s: nat, i: nat): nat {
    FAST_SIZE * s + i
  }

  ghost predicate FastTable(l: seq<nat>, n: nat, fast: seq<int>) {
    && |fast| == FAST_SIZE
    && (forall i, x :: 0 <= i < n && 0 <= x < FAST_SIZE && Indexes(l, i, x) ==> fast[x] == FastValue(l[i], i))
    && (forall x :: 0 <= x < FAST_SIZE && fast[x] != 0 ==>
         fast[x] % FAST_SIZE < n && Indexes(l, fast[x] % FAST_SIZE, x) && fast[x] / FAST_SIZE == l[fast[x] % FAST_SIZE])
  }

  lemma OneIndex(l: seq<nat>, i: nat, j: nat, x: nat)
    requires Lengths(l) && Fits(l) && Indexes(l, i, x) && Indexes(l, j, x)
    ensures i == j
  {
    hide Word, Fits;
    var w := BitsOf(Low(x, 16), 16);
    SplitNumber(x, 16);
    LsbOfBits(Low(x, 16), 16);
    LowLow(x, 16, l[i]);
    LowLow(x, 16, l[j]);
    StartsWith(l, i, w);
    StartsWith(l, j, w);
    OneSymbol(l, i, j, w);
  }

  lemma FastGrows(l: seq<nat>, n: nat, fast: seq<int>, after: seq<int>)
    requires Lengths(l) && Fits(l) && Used(l, n) && l[n] <= FAST_BITS
    requires FastTable(l, n, fast) && |after| == FAST_SIZE
    requires forall x :: 0 <= x < FAST_SIZE ==> after[x] == if Indexes(l, n, x) then FastValue(l[n], n) else fast[x]
    ensures FastTable(l, n + 1, after)
  {
    hide Indexes, Fits;
    forall i, x | 0 <= i <= n && 0 <= x < FAST_SIZE && Indexes(l, i, x)
      ensures after[x] == FastValue(l[i], i)
    {
      if Indexes(l, n, x) {
        OneIndex(l, i, n, x);
      }
    }
  }

  lemma FastSkips(l: seq<nat>, n: nat, fast: seq<int>)
    requires n < |l| && (l[n] == 0 || l[n] > FAST_BITS) && FastTable(l, n, fast)
    ensures FastTable(l, n + 1, fast)
  {
  }

  // The indices a word occupies are the multiples of 1 << s above its reversal.
  lemma FirstIndex(l: seq<nat>, i: nat)
    requires Lengths(l) && Fits(l) && Used(l, i)
    ensures BitReverse(Value(l, i), l[i]) == Lsb(Word(l, i)) < Shl(1, l[i])
    ensures Low(Lsb(Word(l, i)), l[i]) == Lsb(Word(l, i))
  {
    hide Fits, BitReverse;
    var w := Word(l, i);
    WordValue(l, i);
    BitReverseReverses(BitsOf(Value(l, i), l[i]));
    LsbBound(w);
    LsbSplit(w, l[i]);
    assert w[..l[i]] == w;
  }

  // ---- The tables together ----

  ghost predicate CodeTable(l: seq<nat>, firstcode: seq<int>, maxcode: seq<int>, firstsymbol: seq<int>, n: nat)
    requires n <= 16
  {
    && |firstcode| == |firstsymbol| == 16 && |maxcode| == 17
    && (forall s :: 1 <= s < n ==> firstcode[s] == First(l, s) && firstsymbol[s] == FirstSymbol(l, s))
    && (forall s :: 1 <= s < n ==> maxcode[s] == Limit(l, s))
  }

  lemma CodeTableGrows(l: seq<nat>, firstcode: seq<int>, maxcode: seq<int>, firstsymbol: seq<int>, s: nat)
    requires 1 <= s <= 15 && CodeTable(l, firstcode, maxcode, firstsymbol, s)
    ensures CodeTable(l, firstcode[s := First(l, s)], maxcode[s := Limit(l, s)],
            firstsymbol[s := FirstSymbol(l, s)], s + 1)
  {
  }

  lemma Sentinel(l: seq<nat>, firstcode: seq<int>, maxcode: seq<int>, firstsymbol: seq<int>)
    requires CodeTable(l, firstcode, maxcode, firstsymbol, 16)
    ensures |maxcode| == 17 && CodeTable(l, firstcode, maxcode[16 := 0x1_0000], firstsymbol, 16)
  {
  }

  lemma CodeAt(l: seq<nat>, firstcode: seq<int>, maxcode: seq<int>, firstsymbol: seq<int>, s: nat)
    requires CodeTable(l, firstcode, maxcode, firstsymbol, 16) && 1 <= s <= 15
    ensures firstcode[s] == First(l, s) && firstsymbol[s] == FirstSymbol(l, s) && maxcode[s] == Limit(l, s)
  {
  }

  lemma CodeLimits(l: seq<nat>, firstcode: seq<int>, maxcode: seq<int>, firstsymbol: seq<int>)
    requires CodeTable(l, firstcode, maxcode, firstsymbol, 16)
    ensures |maxcode| == 17 && forall s :: 1 <= s <= 15 ==> maxcode[s] == Limit(l, s)
  {
  }

  lemma NextRank(l: seq<nat>, i: nat)
    requires i < |l|
    ensures forall s :: Count(l[..i + 1], s) == Count(l[..i], s) + B(l[i] == s)
  {
    assert l[..i + 1] == l[..i] + [l[i]];
    forall s
      ensures Count(l[..i + 1], s) == Count(l[..i], s) + B(l[i] == s)
    {
      CountAppend(l[..i], l[i], s);
    }
  }

  lemma FastLength(l: seq<nat>, n: nat, fast: seq<int>)
    requires FastTable(l, n, fast)
    ensures |fast| == FAST_SIZE
  {
  }

  lemma NextIndex(j: nat, s: nat)
    ensures Shl(1, s) > 0 && Low(j + Shl(1, s), s) == Low(j, s)
    ensures forall x :: j < x < j + Shl(1, s) ==> Low(x, s) != Low(j, s)
  {
    ShlOrder(1, 0, s);
    ShlZero(s);
    LowPeriod(j, s);
    forall x | j < x < j + Shl(1, s)
      ensures Low(x, s) != Low(j, s)
    {
      if Low(x, s) == Low(j, s) { LowSpacing(j, x, s); }
    }
  }

  lemma NoCodesYet(l: seq<nat>, firstcode: seq<int>, maxcode: seq<int>, firstsymbol: seq<int>)
    requires |firstcode| == |firstsymbol| == 16 && |maxcode| == 17
    ensures CodeTable(l, firstcode, maxcode, firstsymbol, 1)
    ensures First(l, 1) == FirstSymbol(l, 1) == 0 && Shl(1, 1) == 2
  {
  }

  lemma NextFirst(l: seq<nat>, s: nat)
    requires 1 <= s <= 15
    ensures First(l, s + 1) == 2 * (First(l, s) + Count(l, s)) && First(l, 1) == 0
    ensures FirstSymbol(l, s + 1) == FirstSymbol(l, s) + Count(l, s)
    ensures Limit(l, s) == Shl(First(l, s) + Count(l, s), 16 - s)
    ensures Shl(1, s + 1) == 2 * Shl(1, s)
  {
  }

  lemma FirstIndexIsLeast(r: nat, s: nat)
    ensures forall x: nat {:trigger Low(x, s)} :: x < r ==> Low(x, s) != r
  {
    forall x: nat | x < r
      ensures Low(x, s) != r
    {
      SplitNumber(x, s);
    }
  }

  // Codes of length s stay in the 16 bits of their field.
  lemma CodeFits(l: seq<nat>, s: nat)
    requires 1 <= s <= 15 && First(l, s) <= Shl(1, s)
    ensures First(l, s) < 0x1_0000
  {
    ShlShl(1, s, 16 - s);
    AllWindows();
    assert s + (16 - s) == 16;
    ShlGrows(Shl(1, s), 16 - s);
  }

  class Huffman {
    const fast: array<u16>
    const firstcode: array<u16>
    const maxcode: array<int>
    const firstsymbol: array<u16>
    const size: array<byte>
    const value: array<u16>

    ghost predicate Valid() {
      && fast.Length == FAST_SIZE && firstcode.Length == firstsymbol.Length == 16 && maxcode.Length == 17
      && size.Length == value.Length == SYMBOLS
      && fast != firstcode && fast != firstsymbol && fast != value
      && firstcode != firstsymbol && firstcode != value && firstsymbol != value
    }

    ghost predicate Built(l: seq<nat>)
      reads fast, firstcode, maxcode, firstsymbol, size, value
    {
      && Valid() && Lengths(l) && Fits(l)
      && FastTable(l, |l|, fast[..])
      && CodeTable(l, firstcode[..], maxcode[..], firstsymbol[..], 16) && maxcode[16] == 0x1_0000
      && ListTable(l, |l|, size[..], value[..])
    }

    constructor ()
      ensures Valid() && fresh(fast) && fresh(firstcode) && fresh(maxcode)
      ensures fresh(firstsymbol) && fresh(size) && fresh(value)
    {
      fast := new u16[FAST_SIZE](_ => 0);
      firstcode := new u16[16](_ => 0);
      maxcode := new int[17](_ => 0);
      firstsymbol := new u16[16](_ => 0);
      size := new byte[SYMBOLS](_ => 0);
      value := new u16[SYMBOLS](_ => 0);
    }

    // stbi__zbuild_huffman. Every number stored fits its field: none is cut off.
    method Build(l: seq<nat>) returns (ok: bool)
      requires Valid() && Lengths(l)
      modifies fast, firstcode, maxcode, firstsymbol, size, value
      ensures ok <==> Claimed(l) <= 0x1_0000
      ensures ok ==> Built(l)
    {
      hide CodeTable, FastTable, ListTable, Fits, Claimed;
      FitsIffKraft(l);
      ClearFast();
      var sizes := CountSizes(l);
      var nextCode;
      ok, nextCode := StartCodes(l, sizes);
      if !ok {
        return;
      }
      Sentinel(l, firstcode[..], maxcode[..], firstsymbol[..]);
      maxcode[16] := 0x1_0000;
      FillTables(l, nextCode);
    }

    method FillTables(l: seq<nat>, starts: seq<nat>)
      requires Valid() && Lengths(l) && Fits(l)
      requires CodeTable(l, firstcode[..], maxcode[..], firstsymbol[..], 16)
      requires |starts| == 16 && forall s :: 1 <= s <= 15 ==> starts[s] == First(l, s)
      requires forall x :: 0 <= x < FAST_SIZE ==> fast[x] == 0
      modifies fast, size, value
      ensures FastTable(l, |l|, fast[..]) && ListTable(l, |l|, size[..], value[..])
    {
      hide Count, Indexes, Fits, CodeTable;
      var nextCode := starts;
      for i := 0 to |l|
        invariant |nextCode| == 16
        invariant forall s :: 1 <= s <= 15 ==> nextCode[s] == First(l, s) + Count(l[..i], s)
        invariant FastTable(l, i, fast[..]) && ListTable(l, i, size[..], value[..])
      {
        var s := l[i];
        if s != 0 {
          CodeAt(l, firstcode[..], maxcode[..], firstsymbol[..], s);
          SlotBound(l, i);
          var c := nextCode[s] - firstcode[s] + firstsymbol[s];
          ListGrows(l, i, size[..], value[..]);
          size[c] := s;
          value[c] := i;
          if s <= FAST_BITS {
            FillIndexes(l, i, nextCode[s]);
          } else {
            FastSkips(l, i, fast[..]);
          }
          nextCode := nextCode[s := nextCode[s] + 1];
        } else {
          ListSkips(l, i, size[..], value[..]);
          FastSkips(l, i, fast[..]);
        }
        NextRank(l, i);
      }
    }

    // Every index that starts with symbol i's word.
    method FillIndexes(l: seq<nat>, i: nat, code: nat)
      requires Valid() && Lengths(l) && Fits(l) && Used(l, i) && l[i] <= FAST_BITS
      requires code == Value(l, i) && FastTable(l, i, fast[..])
      modifies fast
      ensures FastTable(l, i + 1, fast[..])
    {
      hide FastTable, Fits, Value, Word, BitReverse, Low;
      var s := l[i];
      ghost var before := fast[..];
      FastLength(l, i, before);
      FirstIndex(l, i);
      ghost var r := Lsb(Word(l, i));
      FirstIndexIsLeast(r, s);
      var j := BitReverse(code, s);
      while j < FAST_SIZE
        invariant Low(j, s) == r
        invariant forall x :: 0 <= x < FAST_SIZE ==>
            fast[x] == if x < j && Low(x, s) == r then FastValue(s, i) else before[x]
        decreases FAST_SIZE - j
      {
        fast[j] := FastValue(s, i);
        NextIndex(j, s);
        j := j + Shl(1, s);
      }
      FastGrows(l, i, before, fast[..]);
    }

    // memset(z->fast, 0, sizeof(z->fast))
    method ClearFast()
      requires fast.Length == FAST_SIZE
      modifies fast
      ensures forall x :: 0 <= x < FAST_SIZE ==> fast[x] == 0
    {
      for x := 0 to FAST_SIZE
        invariant forall y :: 0 <= y < x ==> fast[y] == 0
      {
        fast[x] := 0;
      }
    }

    static method CountSizes(l: seq<nat>) returns (sizes: seq<nat>)
      requires Lengths(l)
      ensures |sizes| == 17 && forall s :: 1 <= s <= 15 ==> sizes[s] == Count(l, s)
    {
      sizes := seq(17, _ => 0);
      for i := 0 to |l|
        invariant |sizes| == 17 && forall s :: 0 <= s <= 15 ==> sizes[s] == Count(l[..i], s)
      {
        assert l[..i + 1] == l[..i] + [l[i]];
        forall s | 0 <= s <= 15
          ensures Count(l[..i + 1], s) == Count(l[..i], s) + B(l[i] == s)
        {
          CountAppend(l[..i], l[i], s);
        }
        sizes := sizes[l[i] := sizes[l[i]] + 1];
      }
      assert l[..|l|] == l;
      sizes := sizes[0 := 0];
    }

    // The first loop over the lengths only rejects what the second would.
    method StartCodes(l: seq<nat>, sizes: seq<nat>) returns (ok: bool, nextCode: seq<nat>)
      requires Valid() && Lengths(l)
      requires |sizes| == 17 && forall s :: 1 <= s <= 15 ==> sizes[s] == Count(l, s)
      modifies firstcode, maxcode, firstsymbol
      ensures ok <==> Fits(l)
      ensures ok ==> CodeTable(l, firstcode[..], maxcode[..], firstsymbol[..], 16)
      ensures ok ==> |nextCode| == 16 && forall s :: 1 <= s <= 15 ==> nextCode[s] == First(l, s)
    {
      hide Count, CodeTable, First, FirstSymbol, Shl, Limit;
      nextCode := seq(16, _ => 0);
      var i := 1;
      while i < 16
        invariant 1 <= i <= 16
      {
        if sizes[i] > Shl(1, i) {
          return false, nextCode;
        }
        i := i + 1;
      }
      var code, k := 0, 0;
      i := 1;
      NoCodesYet(l, firstcode[..], maxcode[..], firstsymbol[..]);
      while i < 16
        invariant 1 <= i <= 16
        invariant code == First(l, i) && k == FirstSymbol(l, i) && code <= Shl(1, i)
        invariant forall s :: 1 <= s < i ==> First(l, s) + Count(l, s) <= Shl(1, s)
        invariant |nextCode| == 16 && forall s :: 1 <= s < i ==> nextCode[s] == First(l, s)
        invariant CodeTable(l, firstcode[..], maxcode[..], firstsymbol[..], i)
      {
        CodeFits(l, i);
        ListFits(l, i);
        NextFirst(l, i);
        CodeTableGrows(l, firstcode[..], maxcode[..], firstsymbol[..], i);
        nextCode := nextCode[i := code];
        firstcode[i] := code;
        firstsymbol[i] := k;
        code := code + sizes[i];
        if sizes[i] != 0 {
          if code - 1 >= Shl(1, i) {
            return false, nextCode;
          }
        }
        maxcode[i] := Shl(code, 16 - i);
        code := 2 * code;
        k := k + sizes[i];
        i := i + 1;
      }
      return true, nextCode;
    }
  }
}
