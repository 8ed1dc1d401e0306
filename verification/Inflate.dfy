// The bit reader, the symbol decoder and the block loop of the zlib decoder,
// against DEFLATE blocks as functions of the bit string (RFC 1951, section 3.2.3).
module Inflate {
  import opened Bytes
  import opened BitStrings
  import opened HuffmanCode
  import opened HuffmanTable
  import opened LengthCodes

  const END_OF_BLOCK: nat := 256

  // ---- Back references ----

  // Append len bytes, each the byte dist places before it.
  function Copy(out: seq<byte>, len: nat, dist: nat): (r: seq<byte>)
    requires 1 <= dist <= |out|
    ensures |r| == |out| + len
    decreases len
  {
    if len == 0 then out else Copy(out + [out[|out| - dist]], len - 1, dist)
  }

  // Nothing written changes, and every byte added repeats the one dist before it.
  lemma {:induction false} CopyRepeats(out: seq<byte>, len: nat, dist: nat)
    requires 1 <= dist <= |out|
    ensures Copy(out, len, dist)[..|out|] == out
    ensures forall j {:trigger Copy(out, len, dist)[j]} :: |out| <= j < |out| + len ==>
            Copy(out, len, dist)[j] == Copy(out, len, dist)[j - dist]
    decreases len
  {
    if len > 0 {
      var more := out + [out[|out| - dist]];
      CopyRepeats(more, len - 1, dist);
      assert Copy(out, len, dist)[..|more|] == more;
      assert more[..|out|] == out;
      assert Copy(out, len, dist)[|out|] == more[|out|];
      assert Copy(out, len, dist)[|out| - dist] == more[|out| - dist];
    }
  }

  // Those two facts leave no choice.
  lemma {:induction false} CopyOnly(out: seq<byte>, len: nat, dist: nat, r: seq<byte>, n: nat)
    requires 1 <= dist <= |out| && |r| == |out| + len && r[..|out|] == out
    requires forall j {:trigger r[j]} :: |out| <= j < |out| + len ==> r[j] == r[j - dist]
    requires n <= |r|
    ensures forall j :: 0 <= j < n ==> r[j] == Copy(out, len, dist)[j]
    decreases n
  {
    hide Copy;
    var c := Copy(out, len, dist);
    CopyRepeats(out, len, dist);
    if n > 0 {
      CopyOnly(out, len, dist, r, n - 1);
      if n - 1 < |out| {
        assert r[n - 1] == r[..|out|][n - 1] && c[n - 1] == c[..|out|][n - 1];
      } else {
        assert r[n - 1] == r[n - 1 - dist] && c[n - 1] == c[n - 1 - dist];
      }
    }
  }

  // ---- Blocks as functions of the bit string ----

  // OutOfInput: the bits end inside a symbol. Reserved: a distance symbol of no
  // meaning, for which the source copies bytes it has not written.
  datatype Outcome = Done | BadCode | BadDistance | Reserved | OutOfInput
  datatype Matched = Matched(outcome: Outcome, rest: Bits, len: nat, dist: nat)
  datatype Parsed = Parsed(outcome: Outcome, rest: Bits, out: seq<byte>)

  ghost predicate Alphabets(ll: seq<nat>, dl: seq<nat>) {
    Lengths(ll) && Fits(ll) && Lengths(dl) && Fits(dl) && |dl| <= MAX_DISTS
  }

  // The length and distance that follow length symbol z + 257.
  ghost function Match(dl: seq<nat>, z: nat, bits: Bits, written: nat): (m: Matched)
    requires |dl| <= MAX_DISTS && z < 31
    ensures |m.rest| <= |bits|
    ensures m.outcome == Done && m.len > 0 ==> 1 <= m.dist <= written
  {
    var e := LengthExtra(z);
    if |bits| < e then Matched(OutOfInput, bits, 0, 0) else
      var len := LengthBase(z) + Lsb(bits[..e]);
      var rest := bits[e..];
      match Symbol(dl, rest)
      case None => Matched(BadCode, rest, 0, 0)
      case Some(d) =>
        var more := rest[dl[d]..];
        var f := DistExtra(d);
        if |more| < f then Matched(OutOfInput, more, 0, 0) else
          var dist := DistBase(d) + Lsb(more[..f]);
          Matched(if written < dist then BadDistance else if len > 0 && dist == 0 then Reserved
              else Done, more[f..], len, dist)
  }

  // A block after its header: literals and back references up to the end symbol.
  ghost function Inflated(ll: seq<nat>, dl: seq<nat>, bits: Bits, out: seq<byte>): (p: Parsed)
    requires Lengths(ll) && |dl| <= MAX_DISTS
    ensures |p.rest| <= |bits|
    decreases |bits|
  {
    match Symbol(ll, bits)
    case None => Parsed(BadCode, bits, out)
    case Some(z) =>
      var rest := bits[ll[z]..];
      if z < END_OF_BLOCK then Inflated(ll, dl, rest, out + [z])
      else if z == END_OF_BLOCK then Parsed(Done, rest, out)
      else
        var m := Match(dl, z - 257, rest, |out|);
        if m.outcome != Done then Parsed(m.outcome, m.rest, out)
        else Inflated(ll, dl, m.rest, if m.len == 0 then out else Copy(out, m.len, m.dist))
  }

  // ---- The other way: writing a block ----

  // A length symbol and a distance symbol, each with the value of its extra bits.
  datatype Token = Literal(b: byte) | Reference(ls: nat, lx: nat, ds: nat, dx: nat)

  function Len(t: Token): nat
    requires t.Reference? && t.ls < 31
  {
    LengthBase(t.ls) + t.lx
  }

  function Dist(t: Token): nat
    requires t.Reference? && t.ds < MAX_DISTS
  {
    DistBase(t.ds) + t.dx
  }

  // What a compressor may write after `written` bytes.
  predicate Legal(ll: seq<nat>, dl: seq<nat>, t: Token, written: nat) {
    match t
    case Literal(b) => Used(ll, b)
    case Reference(ls, lx, ds, dx) =>
      && ls < 31 && Used(ll, ls + 257) && lx < Shl(1, LengthExtra(ls))
      && ds < MAX_DISTS && Used(dl, ds) && dx < Shl(1, DistExtra(ds))
      && (Len(t) > 0 ==> Dist(t) > 0) && Dist(t) <= written
  }

  function Write(ll: seq<nat>, dl: seq<nat>, t: Token, written: nat): Bits
    requires Legal(ll, dl, t, written)
  {
    match t
    case Literal(b) => Word(ll, b)
    case Reference(ls, lx, ds, dx) =>
      Word(ll, ls + 257) + (BitsOf(lx, LengthExtra(ls)) + (Word(dl, ds) + BitsOf(dx, DistExtra(ds))))
  }

  function Expand(ll: seq<nat>, dl: seq<nat>, t: Token, out: seq<byte>): seq<byte>
    requires Legal(ll, dl, t, |out|)
  {
    if t.Literal? then out + [t.b] else if Len(t) == 0 then out else Copy(out, Len(t), Dist(t))
  }

  ghost predicate AllLegal(ll: seq<nat>, dl: seq<nat>, ts: seq<Token>, out: seq<byte>)
    decreases |ts|
  {
    ts == [] || (Legal(ll, dl, ts[0], |out|) && AllLegal(ll, dl, ts[1..], Expand(ll, dl, ts[0], out)))
  }

  ghost function WriteAll(ll: seq<nat>, dl: seq<nat>, ts: seq<Token>, out: seq<byte>): Bits
    requires AllLegal(ll, dl, ts, out) && Used(ll, END_OF_BLOCK)
    decreases |ts|
  {
    if ts == [] then Word(ll, END_OF_BLOCK)
    else Write(ll, dl, ts[0], |out|) + WriteAll(ll, dl, ts[1..], Expand(ll, dl, ts[0], out))
  }

  ghost function ExpandAll(ll: seq<nat>, dl: seq<nat>, ts: seq<Token>, out: seq<byte>): seq<byte>
    requires AllLegal(ll, dl, ts, out)
    decreases |ts|
  {
    if ts == [] then out else ExpandAll(ll, dl, ts[1..], Expand(ll, dl, ts[0], out))
  }

  lemma MatchOfReference(ll: seq<nat>, dl: seq<nat>, t: Token, written: nat, rest: Bits)
    requires Alphabets(ll, dl) && t.Reference? && Legal(ll, dl, t, written)
    ensures Match(dl, t.ls, BitsOf(t.lx, LengthExtra(t.ls)) + (Word(dl, t.ds) + (BitsOf(t.dx, DistExtra(t.ds)) + rest)),
            written) ==
            Matched(Done, rest, Len(t), Dist(t))
  {
    hide Word, Shl, Fits, LengthExtra, LengthBase, DistExtra, DistBase, Lsb, BitsOf;
    var e, f := LengthExtra(t.ls), DistExtra(t.ds);
    var dx := BitsOf(t.dx, f) + rest;
    var d := Word(dl, t.ds) + dx;
    var bits := BitsOf(t.lx, e) + d;
    assert bits[..e] == BitsOf(t.lx, e) && bits[e..] == d;
    assert dx[..f] == BitsOf(t.dx, f) && dx[f..] == rest;
    LsbOfBits(t.lx, e);
    LsbOfBits(t.dx, f);
    SymbolOfWord(dl, t.ds, dx);
  }

  // Reading one token back.
  lemma InflatedToken(ll: seq<nat>, dl: seq<nat>, t: Token, out: seq<byte>, rest: Bits)
    requires Alphabets(ll, dl) && Legal(ll, dl, t, |out|)
    ensures Inflated(ll, dl, Write(ll, dl, t, |out|) + rest, out) == Inflated(ll, dl, rest, Expand(ll, dl, t, out))
  {
    hide Word, Match, Fits, LengthExtra, LengthBase, DistExtra, DistBase, BitsOf;
    match t
    case Literal(b) =>
      SymbolOfWord(ll, b, rest);
    case Reference(ls, lx, ds, dx) =>
      var f := BitsOf(dx, DistExtra(ds));
      var d := Word(dl, ds) + f;
      var x := BitsOf(lx, LengthExtra(ls));
      var tail := x + (Word(dl, ds) + (f + rest));
      assert Write(ll, dl, t, |out|) + rest == Word(ll, ls + 257) + tail;
      SymbolOfWord(ll, ls + 257, tail);
      MatchOfReference(ll, dl, t, |out|, rest);
  }

  // The block a compressor writes for any legal tokens, whatever follows it, reads
  // back as what the tokens stand for.
  lemma {:induction false} TokensReadBack(ll: seq<nat>, dl: seq<nat>, ts: seq<Token>, out: seq<byte>, rest: Bits)
    requires Alphabets(ll, dl) && Used(ll, END_OF_BLOCK) && AllLegal(ll, dl, ts, out)
    ensures Inflated(ll, dl, WriteAll(ll, dl, ts, out) + rest, out) == Parsed(Done, rest, ExpandAll(ll, dl, ts, out))
    decreases |ts|
  {
    hide Legal, Write, Expand, Fits, Match, Word;
    if ts == [] {
      SymbolOfWord(ll, END_OF_BLOCK, rest);
    } else {
      var more := Expand(ll, dl, ts[0], out);
      var tail := WriteAll(ll, dl, ts[1..], more);
      TokensReadBack(ll, dl, ts[1..], more, rest);
      InflatedToken(ll, dl, ts[0], out, tail + rest);
      assert WriteAll(ll, dl, ts, out) + rest == Write(ll, dl, ts[0], |out|) + (tail + rest);
    }
  }

  // ---- What is compressed: bytes, and repetitions of what was written before ----

  datatype Item = Byte(b: byte) | Repeat(len: nat, dist: nat)

  predicate Possible(i: Item, written: nat) {
    i.Repeat? ==> MIN_LENGTH <= i.len <= MAX_LENGTH && 1 <= i.dist <= MAX_DISTANCE && i.dist <= written
  }

  function Unpack(i: Item, out: seq<byte>): (r: seq<byte>)
    requires Possible(i, |out|)
  {
    match i
    case Byte(b) => out + [b]
    case Repeat(len, dist) => Copy(out, len, dist)
  }

  // The token's symbols stand for the item and have code words.
  predicate Codes(ll: seq<nat>, dl: seq<nat>, i: Item, t: Token) {
    match i
    case Byte(b) => t == Literal(b) && Used(ll, b)
    case Repeat(len, dist) =>
      && t.Reference? && IsLength(len, t.ls, t.lx) && IsDistance(dist, t.ds, t.dx)
      && Used(ll, 257 + t.ls) && Used(dl, t.ds)
  }

  predicate AllCode(ll: seq<nat>, dl: seq<nat>, items: seq<Item>, ts: seq<Token>) {
    |items| == |ts| && forall k :: 0 <= k < |items| ==> Codes(ll, dl, items[k], ts[k])
  }

  predicate AllPossible(items: seq<Item>, out: seq<byte>)
    decreases |items|
  {
    items == [] || (Possible(items[0], |out|) && AllPossible(items[1..], Unpack(items[0], out)))
  }

  // What the items come to after what was written before.
  function UnpackAll(items: seq<Item>, out: seq<byte>): seq<byte>
    requires AllPossible(items, out)
    decreases |items|
  {
    if items == [] then out else UnpackAll(items[1..], Unpack(items[0], out))
  }

  // An item whose symbols have code words can be written.
  lemma Codable(ll: seq<nat>, dl: seq<nat>, i: Item, written: nat)
    requires Possible(i, written)
    requires match i
             case Byte(b) => Used(ll, b)
             case Repeat(len, dist) => Used(ll, 257 + LengthSym(len)) && Used(dl, DistSym(dist))
    ensures exists t :: Codes(ll, dl, i, t)
  {
    hide LengthSym, DistSym, IsLength, IsDistance, Used;
    match i
    case Byte(b) =>
      assert Codes(ll, dl, i, Literal(b));
    case Repeat(len, dist) =>
      LengthOnce(len);
      DistanceOnce(dist);
      var z, d := LengthSym(len), DistSym(dist);
      CodeOf(len, dist, z, d);
      assert Codes(ll, dl, i, Reference(z, len - LengthBase(z), d, dist - DistBase(d)));
  }

  lemma CodeOf(len: nat, dist: nat, z: nat, d: nat)
    ensures z < 29 && IsLength(len, z, len - LengthBase(z)) ==> LengthBase(z) <= len
    ensures d < 30 && IsDistance(dist, d, dist - DistBase(d)) ==> DistBase(d) <= dist
  {
  }

  lemma CodesLegal(ll: seq<nat>, dl: seq<nat>, i: Item, t: Token, out: seq<byte>)
    requires Possible(i, |out|) && Codes(ll, dl, i, t)
    ensures Legal(ll, dl, t, |out|) && Expand(ll, dl, t, out) == Unpack(i, out)
  {
    hide Used, Copy, LengthBase, LengthExtra, DistBase, DistExtra, Shl;
  }

  lemma {:induction false} AllLegalCodes(ll: seq<nat>, dl: seq<nat>, items: seq<Item>, ts: seq<Token>, out: seq<byte>)
    requires AllPossible(items, out) && AllCode(ll, dl, items, ts)
    ensures AllLegal(ll, dl, ts, out) && ExpandAll(ll, dl, ts, out) == UnpackAll(items, out)
    decreases |items|
  {
    hide Legal, Expand, Unpack, Codes, Possible;
    if items != [] {
      CodesLegal(ll, dl, items[0], ts[0], out);
      AllLegalCodes(ll, dl, items[1..], ts[1..], Unpack(items[0], out));
    }
  }

  // Decompression inverts compression: bytes and repetitions, written with any
  // symbols that stand for them, read back as the bytes they unpack to.
  lemma RoundTrip(ll: seq<nat>, dl: seq<nat>, items: seq<Item>, ts: seq<Token>, out: seq<byte>, rest: Bits)
    requires Alphabets(ll, dl) && Used(ll, END_OF_BLOCK) && AllPossible(items, out) && AllCode(ll, dl, items, ts)
    ensures AllLegal(ll, dl, ts, out)
    ensures Inflated(ll, dl, WriteAll(ll, dl, ts, out) + rest, out)
         == Parsed(Done, rest, UnpackAll(items, out))
  {
    AllLegalCodes(ll, dl, items, ts, out);
    TokensReadBack(ll, dl, ts, out, rest);
  }

  // ---- The bit reader ----

  function DataBits(d: seq<byte>): Bits {
    if d == [] then [] else BitsOf(d[0], 8) + DataBits(d[1..])
  }

  lemma {:induction false} DataBitsLength(d: seq<byte>)
    ensures |DataBits(d)| == 8 * |d|
  {
    if d != [] { DataBitsLength(d[1..]); }
  }

  // code_buffer |= byte << num_bits
  lemma ByteAppends(buffer: nat, n: nat, b: byte)
    requires buffer < Shl(1, n)
    ensures BitsOf(Or(buffer, Shl(b, n)), n + 8) == BitsOf(buffer, n) + BitsOf(b, 8)
    ensures Or(buffer, Shl(b, n)) < Shl(1, n + 8)
  {
    hide Or, Shl, Lsb, BitsOf;
    var x, y := BitsOf(buffer, n), BitsOf(b, 8);
    ByteWidth();
    LsbOfBits(buffer, n);
    LsbOfBits(b, 8);
    OrAppends(x, y);
    BitsOfLsb(x + y);
    LsbBound(x + y);
  }

  lemma ByteWidth()
    ensures Shl(1, 8) == 0x100
  {
  }

  // ---- Decoding one symbol ----

  // What the fast table finds is the symbol the buffer starts with.
  lemma FastHit(l: seq<nat>, fast: seq<int>, buffer: nat, n: nat)
    requires Lengths(l) && Fits(l) && FastTable(l, |l|, fast) && n >= 16 && buffer < Shl(1, n)
    requires Low(buffer, FAST_BITS) < FAST_SIZE && fast[Low(buffer, FAST_BITS)] != 0
    ensures var b := fast[Low(buffer, FAST_BITS)];
            Starts(l, b % FAST_SIZE, BitsOf(buffer, n)) && b / FAST_SIZE == l[b % FAST_SIZE]
  {
    hide Low, Lsb, BitsOf, Word, Fits, Shl;
    var i := fast[Low(buffer, FAST_BITS)] % FAST_SIZE;
    LowLow(buffer, FAST_BITS, l[i]);
    LsbOfBits(buffer, n);
    StartsWith(l, i, BitsOf(buffer, n));
  }

  // What it does not find starts with no short word.
  lemma FastMiss(l: seq<nat>, fast: seq<int>, buffer: nat, n: nat, i: nat)
    requires Lengths(l) && Fits(l) && FastTable(l, |l|, fast) && n >= 16 && buffer < Shl(1, n)
    requires Low(buffer, FAST_BITS) < FAST_SIZE && fast[Low(buffer, FAST_BITS)] == 0
    requires Starts(l, i, BitsOf(buffer, n))
    ensures l[i] > FAST_BITS
  {
    hide Low, Lsb, BitsOf, Word, Fits, Shl;
    if l[i] <= FAST_BITS {
      LowLow(buffer, FAST_BITS, l[i]);
      LsbOfBits(buffer, n);
      StartsWith(l, i, BitsOf(buffer, n));
    }
  }

  lemma FastIndex(buffer: nat)
    ensures Low(buffer, FAST_BITS) < FAST_SIZE
  {
    SplitNumber(buffer, FAST_BITS);
    ByteWidth();
    assert Shl(1, 9) == 2 * Shl(1, 8);
  }

  // The slow path's number is the window read with its first bit on top.
  lemma SlowWindow(buffer: nat, n: nat)
    requires n >= 16 && buffer < Shl(1, n)
    ensures BitReverse(Low(buffer, 16), 16) == Msb(BitsOf(buffer, n)[..16]) < 0x1_0000
  {
    hide Low, Lsb, BitsOf, BitReverse, Shl;
    var b := BitsOf(buffer, n);
    LsbOfBits(buffer, n);
    LsbSplit(b, 16);
    BitReverseReverses(b[..16]);
    MsbSplit(b[..16], 16);
    AllWindows();
  }

  // A window below the limit of length 9 starts with a word the fast table has.
  lemma SlowStart(l: seq<nat>, fast: seq<int>, buffer: nat, n: nat)
    requires Lengths(l) && Fits(l) && FastTable(l, |l|, fast) && n >= 16 && buffer < Shl(1, n)
    requires Low(buffer, FAST_BITS) < FAST_SIZE && fast[Low(buffer, FAST_BITS)] == 0
    ensures Limit(l, FAST_BITS) <= Msb(BitsOf(buffer, n)[..16])
  {
    hide Low, BitsOf, Fits, FastTable, Shl, Limit, Least, Beyond, Msb;
    var w := BitsOf(buffer, n)[..16];
    if Msb(w) < Limit(l, FAST_BITS) {
      var i := Covered(l, Msb(w), FAST_BITS);
      StartsWith(l, i, w);
      FastMiss(l, fast, buffer, n, i);
    }
  }

  lemma SlowMiss(l: seq<nat>, bits: Bits)
    requires Lengths(l) && Fits(l) && |bits| >= 16 && Msb(bits[..16]) >= Limit(l, 15)
    ensures Symbol(l, bits) == None
  {
    hide Fits, Limit, Least, Beyond, Msb, Word;
    forall i: nat
      ensures !Starts(l, i, bits)
    {
      if Starts(l, i, bits) {
        assert Word(l, i) <= bits[..16];
        StartsWith(l, i, bits[..16]);
        BelowLimit(l, i);
        LimitMonotone(l, l[i], 15);
      }
    }
  }

  // The list position the slow path computes is that of the symbol it wants.
  lemma SlowHit(l: seq<nat>, bits: Bits, s: nat, size: seq<int>, value: seq<int>)
    requires Lengths(l) && Fits(l) && |bits| >= 16 && 1 <= s <= 15 && ListTable(l, |l|, size, value)
    requires Limit(l, s - 1) <= Msb(bits[..16]) < Limit(l, s)
    ensures var b := Shr(Msb(bits[..16]), 16 - s) - First(l, s) + FirstSymbol(l, s);
      0 <= b < SYMBOLS && size[b] == s && 0 <= value[b] && Starts(l, value[b], bits) && l[value[b]] == s
  {
    hide Fits, Limit, Least, Beyond, Msb, Word, First, FirstSymbol, Count, Shr;
    var i := WordOfLength(l, Msb(bits[..16]), s);
    StartsWith(l, i, bits[..16]);
    SlotBound(l, i);
  }

  class Reader {
    const data: seq<byte>  // what can be read from zbuffer on
    const end: nat         // zbuffer_end
    var pos: nat
    var numBits: nat
    var codeBuffer: nat
    var out: seq<byte>     // [zout_start, zout)

    constructor (data: seq<byte>, end: nat)
      requires end <= |data|
      ensures Valid() && out == [] && Stream() == DataBits(data)
    {
      this.data, this.end := data, end;
      pos, numBits, codeBuffer, out := 0, 0, 0, [];
    }

    ghost predicate Valid()
      reads this
    {
      end <= |data| && pos <= |data| && numBits <= 32 && codeBuffer < Shl(1, numBits)
    }

    // The bits not yet consumed.
    ghost function Stream(): Bits
      reads this
      requires pos <= |data|
    {
      BitsOf(codeBuffer, numBits) + DataBits(data[pos..])
    }

    // So few bits are left that reading one symbol may run into the end.
    ghost predicate Short()
      reads this
      requires end <= |data| && pos <= |data|
    {
      |Stream()| < 25 + 8 * (|data| - end)
    }

    // stbi__fill_bits. The source does not look for the end of its memory; here
    // the loop stops there and reports it.
    method FillBits() returns (ok: bool)
      requires Valid() && numBits <= 24
      modifies this`pos, this`numBits, this`codeBuffer
      ensures Valid() && Stream() == old(Stream())
      ensures if ok then numBits > 24 else Short()
    {
      hide Or, Shl, BitsOf, DataBits;
      DataBitsLength(data[pos..]);
      while numBits <= 24
        invariant Valid() && Stream() == old(Stream())
        decreases 32 - numBits
      {
        if pos == |data| {
          DataBitsLength(data[pos..]);
          return false;
        }
        ByteAppends(codeBuffer, numBits, data[pos]);
        NextByte(data[pos..]);
        codeBuffer := Or(codeBuffer, Shl(data[pos], numBits));
        numBits := numBits + 8;
        pos := pos + 1;
      }
      return true;
    }

    // code_buffer >>= n, num_bits -= n
    method Skip(n: nat)
      requires Valid() && n <= numBits
      modifies this`numBits, this`codeBuffer
      ensures Valid() && n <= |old(Stream())| && Stream() == old(Stream())[n..]
    {
      hide Shl, Shr, BitsOf, DataBits;
      BitsDrop(codeBuffer, numBits, n);
      codeBuffer := Shr(codeBuffer, n);
      numBits := numBits - n;
    }

    // stbi__zreceive
    method Receive(n: nat) returns (ok: bool, k: nat)
      requires Valid() && n <= 16
      modifies this`pos, this`numBits, this`codeBuffer
      ensures Valid()
      ensures ok ==> n <= |old(Stream())| && k == Lsb(old(Stream())[..n]) && Stream() == old(Stream())[n..]
      ensures !ok ==> Stream() == old(Stream()) && Short()
    {
      hide Shl, Shr, BitsOf, DataBits, Low, Lsb;
      if numBits < n {
        ok := FillBits();
        if !ok {
          return false, 0;
        }
      }
      BitsDrop(codeBuffer, numBits, n);
      assert Stream()[..n] == BitsOf(codeBuffer, numBits)[..n];
      k := Low(codeBuffer, n);
      Skip(n);
      return true, k;
    }

    // if (extra) value += stbi__zreceive(a, extra)
    method ReceiveExtra(n: nat) returns (ok: bool, k: nat)
      requires Valid() && n <= 16
      modifies this`pos, this`numBits, this`codeBuffer
      ensures Valid()
      ensures ok ==> n <= |old(Stream())| && k == Lsb(old(Stream())[..n]) && Stream() == old(Stream())[n..]
      ensures !ok ==> Stream() == old(Stream()) && Short()
    {
      if n == 0 {
        return true, 0;
      }
      ok, k := Receive(n);
    }

    // stbi__zhuffman_decode
    method Decode(z: Huffman, ghost l: seq<nat>) returns (r: int)
      requires Valid() && z.Built(l)
      modifies this`pos, this`numBits, this`codeBuffer
      ensures Valid()
      ensures r >= 0 ==> Symbol(l, old(Stream())) == Some(r) && Stream() == old(Stream())[l[r]..]
      ensures r < 0 ==> r == -1 && Stream() == old(Stream()) && (Symbol(l, Stream()) == None || Short())
    {
      hide Shl, BitsOf, DataBits, Low, FastTable, CodeTable, ListTable, Fits, Symbol;
      if numBits < 16 {
        if pos >= end {
          DataBitsLength(data[pos..]);
          return -1;
        }
        var ok := FillBits();
        if !ok {
          return -1;
        }
      }
      FastIndex(codeBuffer);
      FastLength(l, |l|, z.fast[..]);
      ghost var buffer := BitsOf(codeBuffer, numBits);
      var b := z.fast[Low(codeBuffer, FAST_BITS)];
      if b != 0 {
        FastHit(l, z.fast[..], codeBuffer, numBits);
        r := b % FAST_SIZE;
        SymbolUnique(l, r, Stream());
        Skip(b / FAST_SIZE);
        return;
      }
      r := DecodeSlowly(z, l);
    }

    // stbi__zhuffman_decode_slowpath
    method DecodeSlowly(z: Huffman, ghost l: seq<nat>) returns (r: int)
      requires Valid() && z.Built(l) && numBits >= 16
      requires Low(codeBuffer, FAST_BITS) < FAST_SIZE && z.fast[Low(codeBuffer, FAST_BITS)] == 0
      modifies this`numBits, this`codeBuffer
      ensures Valid()
      ensures r >= 0 ==> Symbol(l, old(Stream())) == Some(r) && Stream() == old(Stream())[l[r]..]
      ensures r < 0 ==> r == -1 && Stream() == old(Stream()) && Symbol(l, Stream()) == None
    {
      hide Shl, Shr, BitsOf, DataBits, Low, FastTable, CodeTable, ListTable, Fits, Symbol, BitReverse, Limit, Msb;
      SlowWindow(codeBuffer, numBits);
      SlowStart(l, z.fast[..], codeBuffer, numBits);
      assert Stream()[..16] == BitsOf(codeBuffer, numBits)[..16];
      var k := BitReverse(Low(codeBuffer, 16), 16);
      var s := FAST_BITS + 1;
      CodeLimits(l, z.firstcode[..], z.maxcode[..], z.firstsymbol[..]);
      while !(k < z.maxcode[s])
        invariant FAST_BITS < s <= 16 && Limit(l, s - 1) <= k
        decreases 16 - s
      {
        s := s + 1;
      }
      if s >= 16 {
        SlowMiss(l, Stream());
        return -1;
      }
      CodeAt(l, z.firstcode[..], z.maxcode[..], z.firstsymbol[..], s);
      SlowHit(l, Stream(), s, z.size[..], z.value[..]);
      var b := Shr(k, 16 - s) - z.firstcode[s] + z.firstsymbol[s];
      // For a table that was built, the source's two checks of b always pass.
      assert 0 <= b < SYMBOLS && z.size[b] == s;
      r := z.value[b];
      SymbolUnique(l, r, Stream());
      Skip(s);
    }

    // The copy of stbi__parse_huffman_block: a run of one byte, byte by byte
    // where source and target overlap, or all at once.
    method CopyBack(len: nat, dist: nat)
      requires 1 <= dist <= |out|
      modifies this`out
      ensures out == Copy(old(out), len, dist)
    {
      var start := |out|;
      ghost var before := out;
      if dist == 1 {
        var run := out[start - 1];
        out := out + seq(len, _ => run);
      } else if len >= dist {
        var p := start - dist;
        ghost var left := len;
        while |out| < start + len
          invariant start <= |out| <= start + len && p == |out| - dist
          invariant left == start + len - |out| && Copy(out, left, dist) == Copy(before, len, dist)
        {
          out := out + [out[p]];
          p := p + 1;
          left := left - 1;
        }
        return;
      } else {
        out := out + out[start - dist..start - dist + len];
      }
      CopyOnly(before, len, dist, out, |out|);
    }

    // stbi__parse_huffman_block
    method ParseBlock(zLength: Huffman, zDistance: Huffman, ghost ll: seq<nat>, ghost dl: seq<nat>)
        returns (outcome: Outcome)
      requires Valid() && zLength.Built(ll) && zDistance.Built(dl) && |dl| <= MAX_DISTS
      modifies this
      ensures Valid()
      ensures Agrees(Inflated(ll, dl, old(Stream()), old(out)), outcome, Stream(), out, 25 + 8 * (|data| - end))
    {
      hide Shl, BitsOf, DataBits, Symbol, Match, Fits, FastTable, CodeTable, ListTable;
      ghost var whole := Inflated(ll, dl, Stream(), out);
      while true
        invariant Valid() && Inflated(ll, dl, Stream(), out) == whole
        decreases |Stream()|
      {
        ghost var bits := Stream();
        var z := Decode(zLength, ll);
        if z < 0 {
          return BadCode;
        }
        if z < END_OF_BLOCK {
          out := out + [z];
        } else if z == END_OF_BLOCK {
          return Done;
        } else {
          var bad;
          bad := ParseReference(zDistance, dl, z - 257);
          if bad != Done {
            return bad;
          }
        }
      }
    }

    // The length and the distance after length symbol z + 257, and the copy.
    method ParseReference(zDistance: Huffman, ghost dl: seq<nat>, z: nat) returns (outcome: Outcome)
      requires Valid() && zDistance.Built(dl) && |dl| <= MAX_DISTS && z < 31
      modifies this
      ensures Valid()
      ensures var m := Match(dl, z, old(Stream()), |old(out)|);
        if outcome == Done then
          m.outcome == Done && Stream() == m.rest && out == if m.len == 0 then old(out)
              else Copy(old(out), m.len, m.dist)
        else
          out == old(out)
              && (outcome == m.outcome || (outcome in {BadCode, OutOfInput} && |m.rest| < 25 + 8 * (|data| - end)))
    {
      hide Shl, BitsOf, DataBits, Lsb, Symbol, Fits, FastTable, CodeTable, ListTable, LengthBase, LengthExtra, DistBase,
          DistExtra, Copy, Lengths;
      var ok, x := ReceiveExtra(LengthExtra(z));
      if !ok {
        return OutOfInput;
      }
      var len := LengthBase(z) + x;
      var d := Decode(zDistance, dl);
      if d < 0 {
        return BadCode;
      }
      ok, x := ReceiveExtra(DistExtra(d));
      if !ok {
        return OutOfInput;
      }
      var dist := DistBase(d) + x;
      if |out| < dist {
        return BadDistance;
      }
      if len != 0 {
        if dist == 0 {
          return Reserved;
        }
        CopyBack(len, dist);
      }
      return Done;
    }
  }

  // What the loop of a block has found agrees with the block as a function,
  // except that input that ends too early is an error wherever that is noticed.
  ghost predicate Agrees(p: Parsed, outcome: Outcome, stream: Bits, out: seq<byte>, short: nat) {
    || (outcome == p.outcome && out == p.out && (outcome == Done ==> stream == p.rest))
    || (outcome in {BadCode, OutOfInput} && |p.rest| < short)
  }

  // The block loop unpacks whatever was written, given the bits that follow.
  lemma BlockReadsBack(ll: seq<nat>, dl: seq<nat>, items: seq<Item>, ts: seq<Token>, out: seq<byte>, rest: Bits,
      outcome: Outcome, stream: Bits, after: seq<byte>, short: nat)
    requires Alphabets(ll, dl) && Used(ll, END_OF_BLOCK) && short <= |rest|
    requires AllPossible(items, out) && AllCode(ll, dl, items, ts) && AllLegal(ll, dl, ts, out)
    requires Agrees(Inflated(ll, dl, WriteAll(ll, dl, ts, out) + rest, out), outcome, stream, after, short)
    ensures outcome == Done && stream == rest && after == UnpackAll(items, out)
  {
    RoundTrip(ll, dl, items, ts, out, rest);
  }

  lemma NextByte(d: seq<byte>)
    requires d != []
    ensures DataBits(d) == BitsOf(d[0], 8) + DataBits(d[1..])
  {
  }
}
