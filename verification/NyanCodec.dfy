// The run-length codec of the boot movie: nyanpack's encoder for one frame and
// the desktop's decoder, which paints as it reads.
module NyanCodec {
  import opened Bytes

  const MAX_RUN: nat := 65535

  // ---- Colours ----

  // (r << 11) | (g << 5) | b of the upper bits of three bytes
  function Rgb565(r: byte, g: byte, b: byte): u16 {
    r / 8 * 2048 + g / 4 * 32 + b / 8
  }

  function R5(c: u16): (v: nat) ensures v < 32 { c / 2048 }
  function G6(c: u16): (v: nat) ensures v < 64 { c / 32 % 64 }
  function B5(c: u16): (v: nat) ensures v < 32 { c % 32 }

  // (v << 3) | (v >> 2) and (v << 2) | (v >> 4): the top bits again below.
  function Widen5(v: nat): (w: byte)
    requires v < 32
    ensures w / 8 == v
  {
    v * 8 + v / 4
  }

  function Widen6(v: nat): (w: byte)
    requires v < 64
    ensures w / 4 == v
  {
    v * 4 + v / 16
  }

  // A channel's brightness is kept to within one part in 255: v of 31 becomes
  // very nearly the same share of 255.
  lemma WidenIsBrightness(v: nat)
    requires v < 64
    ensures v < 32 ==> -31 < 31 * Widen5(v) - 255 * v < 31
    ensures -63 < 63 * Widen6(v) - 255 * v < 63
  {
  }

  // A byte shown for a given one is off by less than `step`, and black and white
  // are not off at all.
  predicate Near(shown: nat, given: byte, step: nat) {
    && given < shown + step && shown < given + step
    && (given == 0 ==> shown == 0)
    && (given == 255 ==> shown == 255)
  }

  // rgb565_to_xrgb
  function Xrgb(c: u16): u32 {
    Widen5(R5(c)) * 0x1_0000 + Widen6(G6(c)) * 0x100 + Widen5(B5(c))
  }

  lemma Channels(c: u16)
    ensures c == R5(c) * 2048 + G6(c) * 32 + B5(c)
  {
  }

  // A decoded colour, taken apart and quantised again, is what it was.
  lemma Requantised(c: u16)
    ensures Rgb565(Widen5(R5(c)), Widen6(G6(c)), Widen5(B5(c))) == c
  {
    hide R5, G6, B5, Widen5, Widen6;
    Channels(c);
  }

  lemma Unpacked(r: byte, g: byte, b: byte, x: u32)
    requires x == r * 0x1_0000 + g * 0x100 + b
    ensures x / 0x1_0000 == r && x / 0x100 % 0x100 == g && x % 0x100 == b
  {
    assert x / 0x100 == r * 0x100 + g;
  }

  // The bytes a decoded pixel has on the screen.
  lemma XrgbBytes(c: u16)
    ensures Rgb565(Xrgb(c) / 0x1_0000, Xrgb(c) / 0x100 % 0x100, Xrgb(c) % 0x100) == c
  {
    hide R5, G6, B5, Widen5, Widen6, Rgb565;
    Requantised(c);
    Unpacked(Widen5(R5(c)), Widen6(G6(c)), Widen5(B5(c)), Xrgb(c));
  }

  lemma NearWidened(v: byte)
    ensures Near(Widen5(v / 8), v, 8) && Near(Widen6(v / 4), v, 4)
  {
  }

  // A screen word shows red in its third byte, green in its second and blue in its lowest.
  predicate NearPixel(x: u32, r: byte, g: byte, b: byte) {
    Near(x / 0x1_0000, r, 8) && Near(x / 0x100 % 0x100, g, 4) && Near(x % 0x100, b, 8)
  }

  lemma Fields(r: nat, g: nat, b: nat, c: u16)
    requires r < 32 && g < 64 && b < 32 && c == r * 2048 + g * 32 + b
    ensures R5(c) == r && G6(c) == g && B5(c) == b
  {
    assert c / 32 == r * 64 + g;
  }

  // A quantised colour, widened for the screen, has every channel near its own byte.
  lemma ColourIsNear(r: byte, g: byte, b: byte)
    ensures NearPixel(Xrgb(Rgb565(r, g, b)), r, g, b)
  {
    var c := Rgb565(r, g, b);
    hide R5, G6, B5, Widen5, Widen6, Near;
    Fields(r / 8, g / 4, b / 8, c);
    hide Rgb565;
    NearWidened(r);
    NearWidened(g);
    NearWidened(b);
    Unpacked(Widen5(R5(c)), Widen6(G6(c)), Widen5(B5(c)), Xrgb(c));
  }

  // The quantised colour of pixel k of an RGB24 frame.
  function Colour(rgb: seq<byte>, k: nat): u16
    requires 3 * k + 3 <= |rgb|
  {
    Rgb565(rgb[3 * k], rgb[3 * k + 1], rgb[3 * k + 2])
  }

  function Colours(rgb: seq<byte>, n: nat): (c: seq<u16>)
    requires 3 * n <= |rgb|
    ensures |c| == n && forall k :: 0 <= k < n ==> c[k] == Colour(rgb, k)
  {
    seq(n, k requires 0 <= k < n => Colour(rgb, k))
  }

  // ---- Runs and payloads ----

  datatype Run = Run(count: u16, color: u16)

  function Flatten(rs: seq<Run>): seq<u16> {
    if rs == [] then [] else
      var r := rs[|rs| - 1];
      Flatten(rs[..|rs| - 1]) + seq(r.count, _ => r.color)
  }

  function Payload(rs: seq<Run>): (p: seq<byte>)
    ensures |p| == 4 * |rs|
  {
    if rs == [] then [] else
      var r := rs[|rs| - 1];
      Payload(rs[..|rs| - 1]) + (Bytes16(r.count) + Bytes16(r.color))
  }

  // The i-th run of a payload.
  function RunAt(p: seq<byte>, i: nat): Run
    requires 4 * i + 4 <= |p|
  {
    Run(Le16(p, 4 * i), Le16(p, 4 * i + 2))
  }

  function Parse(p: seq<byte>, n: nat): (rs: seq<Run>)
    requires 4 * n <= |p|
    ensures |rs| == n && forall i :: 0 <= i < n ==> rs[i] == RunAt(p, i)
  {
    seq(n, i requires 0 <= i < n => RunAt(p, i))
  }

  // Reading a payload gives the runs that were written.
  lemma {:induction false} ParsePayload(rs: seq<Run>)
    ensures Parse(Payload(rs), |rs|) == rs
  {
    if rs != [] {
      var f, r := rs[..|rs| - 1], rs[|rs| - 1];
      ParsePayload(f);
      var t := Bytes16(r.count) + Bytes16(r.color);
      hide Payload;
      LastRun(Payload(f), r);
      forall i | 0 <= i < |f|
        ensures RunAt(Payload(f) + t, i) == f[i]
      {
        RunAtPrefix(Payload(f), t, i);
        assert RunAt(Payload(f), i) == Parse(Payload(f), |f|)[i];
      }
    }
  }

  lemma RunAtPrefix(p: seq<byte>, t: seq<byte>, i: nat)
    requires 4 * i + 4 <= |p|
    ensures RunAt(p + t, i) == RunAt(p, i)
  {
  }

  lemma LastRun(p: seq<byte>, r: Run)
    requires |p| % 4 == 0
    ensures RunAt(p + (Bytes16(r.count) + Bytes16(r.color)), |p| / 4) == r
  {
  }

  // What every run of an encoded frame is: neither empty nor too long, and never
  // followed by one of its own colour unless it is full.
  predicate Tight(rs: seq<Run>) {
    && (forall i :: 0 <= i < |rs| ==> rs[i].count >= 1)
    && (forall i :: 0 <= i < |rs| - 1 ==> rs[i].color != rs[i + 1].color || rs[i].count == 65535)
  }

  lemma FlattenStep(rs: seq<Run>, r: Run)
    ensures Flatten(rs + [r]) == Flatten(rs) + seq(r.count, _ => r.color)
    ensures Payload(rs + [r]) == Payload(rs) + (Bytes16(r.count) + Bytes16(r.color))
  {
  }

  // Runs that are not empty are no more than the pixels they cover.
  lemma {:induction false} FlattenLength(rs: seq<Run>)
    requires forall i :: 0 <= i < |rs| ==> rs[i].count >= 1
    ensures |rs| <= |Flatten(rs)|
  {
    if rs != [] {
      FlattenLength(rs[..|rs| - 1]);
    }
  }

  lemma NothingEncoded()
    ensures Payload([]) == [] && Flatten([]) == [] && Tight([])
  {
  }

  // One more run: the colours it covers, and the run before it.
  lemma EncodeStep(rgb: seq<byte>, pixels: nat, i: nat, run: u16, rs: seq<Run>, color: u16)
    requires |rgb| == 3 * pixels && 1 <= run && i + run <= pixels
    requires forall k :: i <= k < i + run ==> Colour(rgb, k) == color
    requires Flatten(rs) == Colours(rgb, pixels)[..i] && Tight(rs)
    requires rs != [] ==> rs[|rs| - 1].color != color || rs[|rs| - 1].count == MAX_RUN
    ensures Flatten(rs + [Run(run, color)]) == Colours(rgb, pixels)[..i + run]
    ensures Tight(rs + [Run(run, color)])
  {
    TightMore(rs, Run(run, color));
    hide Flatten, Colour, Payload, Tight;
    FlattenStep(rs, Run(run, color));
    ConstantSlice(Colours(rgb, pixels), i, run, color);
  }

  lemma ConstantSlice(c: seq<u16>, i: nat, n: nat, x: u16)
    requires i + n <= |c| && forall k :: i <= k < i + n ==> c[k] == x
    ensures c[..i + n] == c[..i] + seq(n, _ => x)
  {
  }

  lemma TightMore(rs: seq<Run>, r: Run)
    requires Tight(rs) && r.count >= 1
    requires rs != [] ==> rs[|rs| - 1].color != r.color || rs[|rs| - 1].count == MAX_RUN
    ensures Tight(rs + [r])
  {
  }

  // put_buf_le16
  method PutLe16(buf: array<byte>, pos: nat, v: u16) returns (next: nat)
    requires pos + 2 <= buf.Length
    modifies buf
    ensures next == pos + 2 && buf[..next] == old(buf[..pos]) + Bytes16(v)
  {
    buf[pos] := v % 0x100;
    buf[pos + 1] := v / 0x100;
    next := pos + 2;
  }

  // encode_frame: the payload of runs that spell the frame's quantised colours.
  method EncodeFrame(rgb: seq<byte>, pixels: nat, out: array<byte>) returns (pos: nat, ghost rs: seq<Run>)
    requires |rgb| == 3 * pixels && out.Length >= 4 * pixels
    modifies out
    ensures pos <= 4 * pixels && out[..pos] == Payload(rs)
    ensures Flatten(rs) == Colours(rgb, pixels) && Tight(rs)
  {
    hide Payload, Flatten, Tight, Colour, Bytes16;
    pos, rs := 0, [];
    var i := 0;
    NothingEncoded();
    while i < pixels
      invariant i <= pixels && pos == 4 * |rs| && |rs| <= i && out[..pos] == Payload(rs)
      invariant Flatten(rs) == Colours(rgb, pixels)[..i] && Tight(rs)
      invariant rs != [] && i < pixels ==> rs[|rs| - 1].color != Colour(rgb, i) || rs[|rs| - 1].count == MAX_RUN
    {
      var color := Colour(rgb, i);
      var run := 1;
      while i + run < pixels && run < MAX_RUN
        invariant 1 <= run <= MAX_RUN && i + run <= pixels
        invariant forall k :: i <= k < i + run ==> Colour(rgb, k) == color
        decreases pixels - run
      {
        if Colour(rgb, i + run) != color {
          break;
        }
        run := run + 1;
      }
      FlattenStep(rs, Run(run, color));
      EncodeStep(rgb, pixels, i, run, rs, color);
      ghost var start, before := pos, Payload(rs);
      pos := PutLe16(out, pos, run);
      pos := PutLe16(out, pos, color);
      assert out[..pos] == (before + Bytes16(run)) + Bytes16(color);
      assert out[..pos] == before + (Bytes16(run) + Bytes16(color));
      rs := rs + [Run(run, color)];
      i := i + run;
    }
  }
}
