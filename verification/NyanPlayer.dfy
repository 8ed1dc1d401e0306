// decode_nyan_frame and draw_run: painting a frame's runs on a screen that may
// show only part of it.
module NyanPlayer {
  import opened Bytes
  import opened NyanCodec

  // Entry (r, c) of a table with rows of w entries: r * w + c, a row at a time.
  function At(r: nat, c: nat, w: nat): nat {
    if r == 0 then c else w + At(r - 1, c, w)
  }

  lemma {:induction false} AtIsProduct(r: nat, c: nat, w: nat)
    ensures At(r, c, w) == r * w + c
  {
    if r > 0 {
      AtIsProduct(r - 1, c, w);
      assert r * w == w + (r - 1) * w;
    }
  }

  lemma {:induction false} AtOrder(r: nat, c: nat, r': nat, c': nat, w: nat)
    requires c < w && c' < w
    ensures At(r, c, w) < At(r', c', w) <==> r < r' || (r == r' && c < c')
  {
    if r > 0 && r' > 0 {
      AtOrder(r - 1, c, r' - 1, c', w);
    }
  }

  // The end of row r is the start of the next.
  lemma {:induction false} AtEnd(r: nat, c: nat, n: nat, w: nat)
    ensures At(r, w, w) == At(r + 1, 0, w)
    ensures At(r, c + n, w) == At(r, c, w) + n
  {
    if r > 0 { AtEnd(r - 1, c, n, w); }
  }

  // A frame of w by h pixels whose corner is at (dx, dy) of a screen of sw by sh.
  datatype Geometry = Geometry(w: nat, h: nat, dx: int, dy: int, sw: nat, sh: nat)

  // Screen point (x, y) shows one of the frame's pixels [from, to).
  predicate Hits(g: Geometry, y: int, x: int, from: nat, to: nat) {
    y >= g.dy && g.dx <= x < g.dx + g.w && from <= At(y - g.dy, x - g.dx, g.w) < to
  }

  predicate OnScreen(g: Geometry, y: int, x: int) {
    0 <= y < g.sh && 0 <= x < g.sw
  }

  ghost predicate Fits(fb: seq<u32>, g: Geometry) {
    forall y, x {:trigger At(y, x, g.sw)} :: OnScreen(g, y, x) ==> At(y, x, g.sw) < |fb|
  }

  // The frame's pixels [from, to) have been drawn in one colour.
  ghost predicate Drawn(before: seq<u32>, after: seq<u32>, g: Geometry, from: nat, to: nat, color: u32)
    requires Fits(before, g)
  {
    && |after| == |before|
    && forall y, x {:trigger At(y, x, g.sw)} :: OnScreen(g, y, x) ==>
        after[At(y, x, g.sw)] == if Hits(g, y, x, from, to) then color else before[At(y, x, g.sw)]
  }

  // The first n pixels show their colours, and the rest of the screen is as before.
  ghost predicate Painted(before: seq<u32>, after: seq<u32>, g: Geometry, colors: seq<u16>, n: nat)
    requires Fits(before, g) && n <= |colors|
  {
    && |after| == |before|
    && forall y, x {:trigger At(y, x, g.sw)} :: OnScreen(g, y, x) ==>
        after[At(y, x, g.sw)] == if Hits(g, y, x, 0, n) then Xrgb(colors[At(y - g.dy, x - g.dx, g.w)])
            else before[At(y, x, g.sw)]
  }

  lemma ScreenFits(fb: seq<u32>, g: Geometry)
    requires |fb| == At(g.sh, 0, g.sw)
    ensures Fits(fb, g)
  {
    forall y, x | OnScreen(g, y, x)
      ensures At(y, x, g.sw) < |fb|
    {
      AtOrder(y, x, g.sh, 0, g.sw);
    }
  }

  lemma FitsFrame(before: seq<u32>, after: seq<u32>, g: Geometry)
    requires Fits(before, g) && |after| == |before|
    ensures Fits(after, g)
  {
  }

  lemma DrawnNothing(fb: seq<u32>, g: Geometry, n: nat, color: u32)
    requires Fits(fb, g)
    ensures Drawn(fb, fb, g, n, n, color)
  {
  }

  lemma DrawnMore(a: seq<u32>, b: seq<u32>, c: seq<u32>, g: Geometry, from: nat, mid: nat, to: nat, color: u32)
    requires Fits(a, g) && |b| == |a| && Fits(b, g) && from <= mid <= to
    requires Drawn(a, b, g, from, mid, color) && Drawn(b, c, g, mid, to, color)
    ensures Drawn(a, c, g, from, to, color)
  {
    hide At;
    forall y, x {:trigger At(y, x, g.sw)} | OnScreen(g, y, x)
      ensures c[At(y, x, g.sw)] == if Hits(g, y, x, from, to) then color else a[At(y, x, g.sw)]
    {
    }
  }

  lemma PaintedMore(a: seq<u32>, b: seq<u32>, c: seq<u32>, g: Geometry, colors: seq<u16>, n: nat, m: nat, color: u16)
    requires Fits(a, g) && |b| == |a| && Fits(b, g) && n <= m <= |colors|
    requires Painted(a, b, g, colors, n) && Drawn(b, c, g, n, m, Xrgb(color))
    requires forall k :: n <= k < m ==> colors[k] == color
    ensures Painted(a, c, g, colors, m)
  {
    hide At, Xrgb;
    forall y, x {:trigger At(y, x, g.sw)} | OnScreen(g, y, x)
      ensures c[At(y, x, g.sw)] ==
        if Hits(g, y, x, 0, m) then Xrgb(colors[At(y - g.dy, x - g.dx, g.w)]) else a[At(y, x, g.sw)]
    {
      assert Hits(g, y, x, 0, m) <==> Hits(g, y, x, 0, n) || Hits(g, y, x, n, m);
    }
  }

  // Pixels [At(row, col), + span) of one row are that row's columns.
  lemma SpanOfRow(g: Geometry, row: nat, col: nat, span: nat, r: nat, c: nat)
    requires col + span <= g.w && c < g.w
    ensures At(row, col, g.w) <= At(r, c, g.w) < At(row, col, g.w) + span <==> r == row && col <= c < col + span
  {
    if span > 0 {
      AtOrder(row, col, r, c, g.w);
      AtOrder(r, c, row, col, g.w);
      AtOrder(row, col + span - 1, r, c, g.w);
      AtOrder(r, c, row, col + span - 1, g.w);
    }
  }

  // fb_fill_span
  method FillSpan(fb: array<u32>, start: nat, n: nat, color: u32)
    requires start + n <= fb.Length
    modifies fb
    ensures forall i :: 0 <= i < fb.Length ==> fb[i] == if start <= i < start + n then color else old(fb[i])
  {
    for i := 0 to n
      invariant forall j :: 0 <= j < fb.Length ==> fb[j] == if start <= j < start + i then color else old(fb[j])
    {
      fb[start + i] := color;
    }
  }

  // One turn of draw_run: `span` pixels of one row, clipped to the screen.
  method DrawSpan(fb: array<u32>, g: Geometry, row: nat, col: nat, span: nat, color: u32)
    requires fb.Length == At(g.sh, 0, g.sw) && Fits(fb[..], g) && col + span <= g.w
    modifies fb
    ensures Fits(fb[..], g) && Drawn(old(fb[..]), fb[..], g, At(row, col, g.w), At(row, col, g.w) + span, color)
  {
    hide At, Fits, Drawn;
    ghost var before := fb[..];
    var y := g.dy + row;
    var x := g.dx + col;
    var drawX, drawW := x, span;
    if drawX < 0 {
      drawW := drawW + drawX;
      drawX := 0;
    }
    if drawX + drawW > g.sw {
      drawW := g.sw - drawX;
    }
    if 0 <= y < g.sh && drawW > 0 {
      RowFits(g, y, drawX, drawW);
      FillSpan(fb, At(y, drawX, g.sw), drawW, color);
      RowDrawn(before, fb[..], g, row, col, span, color, drawX, drawW);
    } else {
      RowHidden(before, g, row, col, span, color);
    }
    FitsFrame(before, fb[..], g);
  }

  lemma RowFits(g: Geometry, y: nat, x: nat, n: nat)
    requires y < g.sh && n > 0 && x + n <= g.sw
    ensures At(y, x, g.sw) + n <= At(g.sh, 0, g.sw)
  {
    AtEnd(y, x, n - 1, g.sw);
    AtOrder(y, x + n - 1, g.sh, 0, g.sw);
  }

  lemma RowDrawn(before: seq<u32>, after: seq<u32>, g: Geometry, row: nat, col: nat, span: nat, color: u32, x: nat,
      n: nat)
    requires Fits(before, g) && |after| == |before| && col + span <= g.w
    requires OnScreen(g, g.dy + row, x) && n > 0 && x + n <= g.sw
    requires x == if g.dx + col < 0 then 0 else g.dx + col
    requires x + n == if g.dx + col + span > g.sw then g.sw else g.dx + col + span
    requires forall i :: 0 <= i < |before| ==>
        after[i] == if At(g.dy + row, x, g.sw) <= i < At(g.dy + row, x, g.sw) + n then color else before[i]
    ensures Drawn(before, after, g, At(row, col, g.w), At(row, col, g.w) + span, color)
  {
    hide At;
    var s := Geometry(g.sw, g.sh, 0, 0, g.sw, g.sh);
    forall y, x' {:trigger At(y, x', g.sw)} | OnScreen(g, y, x')
      ensures after[At(y, x', g.sw)] == if Hits(g, y, x', At(row, col, g.w), At(row, col, g.w) + span) then color
              else before[At(y, x', g.sw)]
    {
      SpanOfRow(s, g.dy + row, x, n, y, x');
      if y >= g.dy && g.dx <= x' < g.dx + g.w {
        SpanOfRow(g, row, col, span, y - g.dy, x' - g.dx);
      }
    }
  }

  lemma RowHidden(fb: seq<u32>, g: Geometry, row: nat, col: nat, span: nat, color: u32)
    requires Fits(fb, g) && col + span <= g.w
    requires !(0 <= g.dy + row < g.sh) || g.dx + col + span <= 0 || g.dx + col >= g.sw || span == 0 || g.sw == 0
    ensures Drawn(fb, fb, g, At(row, col, g.w), At(row, col, g.w) + span, color)
  {
    hide At;
    forall y, x | OnScreen(g, y, x)
      ensures !Hits(g, y, x, At(row, col, g.w), At(row, col, g.w) + span)
    {
      if y >= g.dy && g.dx <= x < g.dx + g.w {
        SpanOfRow(g, row, col, span, y - g.dy, x - g.dx);
      }
    }
  }

  // draw_run: `count` pixels from (row, col) on, row by row.
  method DrawRun(fb: array<u32>, g: Geometry, row: nat, col: nat, count: nat, color: u32) returns (row': nat, col': nat)
    requires fb.Length == At(g.sh, 0, g.sw) && Fits(fb[..], g) && col < g.w
    modifies fb
    ensures col' < g.w && At(row', col', g.w) == At(row, col, g.w) + count
    ensures Fits(fb[..], g) && Drawn(old(fb[..]), fb[..], g, At(row, col, g.w), At(row, col, g.w) + count, color)
  {
    hide Fits, Drawn;
    ghost var before, start := fb[..], At(row, col, g.w);
    DrawnNothing(before, g, start, color);
    row', col' := row, col;
    var left: nat := count;
    while left > 0
      invariant col' < g.w && left <= count && At(row', col', g.w) == start + (count - left)
      invariant Fits(fb[..], g) && Drawn(before, fb[..], g, start, At(row', col', g.w), color)
    {
      hide At;
      ghost var now, at := fb[..], At(row', col', g.w);
      var span := g.w - col';
      if span > left {
        span := left;
      }
      DrawSpan(fb, g, row', col', span, color);
      SameLength(before, now, g, start, at, color);
      DrawnMore(before, now, fb[..], g, start, at, at + span, color);
      AtNext(row', col', span, g.w);
      col' := col' + span;
      if col' >= g.w {
        col' := 0;
        row' := row' + 1;
      }
      left := left - span;
    }
  }

  lemma SameLength(before: seq<u32>, after: seq<u32>, g: Geometry, from: nat, to: nat, color: u32)
    requires Fits(before, g) && Drawn(before, after, g, from, to, color)
    ensures |after| == |before|
  {
  }

  lemma AtNext(row: nat, col: nat, span: nat, w: nat)
    requires col + span <= w
    ensures At(row, col, w) + span == if col + span < w then At(row, col + span, w) else At(row + 1, 0, w)
  {
    AtEnd(row, col, span, w);
  }

  // le16 of the payload buffer
  method ReadRun(buf: seq<byte>, pos: nat, ghost i: nat) returns (r: Run)
    requires pos == 4 * i && pos + 4 <= |buf|
    ensures r == RunAt(buf, i)
  {
    r := Run(Le16(buf, pos), Le16(buf, pos + 2));
  }

  // The colours a payload of `size` bytes stands for.
  ghost function Decoded(buf: seq<byte>, size: nat): seq<u16>
    requires size <= |buf|
  {
    Flatten(Parse(buf, size / 4))
  }

  // decode_nyan_frame: paint as many pixels as the payload has, at most a frame.
  method DecodeFrame(fb: array<u32>, g: Geometry, buf: seq<byte>, size: nat) returns (ok: bool)
    requires fb.Length == At(g.sh, 0, g.sw) && size <= |buf| && g.w > 0
    modifies fb
    ensures Fits(old(fb[..]), g)
    ensures Painted(old(fb[..]), fb[..], g, Decoded(buf, size), Min(At(g.h, 0, g.w), |Decoded(buf, size)|))
    ensures ok <==> |Decoded(buf, size)| >= At(g.h, 0, g.w)
  {
    hide At, Fits, Drawn, Painted, Xrgb, Flatten, RunAt;
    ghost var before, rs, colors := fb[..], Parse(buf, size / 4), Decoded(buf, size);
    var pos, pixel := 0, 0;
    var total := At(g.h, 0, g.w);
    var row: nat, col: nat := 0, 0;
    ghost var i := 0;
    ScreenFits(before, g);
    PaintedNothing(before, g, colors);
    FlattenNone();
    while pos + 4 <= size && pixel < total
      invariant pos == 4 * i && i <= |rs| && pixel == Min(total, |Flatten(rs[..i])|)
      invariant Fits(fb[..], g) && |fb[..]| == |before| && pixel <= |colors|
      invariant Painted(before, fb[..], g, colors, pixel)
      invariant col < g.w && At(row, col, g.w) == pixel
      invariant |Flatten(rs[..i])| <= |colors|
      decreases size - pos
    {
      var run := ReadRun(buf, pos, i);
      FlattenPrefix(rs, i);
      pos, i := pos + 4, i + 1;
      if run.count == 0 {
        continue;
      }
      var count := run.count;
      if pixel + count > total {
        count := total - pixel;
      }
      ghost var now := fb[..];
      row, col := DrawRun(fb, g, row, col, count, Xrgb(run.color));
      PaintedMore(before, now, fb[..], g, colors, pixel, pixel + count, run.color);
      pixel := pixel + count;
    }
    if pixel < total {
      assert rs[..i] == rs;
    }
    ok := pixel == total;
  }

  lemma PaintedNothing(fb: seq<u32>, g: Geometry, colors: seq<u16>)
    requires Fits(fb, g) && g.w > 0
    ensures Painted(fb, fb, g, colors, 0) && At(0, 0, g.w) == 0
  {
  }

  lemma FlattenNone()
    ensures Flatten([]) == []
  {
  }

  // The i-th run's colours follow those of the runs before it.
  lemma FlattenPrefix(rs: seq<Run>, i: nat)
    requires i < |rs|
    ensures |Flatten(rs[..i + 1])| == |Flatten(rs[..i])| + rs[i].count <= |Flatten(rs)|
    ensures forall k :: |Flatten(rs[..i])| <= k < |Flatten(rs[..i + 1])| ==> Flatten(rs)[k] == rs[i].color
  {
    FlattenStep(rs[..i], rs[i]);
    assert rs[..i] + [rs[i]] == rs[..i + 1];
    FlattenStarts(rs, i + 1);
  }

  lemma {:induction false} FlattenStarts(rs: seq<Run>, n: nat)
    requires n <= |rs|
    ensures Flatten(rs[..n]) <= Flatten(rs)
  {
    if n == |rs| {
      assert rs[..n] == rs;
    } else {
      FlattenStarts(rs[..|rs| - 1], n);
      assert rs[..|rs| - 1][..n] == rs[..n];
    }
  }

  // Encoding a frame and decoding the payload shows every pixel at its place, each
  // channel near the frame's own byte, and uses the payload up exactly.
  lemma FrameShown(before: seq<u32>, after: seq<u32>, g: Geometry, rgb: seq<byte>, payload: seq<byte>, rs: seq<Run>)
    requires |rgb| == 3 * At(g.h, 0, g.w) && payload == Payload(rs) && Flatten(rs) == Colours(rgb, At(g.h, 0, g.w))
    requires Fits(before, g)
    requires Painted(before, after, g, Decoded(payload, |payload|), Min(At(g.h, 0, g.w), |Decoded(payload, |payload|)|))
    ensures |Decoded(payload, |payload|)| == At(g.h, 0, g.w)
    ensures forall r, c :: 0 <= r < g.h && 0 <= c < g.w && OnScreen(g, g.dy + r, g.dx + c) ==>
            Shows(after, g, rgb, r, c)
  {
    hide Xrgb, Flatten, Rgb565, NearPixel;
    ParsePayload(rs);
    var total := At(g.h, 0, g.w);
    hide At;
    forall r, c | 0 <= r < g.h && 0 <= c < g.w && OnScreen(g, g.dy + r, g.dx + c)
      ensures Shows(after, g, rgb, r, c)
    {
      AtOrder(r, c, g.h, 0, g.w);
      var k := 3 * At(r, c, g.w);
      ColourIsNear(rgb[k], rgb[k + 1], rgb[k + 2]);
    }
  }

  // Row r, column c of the frame is on the screen in pixel r * w + c's quantised
  // colour, which is near the three bytes the frame has there.
  predicate Shows(fb: seq<u32>, g: Geometry, rgb: seq<byte>, r: nat, c: nat)
    requires OnScreen(g, g.dy + r, g.dx + c)
  {
    && At(g.dy + r, g.dx + c, g.sw) < |fb| && 3 * At(r, c, g.w) + 3 <= |rgb|
    && fb[At(g.dy + r, g.dx + c, g.sw)] == Xrgb(Colour(rgb, At(r, c, g.w)))
    && var k := 3 * At(r, c, g.w);
    NearPixel(fb[At(g.dy + r, g.dx + c, g.sw)], rgb[k], rgb[k + 1], rgb[k + 2])
  }
}
