// A pipe's ring buffer and the bytes that pass through it.
module Pipes {
  import opened Bytes

  const PIPE_BUF_SIZE: nat := 16384

  datatype Pipe = Pipe(used: bool, readers: nat, writers: nat, rpos: nat, wpos: nat, count: nat, buf: seq<byte>)

  ghost predicate Ring(p: Pipe) {
    && |p.buf| == PIPE_BUF_SIZE && p.rpos < PIPE_BUF_SIZE && p.wpos < PIPE_BUF_SIZE && p.count <= PIPE_BUF_SIZE
    && p.wpos == Step(p.rpos, p.count)
  }

  // (pos + n) % PIPE_BUF_SIZE, for at most one time round
  function Step(pos: nat, n: nat): (r: nat)
    requires pos < PIPE_BUF_SIZE && n <= PIPE_BUF_SIZE
    ensures r < PIPE_BUF_SIZE && r == (pos + n) % PIPE_BUF_SIZE
  {
    if pos + n < PIPE_BUF_SIZE then pos + n else pos + n - PIPE_BUF_SIZE
  }

  // The bytes waiting, oldest first.
  ghost function Buffered(p: Pipe): (b: seq<byte>)
    requires Ring(p)
    ensures |b| == p.count
    ensures forall i {:trigger b[i]} :: 0 <= i < p.count ==> b[i] == p.buf[Step(p.rpos, i)]
  {
    seq(p.count, i requires 0 <= i < p.count => p.buf[Step(p.rpos, i)])
  }

  // `can` bytes leave the front, as one read takes them.
  function Popped(p: Pipe, can: nat): Pipe
    requires p.rpos < PIPE_BUF_SIZE && can <= p.count && can <= PIPE_BUF_SIZE
  {
    p.(rpos := Step(p.rpos, can), count := p.count - can)
  }

  lemma PopTakesFirst(p: Pipe, can: nat)
    requires Ring(p) && can <= p.count
    ensures Ring(Popped(p, can)) && Buffered(p) == Buffered(p)[..can] + Buffered(Popped(p, can))
  {
    var q := Popped(p, can);
    forall i | 0 <= i < q.count
      ensures Buffered(q)[i] == Buffered(p)[can + i]
    {
      assert Step(q.rpos, i) == Step(p.rpos, can + i);
    }
    assert Buffered(q) == Buffered(p)[can..];
  }

  // `src` has been written behind the last byte waiting.
  ghost predicate Pushed(p: Pipe, q: Pipe, src: seq<byte>) {
    && Ring(p) && p.count + |src| <= PIPE_BUF_SIZE && |q.buf| == PIPE_BUF_SIZE
    && q == p.(buf := q.buf, wpos := Step(p.wpos, |src|), count := p.count + |src|)
    && (forall k :: 0 <= k < |src| ==> q.buf[Step(p.wpos, k)] == src[k])
    && (forall i :: 0 <= i < p.count ==> q.buf[Step(p.rpos, i)] == p.buf[Step(p.rpos, i)])
  }

  lemma PushAddsLast(p: Pipe, q: Pipe, src: seq<byte>)
    requires Pushed(p, q, src)
    ensures Ring(q) && Buffered(q) == Buffered(p) + src
  {
    forall i | 0 <= i < q.count
      ensures Buffered(q)[i] == (Buffered(p) + src)[i]
    {
      if i >= p.count {
        assert Step(p.rpos, i) == Step(p.wpos, i - p.count);
      }
    }
    assert Buffered(q) == Buffered(p) + src;
  }

  // ---- A pipe's whole life ----

  // One more byte: the place written is none of those that wait or were written.
  lemma PushOne(p: Pipe, k: nat)
    requires Ring(p) && p.count + k < PIPE_BUF_SIZE
    ensures Step(Step(p.wpos, k), 1) == Step(p.wpos, k + 1)
    ensures forall i :: 0 <= i < p.count ==> Step(p.rpos, i) != Step(p.wpos, k)
    ensures forall i :: 0 <= i < k ==> Step(p.wpos, i) != Step(p.wpos, k)
  {
  }

  // Everything accepted since the slot was handed out, and everything delivered.
  datatype Stream = Stream(accepted: seq<byte>, delivered: seq<byte>)

  // First in, first out, and nothing lost.
  ghost predicate Lossless(p: Pipe, s: Stream) {
    Ring(p) && s.accepted == s.delivered + Buffered(p)
  }

  lemma ReadKeepsLossless(p: Pipe, s: Stream, can: nat)
    requires Lossless(p, s) && can <= p.count
    ensures Lossless(Popped(p, can), s.(delivered := s.delivered + Buffered(p)[..can]))
  {
    PopTakesFirst(p, can);
  }

  lemma WriteKeepsLossless(p: Pipe, q: Pipe, s: Stream, src: seq<byte>)
    requires Lossless(p, s) && Pushed(p, q, src)
    ensures Lossless(q, s.(accepted := s.accepted + src))
  {
    PushAddsLast(p, q, src);
  }

  lemma NewPipeLossless(p: Pipe)
    requires |p.buf| == PIPE_BUF_SIZE && p.rpos == p.wpos == p.count == 0
    ensures Lossless(p, Stream([], []))
  {
  }

  // Two reads in a row are one.
  lemma PopTwice(p: Pipe, a: nat, b: nat)
    requires Ring(p) && a + b <= p.count
    ensures Popped(p, a).rpos < PIPE_BUF_SIZE && Popped(Popped(p, a), b) == Popped(p, a + b)
    ensures Ring(Popped(p, a)) && Buffered(p)[..a] + Buffered(Popped(p, a))[..b] == Buffered(p)[..a + b]
  {
    PopTakesFirst(p, a);
    assert Buffered(p)[..a + b] == (Buffered(p)[..a] + Buffered(Popped(p, a)))[..a + b];
  }

  // Two writes in a row are one.
  lemma PushTwice(p: Pipe, q: Pipe, r: Pipe, s: seq<byte>, t: seq<byte>)
    requires Pushed(p, q, s) && Pushed(q, r, t)
    ensures Pushed(p, r, s + t)
  {
    forall k | 0 <= k < |s + t|
      ensures r.buf[Step(p.wpos, k)] == (s + t)[k]
    {
      if k < |s| {
        assert Step(p.wpos, k) == Step(q.rpos, p.count + k);
      } else {
        assert Step(p.wpos, k) == Step(q.wpos, k - |s|);
      }
    }
    assert Step(p.wpos, |s + t|) == Step(q.wpos, |t|);
  }

  lemma PushNothing(p: Pipe)
    requires Ring(p)
    ensures Pushed(p, p, [])
  {
  }
}
