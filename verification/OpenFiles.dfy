// The file table, the pipe table and the descriptor tables as values.
module OpenFiles {
  import opened BitStrings
  import Limits
  import opened Pipes

  const NFILE: nat := 100
  const MAX_PIPES: nat := 16
  const MAX_FD: nat := 32
  const MAX_PROCS: nat := Limits.MAX_PROCS
  const FD_SLOTS: nat := 256  // MAX_PROCS * MAX_FD

  datatype Kind = Free | Normal | Dir | Device | PipeFile
  datatype End = NoEnd | ReadEnd | WriteEnd
  datatype File = File(ref: nat, kind: Kind, pipe: int, end: End)

  const CLOSED: File := File(0, Free, -1, NoEnd)

  // Who has a pipe's two ends open, and how often each end was duplicated.
  datatype Ends = Ends(reader: int, writer: int, rdups: nat, wdups: nat)

  const NO_ENDS: Ends := Ends(-1, -1, 0, 0)

  // ---- References ----

  // An open File's count is the number of references to it, and it has one.
  ghost predicate RefOk(f: File, n: nat) {
    if f.kind == Free then f == CLOSED && n == 0 else f.ref == n > 0
  }

  ghost predicate RefsOk(files: seq<File>, held: multiset<int>) {
    |files| == NFILE && forall f :: 0 <= f < NFILE ==> RefOk(files[f], held[f])
  }

  // ---- Pipe ends ----

  // A File that is an end of a pipe is the end the pipe knows, of a pipe in use,
  // and no other File is an end.
  ghost predicate FileOk(f: int, file: File, pipes: seq<Pipe>, ends: seq<Ends>) {
    if file.kind != PipeFile then file.end == NoEnd else
      && 0 <= file.pipe < |pipes| == |ends| && pipes[file.pipe].used
      && match file.end {
        case ReadEnd => ends[file.pipe].reader == f
        case WriteEnd => ends[file.pipe].writer == f
        case NoEnd => false
      }
  }

  predicate IsEnd(files: seq<File>, f: int, p: int, e: End) {
    0 <= f < |files| && files[f].kind == PipeFile && files[f].pipe == p && files[f].end == e
  }

  // The counts of a pipe in use: one for an open end, one for every duplication.
  ghost predicate PipeOk(files: seq<File>, p: int, pipe: Pipe, e: Ends) {
    if !pipe.used then e == NO_ENDS else
      && (e.reader == -1 || IsEnd(files, e.reader, p, ReadEnd))
      && (e.writer == -1 || IsEnd(files, e.writer, p, WriteEnd))
      && pipe.readers == B(e.reader != -1) + e.rdups
      && pipe.writers == B(e.writer != -1) + e.wdups
      && pipe.readers + pipe.writers > 0
  }

  ghost predicate EndsOk(files: seq<File>, pipes: seq<Pipe>, ends: seq<Ends>) {
    && |files| == NFILE && |pipes| == |ends| == MAX_PIPES
    && (forall f :: 0 <= f < NFILE ==> FileOk(f, files[f], pipes, ends))
    && (forall p :: 0 <= p < MAX_PIPES ==> PipeOk(files, p, pipes[p], ends[p]))
  }

  // No pipe an open File refers to has been freed.
  lemma LivePipeIsUsed(files: seq<File>, pipes: seq<Pipe>, ends: seq<Ends>, f: nat)
    requires EndsOk(files, pipes, ends) && f < NFILE && files[f].kind == PipeFile
    ensures 0 <= files[f].pipe < MAX_PIPES && pipes[files[f].pipe].used
  {
  }

  // A slot that is not in use is referred to by no open File.
  lemma UnusedPipeIsNobodys(files: seq<File>, pipes: seq<Pipe>, ends: seq<Ends>, p: nat)
    requires EndsOk(files, pipes, ends) && p < MAX_PIPES && !pipes[p].used
    ensures forall f, e :: 0 <= f < NFILE ==> !IsEnd(files, f, p, e)
  {
  }

  predicate HasUnused(pipes: seq<Pipe>) {
    exists p :: 0 <= p < |pipes| && !pipes[p].used
  }

  predicate NoFree(files: seq<File>) {
    forall i :: 0 <= i < |files| ==> files[i].kind != Free
  }

  predicate TwoFree(files: seq<File>) {
    exists i, j :: 0 <= i < j < |files| && files[i].kind == files[j].kind == Free
  }

  lemma AtMostOneFree(files: seq<File>, r: nat, after: seq<File>)
    requires r < |files| && |after| == |files| && after == files[r := after[r]]
    requires forall i :: 0 <= i < |after| ==> after[i].kind != Free
    ensures !TwoFree(files)
  {
    forall i | 0 <= i < |files| && i != r
      ensures files[i].kind != Free
    {
      assert after[i] == files[i];
    }
  }

  lemma TwoAreFree(files: seq<File>, r: nat, f: File, w: nat)
    requires r < |files| && w < |files| && files[r].kind == Free && files[r := f][w].kind == Free && f.kind != Free
    ensures TwoFree(files)
  {
    if r < w {
      assert files[r].kind == files[w].kind == Free;
    } else {
      assert files[w].kind == files[r].kind == Free;
    }
  }

  // ---- Steps ----

  // A File that is no pipe end, before and after, or stays the end it is.
  lemma UpdateKeepsEnds(files: seq<File>, pipes: seq<Pipe>, ends: seq<Ends>, f: nat, file: File)
    requires EndsOk(files, pipes, ends) && f < NFILE
    requires || (files[f].kind != PipeFile && file.kind != PipeFile && file.end == NoEnd)
             || file == files[f].(ref := file.ref)
    ensures EndsOk(files[f := file], pipes, ends)
  {
    var after := files[f := file];
    forall p | 0 <= p < MAX_PIPES
      ensures PipeOk(after, p, pipes[p], ends[p])
    {
      assert PipeOk(files, p, pipes[p], ends[p]);
    }
    forall g | 0 <= g < NFILE
      ensures FileOk(g, after[g], pipes, ends)
    {
      assert FileOk(g, files[g], pipes, ends);
    }
  }

  // fs_open's File with one reference keeps the counts exact unless it is left
  // marked free: then the slot is in use and will be handed out again.
  lemma OpenKeepsUnlessFree(files: seq<File>, held: multiset<int>, f: nat, k: Kind)
    requires RefsOk(files, held) && f < NFILE && files[f].kind == Free
    ensures RefsOk(files[f := File(1, k, -1, NoEnd)], held + multiset{f}) <==> k != Free
  {
    var after, now := files[f := File(1, k, -1, NoEnd)], held + multiset{f};
    assert RefOk(files[f], held[f]);
    if k == Free {
      assert !RefOk(after[f], now[f]);
    } else {
      forall g | 0 <= g < NFILE
        ensures RefOk(after[g], now[g])
      {
        assert RefOk(files[g], held[g]);
      }
    }
  }

  // A reference is added to or taken from a File that stays open.
  lemma CountKeeps(files: seq<File>, held: multiset<int>, f: nat, now: multiset<int>)
    requires RefsOk(files, held) && f < NFILE && files[f].kind != Free
    requires now[f] > 0 && forall g :: g != f ==> now[g] == held[g]
    ensures RefsOk(files[f := files[f].(ref := now[f])], now)
  {
    var after := files[f := files[f].(ref := now[f])];
    forall g | 0 <= g < NFILE
      ensures RefOk(after[g], now[g])
    {
      assert RefOk(files[g], held[g]);
    }
  }

  // fs_dup's extra count on the pipe itself.
  function Dupped(pipe: Pipe, e: End): Pipe {
    if e == ReadEnd then pipe.(readers := pipe.readers + 1) else pipe.(writers := pipe.writers + 1)
  }

  function DuppedEnds(x: Ends, e: End): Ends {
    if e == ReadEnd then x.(rdups := x.rdups + 1) else x.(wdups := x.wdups + 1)
  }

  lemma DupKeeps(files: seq<File>, pipes: seq<Pipe>, ends: seq<Ends>, p: nat, e: End)
    requires EndsOk(files, pipes, ends) && p < MAX_PIPES && pipes[p].used
    ensures EndsOk(files, pipes[p := Dupped(pipes[p], e)], ends[p := DuppedEnds(ends[p], e)])
  {
    var ps, es := pipes[p := Dupped(pipes[p], e)], ends[p := DuppedEnds(ends[p], e)];
    forall g | 0 <= g < NFILE
      ensures FileOk(g, files[g], ps, es)
    {
      assert FileOk(g, files[g], pipes, ends);
    }
    forall q | 0 <= q < MAX_PIPES
      ensures PipeOk(files, q, ps[q], es[q])
    {
      assert PipeOk(files, q, pipes[q], ends[q]);
    }
  }

  lemma LastGoes(files: seq<File>, held: multiset<int>, f: nat)
    requires RefsOk(files, held) && f < NFILE && held[f] == 1
    ensures RefsOk(files[f := CLOSED], held - multiset{f})
  {
    forall g | 0 <= g < NFILE
      ensures RefOk(files[f := CLOSED][g], (held - multiset{f})[g])
    {
      assert RefOk(files[g], held[g]);
    }
  }

  // What fs_close and pipe_maybe_free do to the pipe when an end is closed for
  // the last time: its count goes down by one, and a pipe without counts is freed.
  function Dropped(pipe: Pipe, e: End): Pipe {
    var q := if e == ReadEnd then (if pipe.readers > 0 then pipe.(readers := pipe.readers - 1) else pipe)
             else (if pipe.writers > 0 then pipe.(writers := pipe.writers - 1) else pipe);
    if q.used && q.readers == 0 && q.writers == 0 then q.(used := false, rpos := 0, wpos := 0, count := 0) else q
  }

  function DroppedEnds(x: Ends, e: End): Ends {
    if e == ReadEnd then x.(reader := -1) else x.(writer := -1)
  }

  // Whatever the reference counts say, closing an end keeps pipes and ends in step.
  lemma ClosePipeKeeps(files: seq<File>, pipes: seq<Pipe>, ends: seq<Ends>, f: nat)
    requires EndsOk(files, pipes, ends) && f < NFILE && files[f].kind == PipeFile
    ensures 0 <= files[f].pipe < MAX_PIPES
    ensures var p := files[f].pipe;
      EndsOk(files[f := CLOSED], pipes[p := Dropped(pipes[p], files[f].end)],
          ends[p := DroppedEnds(ends[p], files[f].end)])
  {
    assert FileOk(f, files[f], pipes, ends);
    var p := files[f].pipe;
    var after, ps, es := files[f := CLOSED], pipes[p := Dropped(pipes[p], files[f].end)],
        ends[p := DroppedEnds(ends[p], files[f].end)];
    assert PipeOk(files, p, pipes[p], ends[p]);
    forall q | 0 <= q < MAX_PIPES
      ensures PipeOk(after, q, ps[q], es[q])
    {
      assert PipeOk(files, q, pipes[q], ends[q]);
    }
    forall g | 0 <= g < NFILE
      ensures FileOk(g, after[g], ps, es)
    {
      assert FileOk(g, files[g], pipes, ends);
    }
  }

  // When the second end goes too, the pipe is freed exactly if neither end was
  // ever duplicated: fs_dup counts every copy, fs_close only the last one.
  lemma FreedIffNeverDuplicated(files: seq<File>, pipes: seq<Pipe>, ends: seq<Ends>, f: nat)
    requires EndsOk(files, pipes, ends) && f < NFILE && files[f].kind == PipeFile
    requires 0 <= files[f].pipe < MAX_PIPES
    requires var e := ends[files[f].pipe]; if files[f].end == ReadEnd then e.writer == -1 else e.reader == -1
    ensures var p := files[f].pipe; Dropped(pipes[p], files[f].end).used <==> ends[p].rdups + ends[p].wdups > 0
  {
  }

  // The file and pipe tables, with the record of the ends.
  datatype Open = Open(files: seq<File>, pipes: seq<Pipe>, ends: seq<Ends>)

  predicate IsPipeEnd(o: Open, f: nat)
    requires f < |o.files|
  {
    o.files[f].kind == PipeFile && 0 <= o.files[f].pipe < |o.pipes| == |o.ends|
  }

  // One more reference; a pipe end's count goes up with every one.
  function AfterDup(o: Open, f: nat): Open
    requires f < |o.files|
  {
    var file := o.files[f];
    var files := o.files[f := file.(ref := file.ref + 1)];
    if IsPipeEnd(o, f) then
      var p := file.pipe;
      Open(files, o.pipes[p := Dupped(o.pipes[p], file.end)], o.ends[p := DuppedEnds(o.ends[p], file.end)])
    else Open(files, o.pipes, o.ends)
  }

  // One reference less; the File and its pipe end go with the last one only.
  function AfterClose(o: Open, f: nat): Open
    requires f < |o.files|
  {
    var file := o.files[f];
    if file.ref > 1 then Open(o.files[f := file.(ref := file.ref - 1)], o.pipes, o.ends)
    else if IsPipeEnd(o, f) then
      var p := file.pipe;
      Open(o.files[f := CLOSED], o.pipes[p := Dropped(o.pipes[p], file.end)],
          o.ends[p := DroppedEnds(o.ends[p], file.end)])
    else Open(o.files[f := CLOSED], o.pipes, o.ends)
  }

  // In use with both ends closed: nobody can read it, write it or free it.
  predicate Stuck(pipes: seq<Pipe>, ends: seq<Ends>, p: nat) {
    p < |pipes| == |ends| && pipes[p].used && ends[p].reader == ends[p].writer == -1
  }

  ghost predicate StuckStay(o: Open, o': Open) {
    && |o'.pipes| == |o.pipes| && |o'.ends| == |o.ends|
    && forall p: nat :: Stuck(o.pipes, o.ends, p) ==> o'.pipes[p] == o.pipes[p] && o'.ends[p] == o.ends[p]
  }

  // When both ends are closed the pipe is free, or stuck, the latter exactly if
  // an end had been duplicated.
  lemma StuckIffDuplicated(files: seq<File>, pipes: seq<Pipe>, ends: seq<Ends>, p: nat)
    requires EndsOk(files, pipes, ends) && p < MAX_PIPES && ends[p].reader == ends[p].writer == -1
    ensures Stuck(pipes, ends, p) <==> ends[p].rdups + ends[p].wdups > 0
    ensures Stuck(pipes, ends, p) ==> forall f, e :: 0 <= f < NFILE ==> !IsEnd(files, f, p, e)
  {
    assert PipeOk(files, p, pipes[p], ends[p]);
    forall f, e | 0 <= f < NFILE
      ensures !IsEnd(files, f, p, e)
    {
      assert FileOk(f, files[f], pipes, ends);
    }
  }

  // A pipe that is some File's end is not stuck.
  lemma NotStuck(files: seq<File>, pipes: seq<Pipe>, ends: seq<Ends>, f: nat)
    requires EndsOk(files, pipes, ends) && f < NFILE && files[f].end != NoEnd
    ensures 0 <= files[f].pipe < MAX_PIPES && !Stuck(pipes, ends, files[f].pipe)
  {
    assert FileOk(f, files[f], pipes, ends);
  }

  lemma OthersStuck(o: Open, o': Open, p: nat)
    requires p < |o.pipes| == |o'.pipes| && |o.ends| == |o'.ends| == |o.pipes| && !Stuck(o.pipes, o.ends, p)
    requires o'.pipes == o.pipes[p := o'.pipes[p]] && o'.ends == o.ends[p := o'.ends[p]]
    ensures StuckStay(o, o')
  {
  }

  lemma StuckSame(o: Open)
    ensures StuckStay(o, o)
  {
  }

  lemma StuckTwice(a: Open, b: Open, c: Open)
    requires StuckStay(a, b) && StuckStay(b, c)
    ensures StuckStay(a, c)
  {
  }

  // No duplication or close of a File reaches a stuck pipe.
  lemma CallsSpareStuck(o: Open, f: nat)
    requires EndsOk(o.files, o.pipes, o.ends) && f < NFILE
    ensures StuckStay(o, o) && StuckStay(o, AfterDup(o, f)) && StuckStay(o, AfterClose(o, f))
  {
    assert FileOk(f, o.files[f], o.pipes, o.ends);
    if o.files[f].kind == PipeFile {
      NotStuck(o.files, o.pipes, o.ends, f);
    }
  }

  // A slot nobody refers to becomes a new pipe with two new Files.
  lemma CreateKeeps(files: seq<File>, held: multiset<int>, pipes: seq<Pipe>, ends: seq<Ends>, p: nat, r: nat, w: nat,
      pipe: Pipe)
    requires RefsOk(files, held) && EndsOk(files, pipes, ends) && p < MAX_PIPES && !pipes[p].used
    requires r < NFILE && w < NFILE && r != w && files[r].kind == Free && files[w].kind == Free
    requires pipe.used && pipe.readers == 1 && pipe.writers == 1
    ensures RefsOk(files[r := File(1, PipeFile, p, ReadEnd)][w := File(1, PipeFile, p, WriteEnd)],
            held + multiset{r, w})
    ensures EndsOk(files[r := File(1, PipeFile, p, ReadEnd)][w := File(1, PipeFile, p, WriteEnd)],
                   pipes[p := pipe], ends[p := Ends(r, w, 0, 0)])
  {
    var after := files[r := File(1, PipeFile, p, ReadEnd)][w := File(1, PipeFile, p, WriteEnd)];
    var ps, es := pipes[p := pipe], ends[p := Ends(r, w, 0, 0)];
    UnusedPipeIsNobodys(files, pipes, ends, p);
    forall q | 0 <= q < MAX_PIPES
      ensures PipeOk(after, q, ps[q], es[q])
    {
      assert PipeOk(files, q, pipes[q], ends[q]);
    }
    forall g | 0 <= g < NFILE
      ensures FileOk(g, after[g], ps, es)
      ensures RefOk(after[g], (held + multiset{r, w})[g])
    {
      assert FileOk(g, files[g], pipes, ends) && RefOk(files[g], held[g]);
    }
  }

  // Reading and writing leave a pipe's ends alone.
  lemma TrafficKeeps(files: seq<File>, pipes: seq<Pipe>, ends: seq<Ends>, p: nat, q: Pipe)
    requires EndsOk(files, pipes, ends) && p < MAX_PIPES
    requires q.used == pipes[p].used && q.readers == pipes[p].readers && q.writers == pipes[p].writers
    ensures EndsOk(files, pipes[p := q], ends)
  {
    forall f | 0 <= f < NFILE
      ensures FileOk(f, files[f], pipes[p := q], ends)
    {
      assert FileOk(f, files[f], pipes, ends);
    }
    forall i | 0 <= i < MAX_PIPES
      ensures PipeOk(files, i, pipes[p := q][i], ends[i])
    {
      assert PipeOk(files, i, pipes[i], ends[i]);
    }
  }

  // ---- Descriptor tables ----

  // fd_table[fd] of process slot pid; -1 is a null pointer.
  function FdAt(pid: nat, fd: nat): (i: nat)
    requires pid < MAX_PROCS && fd < MAX_FD
    ensures i < FD_SLOTS && i == MAX_FD * pid + fd
  {
    MAX_FD * pid + fd
  }

  ghost predicate FdsOk(fds: seq<int>) {
    |fds| == FD_SLOTS && forall i :: 0 <= i < FD_SLOTS ==> -1 <= fds[i] < NFILE
  }

  lemma RefsSame(files: seq<File>, a: multiset<int>, b: multiset<int>)
    requires RefsOk(files, a) && forall f :: f >= 0 ==> a[f] == b[f]
    ensures RefsOk(files, b)
  {
  }

  lemma PutFd(fds: seq<int>, i: nat, f: nat)
    requires i < |fds| && fds[i] == -1
    ensures forall g :: g >= 0 ==> multiset(fds[i := f])[g] == (multiset(fds) + multiset{f})[g]
  {
  }

  lemma ClearFd(fds: seq<int>, i: nat)
    requires i < |fds| && fds[i] >= 0
    ensures multiset(fds)[fds[i]] > 0
    ensures forall g :: g >= 0 ==> multiset(fds[i := -1])[g] == (multiset(fds) - multiset{fds[i]})[g]
  {
  }

  lemma HeldIsOpen(files: seq<File>, held: multiset<int>, f: nat)
    requires RefsOk(files, held) && f < NFILE && held[f] > 0
    ensures files[f].kind != Free && files[f].ref == held[f]
  {
  }

  lemma FreeIsNotHeld(files: seq<File>, held: multiset<int>, f: nat)
    requires RefsOk(files, held) && f < NFILE && files[f].kind == Free
    ensures held[f] == 0 && files[f] == CLOSED
  {
  }

  // ---- Traffic of all pipes ----

  ghost predicate FifoOk(pipes: seq<Pipe>, streams: seq<Stream>) {
    && |pipes| == |streams| == MAX_PIPES
    && (forall p :: 0 <= p < MAX_PIPES ==> |pipes[p].buf| == PIPE_BUF_SIZE)
    && (forall p :: 0 <= p < MAX_PIPES && pipes[p].used ==> Lossless(pipes[p], streams[p]))
  }

  lemma FifoUpdate(pipes: seq<Pipe>, streams: seq<Stream>, p: nat, q: Pipe, s: Stream)
    requires FifoOk(pipes, streams) && p < MAX_PIPES && |q.buf| == PIPE_BUF_SIZE && (q.used ==> Lossless(q, s))
    ensures FifoOk(pipes[p := q], streams[p := s])
  {
  }

  // A change of the counts alone does not touch the bytes.
  lemma CountsKeepLossless(p: Pipe, q: Pipe, s: Stream)
    requires Lossless(p, s) && q.buf == p.buf && q.rpos == p.rpos && q.wpos == p.wpos && q.count == p.count
    ensures Lossless(q, s)
  {
    assert Buffered(q) == Buffered(p);
  }
}
