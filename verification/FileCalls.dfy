// The file layer's calls and the system calls on descriptors, in place. A call
// works on behalf of process slot `pid`.
module FileCalls {
  import opened Bytes
  import opened Pipes
  import opened OpenFiles

  const USER_COPY_CHUNK: nat := 4096

  class FileTables {
    const files: array<File>
    const pipes: array<Pipe>
    const fds: array<int>          // fd_table of every process, one after another
    ghost var ends: seq<Ends>
    ghost var streams: seq<Stream>

    ghost predicate Tables()
      reads this, files, pipes, fds
    {
      && files.Length == NFILE && pipes.Length == MAX_PIPES && fds.Length == FD_SLOTS
      && EndsOk(files[..], pipes[..], ends) && FifoOk(pipes[..], streams) && FdsOk(fds[..])
    }

    ghost function Now(): Open
      reads this, files, pipes
    {
      Open(files[..], pipes[..], ends)
    }

    // Every open File's count is the number of descriptors that hold it.
    ghost predicate Valid()
      reads this, files, pipes, fds
    {
      Tables() && RefsOk(files[..], multiset(fds[..]))
    }

    constructor ()
      ensures Valid() && fresh(files) && fresh(pipes) && fresh(fds)
      ensures forall i :: 0 <= i < FD_SLOTS ==> fds[i] == -1
      ensures forall i :: 0 <= i < NFILE ==> files[i] == CLOSED
      ensures forall i :: 0 <= i < MAX_PIPES ==> !pipes[i].used
    {
      files := new File[NFILE](_ => CLOSED);
      pipes := new Pipe[MAX_PIPES](_ => Pipe(false, 0, 0, 0, 0, 0, seq(PIPE_BUF_SIZE, _ => 0)));
      fds := new int[FD_SLOTS](_ => -1);
      ends := seq(MAX_PIPES, _ => NO_ENDS);
      streams := seq(MAX_PIPES, _ => Stream([], []));
      new;
      NothingHeld(files[..], fds[..]);
    }

    // ---- fs.c ----

    // filealloc
    method FileAlloc() returns (f: int)
      requires files.Length == NFILE
      ensures f == -1 ==> forall i :: 0 <= i < NFILE ==> files[i].kind != Free
      ensures f != -1 ==> 0 <= f < NFILE && files[f].kind == Free && forall i :: 0 <= i < f ==> files[i].kind != Free
    {
      for i := 0 to NFILE
        invariant forall j :: 0 <= j < i ==> files[j].kind != Free
      {
        if files[i].kind == Free {
          return i;
        }
      }
      return -1;
    }

    // The end of fs_open, for a path that leads to an inode of that kind; an
    // inode that is neither file nor directory leaves the File marked free.
    method FsOpen(k: Kind, ghost held: multiset<int>) returns (f: int)
      requires Tables() && k != PipeFile
      modifies files
      ensures Tables()
      ensures f == -1 <==> NoFree(old(files[..]))
      ensures f == -1 ==> files[..] == old(files[..])
      ensures f != -1 ==> IsFirstFree(old(files[..]), f) && files[..] == old(files[..])[f := File(1, k, -1, NoEnd)]
      ensures f != -1 && RefsOk(old(files[..]), held) ==>
                && held[f] == 0 && old(files[..])[f] == CLOSED
                && (RefsOk(files[..], held + multiset{f}) <==> k != Free)
    {
      hide EndsOk, FifoOk, FdsOk, RefsOk;
      f := FileAlloc();
      if f == -1 {
        return;
      }
      if RefsOk(files[..], held) {
        FreeIsNotHeld(files[..], held, f);
        OpenKeepsUnlessFree(files[..], held, f, k);
      }
      UpdateKeepsEnds(files[..], pipes[..], ends, f, File(1, k, -1, NoEnd));
      files[f] := File(1, k, -1, NoEnd);
    }

    // pipe_maybe_free
    method PipeMaybeFree(p: nat)
      requires pipes.Length == MAX_PIPES && p < MAX_PIPES
      modifies pipes
      ensures var q := old(pipes[p]);
        pipes[..] == old(pipes[..])[p := if q.used && q.readers == 0 && q.writers == 0
            then q.(used := false, rpos := 0, wpos := 0, count := 0) else q]
    {
      if pipes[p].used && pipes[p].readers == 0 && pipes[p].writers == 0 {
        pipes[p] := pipes[p].(used := false, rpos := 0, wpos := 0, count := 0);
      }
    }

    // fs_close, giving one held reference up. Pipes and ends stay in step even
    // when the counts are not exact.
    method FsClose(f: nat, ghost held: multiset<int>)
      requires Tables() && f < NFILE && files[f].ref > 0
      modifies files, pipes, this`ends
      ensures Tables()
      ensures RefsOk(old(files[..]), held) && held[f] > 0 ==> RefsOk(files[..], held - multiset{f})
      ensures Now() == AfterClose(old(Now()), f) && StuckStay(old(Now()), Now())
    {
      hide EndsOk, FifoOk, FdsOk, RefsOk, StuckStay;
      CallsSpareStuck(Now(), f);
      ghost var fs, ps, es := files[..], pipes[..], ends;
      CloseKeepsRefs(fs, held, f);
      files[f] := files[f].(ref := files[f].ref - 1);
      if files[f].ref > 0 {
        UpdateKeepsEnds(fs, ps, es, f, files[f]);
        assert files[..] == fs[f := fs[f].(ref := fs[f].ref - 1)];
        return;
      }
      if files[f].kind == PipeFile {
        LivePipeIsUsed(fs, ps, es, f);
        ClosePipeKeeps(fs, ps, es, f);
        var p := files[f].pipe;
        if files[f].end == ReadEnd && pipes[p].readers > 0 {
          pipes[p] := pipes[p].(readers := pipes[p].readers - 1);
        }
        if files[f].end == WriteEnd && pipes[p].writers > 0 {
          pipes[p] := pipes[p].(writers := pipes[p].writers - 1);
        }
        PipeMaybeFree(p);
        EndOfPipe(fs, ps, es, f);
        DroppedFifo(ps, streams, p, fs[f].end);
        ends := ends[p := DroppedEnds(ends[p], files[f].end)];
        assert pipes[..] == ps[p := Dropped(ps[p], fs[f].end)];
      } else {
        UpdateKeepsEnds(fs, ps, es, f, CLOSED);
      }
      files[f] := CLOSED;
      assert files[..] == fs[f := CLOSED];
    }

    // fs_dup, holding one reference more
    method FsDup(f: nat, ghost held: multiset<int>)
      requires Tables() && RefsOk(files[..], held) && f < NFILE && held[f] > 0
      modifies files, pipes, this`ends
      ensures Tables() && RefsOk(files[..], held + multiset{f})
      ensures Now() == AfterDup(old(Now()), f) && StuckStay(old(Now()), Now())
    {
      hide EndsOk, FifoOk, FdsOk, RefsOk, StuckStay;
      CallsSpareStuck(Now(), f);
      HeldIsOpen(files[..], held, f);
      ghost var fs, ps, es := files[..], pipes[..], ends;
      if files[f].kind == PipeFile {
        LivePipeIsUsed(fs, ps, es, f);
        EndOfPipe(fs, ps, es, f);
        var p := files[f].pipe;
        if pipes[p].used {
          if files[f].end == ReadEnd {
            pipes[p] := pipes[p].(readers := pipes[p].readers + 1);
          }
          if files[f].end == WriteEnd {
            pipes[p] := pipes[p].(writers := pipes[p].writers + 1);
          }
        }
        DupKeeps(fs, ps, es, p, fs[f].end);
        DuppedFifo(ps, streams, p, fs[f].end);
        ends := ends[p := DuppedEnds(ends[p], fs[f].end)];
        assert pipes[..] == ps[p := Dupped(ps[p], fs[f].end)];
      }
      CountKeeps(fs, held, f, held + multiset{f});
      UpdateKeepsEnds(fs, pipes[..], ends, f, fs[f].(ref := held[f] + 1));
      files[f] := files[f].(ref := files[f].ref + 1);
      assert files[..] == fs[f := fs[f].(ref := held[f] + 1)];
    }

    // pipe_alloc
    method PipeAlloc() returns (p: int)
      requires pipes.Length == MAX_PIPES
      modifies pipes
      ensures p == -1 ==> pipes[..] == old(pipes[..]) && forall i :: 0 <= i < MAX_PIPES ==> old(pipes[i]).used
      ensures -1 <= p < MAX_PIPES && forall i :: 0 <= i < p ==> old(pipes[i]).used
      ensures p != -1 ==>
              0 <= p < MAX_PIPES && !old(pipes[p]).used
              && pipes[..] == old(pipes[..])[p := Pipe(true, 0, 0, 0, 0, 0, old(pipes[p]).buf)]
    {
      for i := 0 to MAX_PIPES
        invariant pipes[..] == old(pipes[..])
        invariant forall j :: 0 <= j < i ==> old(pipes[j]).used
      {
        if !pipes[i].used {
          pipes[i] := Pipe(true, 0, 0, 0, 0, 0, pipes[i].buf);
          return i;
        }
      }
      return -1;
    }

    // fs_pipe_create
    method FsPipeCreate(ghost held: multiset<int>) returns (ok: bool, r: int, w: int)
      requires Tables() && RefsOk(files[..], held)
      modifies files, pipes, this`ends, this`streams
      ensures Tables()
      ensures !ok ==> RefsOk(files[..], held)
      ensures ok ==> 0 <= r < NFILE && 0 <= w < NFILE && r != w && held[r] == held[w] == 0
      ensures ok ==> RefsOk(files[..], held + multiset{r, w})
      ensures ok ==> NewPipe(old(pipes[..]), files[..], streams, r, w)
      ensures ok ==> files[..] == old(files[..])[r := files[r]][w := files[w]]
      ensures ok ==> |pipes[..]| == MAX_PIPES && pipes[..] == old(pipes[..])[files[r].pipe := pipes[..][files[r].pipe]]
      ensures ok <==> HasUnused(old(pipes[..])) && TwoFree(old(files[..]))
      ensures ok ==> |old(ends)| == MAX_PIPES && ends == old(ends)[files[r].pipe := Ends(r, w, 0, 0)]
      ensures !ok ==> files[..] == old(files[..]) && ends == old(ends)
      ensures StuckStay(old(Now()), Now())
    {
      hide EndsOk, FifoOk, FdsOk, RefsOk, StuckStay, Stuck, TwoFree, HasUnused;
      ghost var fs, ps, es := files[..], pipes[..], ends;
      r, w := -1, -1;
      Sizes(fs, ps, es, streams);
      FreeSlots(fs, ps);
      StuckSame(Now());
      var p := PipeAlloc();
      if p < 0 {
        return false, r, w;
      }
      r := FileAlloc();
      if r == -1 {
        pipes[p] := pipes[p].(used := false);
        PipeGivenUp(fs, ps, es, streams, p, pipes[p]);
        assert pipes[..] == ps[p := pipes[p]] && files[..] == fs;
        return false, r, w;
      }
      FreeIsNotHeld(fs, held, r);
      files[r] := File(1, PipeFile, p, ReadEnd);
      w := FileAlloc();
      if w == -1 {
        files[r] := CLOSED;
        pipes[p] := pipes[p].(used := false);
        assert pipes[..] == ps[p := pipes[p]] && files[..] == fs[r := CLOSED];
        PipeGivenUp(fs, ps, es, streams, p, pipes[p]);
        FileGivenUp(fs, held, pipes[..], es, r);
        AtMostOneFree(fs, r, fs[r := File(1, PipeFile, p, ReadEnd)]);
        return false, r, w;
      }
      FreeIsNotHeld(fs, held, w);
      TwoAreFree(fs, r, files[r], w);
      files[w] := File(1, PipeFile, p, WriteEnd);
      pipes[p] := pipes[p].(readers := 1);
      pipes[p] := pipes[p].(writers := 1);
      PipeMade(fs, held, ps, es, streams, p, r, w, pipes[p]);
      ends := ends[p := Ends(r, w, 0, 0)];
      streams := streams[p := Stream([], [])];
      assert pipes[..] == ps[p := pipes[p]];
      assert files[..] == fs[r := File(1, PipeFile, p, ReadEnd)][w := File(1, PipeFile, p, WriteEnd)];
      return true, r, w;
    }

    // pipe_read
    method PipeRead(f: int, n: nat) returns (r: int, dst: seq<byte>)
      requires Tables() && -1 <= f < NFILE
      modifies pipes, this`streams
      ensures Tables()
      ensures r == if !Reads(files[..], old(pipes[..]), f) then -1 else Min(n, old(pipes[..])[files[f].pipe].count)
      ensures r == -1 ==> pipes[..] == old(pipes[..]) && streams == old(streams)
      ensures r != -1 ==> Delivered(old(pipes[..]), old(streams), pipes[..], streams, files[f].pipe, dst) && |dst| == r
    {
      hide EndsOk, FdsOk, FifoOk, Lossless, Buffered, Delivered;
      if f == -1 || files[f].pipe < 0 || files[f].pipe >= MAX_PIPES {
        return -1, [];
      }
      var p := files[f].pipe;
      if !pipes[p].used || files[f].end != ReadEnd {
        return -1, [];
      }
      ghost var ps, q := pipes[..], pipes[p];
      PipeRing(ps, streams, p);
      var can := n;
      if can > pipes[p].count {
        can := pipes[p].count;
      }
      dst := [];
      for i := 0 to can
        modifies pipes
        invariant pipes[..] == ps[p := q.(rpos := Step(q.rpos, i))]
        invariant dst == Buffered(q)[..i]
      {
        BufferedAt(q, i);
        dst := dst + [pipes[p].buf[pipes[p].rpos]];
        pipes[p] := pipes[p].(rpos := Step(pipes[p].rpos, 1));
      }
      pipes[p] := pipes[p].(count := pipes[p].count - can);
      assert pipes[..] == ps[p := Popped(q, can)];
      ReadKeeps(files[..], ps, ends, streams, p, can);
      streams := streams[p := streams[p].(delivered := streams[p].delivered + dst)];
      return can, dst;
    }

    // pipe_write
    method PipeWrite(f: int, src: seq<byte>) returns (r: int)
      requires Tables() && -1 <= f < NFILE
      modifies pipes, this`streams
      ensures Tables()
      ensures r == if !Writes(files[..], old(pipes[..]), f) then -1
              else Min(|src|, PIPE_BUF_SIZE - old(pipes[..])[files[f].pipe].count)
      ensures r == -1 ==> pipes[..] == old(pipes[..]) && streams == old(streams)
      ensures r != -1 ==> Accepted(old(pipes[..]), old(streams), pipes[..], streams, files[f].pipe, src[..r])
    {
      hide EndsOk, FdsOk, FifoOk, Lossless, Buffered, Pushed, Filled, Accepted;
      if f == -1 || files[f].pipe < 0 || files[f].pipe >= MAX_PIPES {
        return -1;
      }
      var p := files[f].pipe;
      if !pipes[p].used || files[f].end != WriteEnd {
        return -1;
      }
      if pipes[p].readers == 0 {
        return -1;
      }
      ghost var ps, q := pipes[..], pipes[p];
      PipeRing(ps, streams, p);
      var can := |src|;
      if can > PIPE_BUF_SIZE - pipes[p].count {
        can := PIPE_BUF_SIZE - pipes[p].count;
      }
      NothingFilled(q);
      for i := 0 to can
        modifies pipes
        invariant |pipes[p].buf| == PIPE_BUF_SIZE
        invariant pipes[..] == ps[p := q.(buf := pipes[p].buf, wpos := Step(q.wpos, i))]
        invariant Filled(q, pipes[p].buf, src[..i])
      {
        FillOne(q, pipes[p].buf, src[..i], src[i]);
        assert src[..i] + [src[i]] == src[..i + 1];
        pipes[p] := pipes[p].(buf := pipes[p].buf[pipes[p].wpos := src[i]], wpos := Step(pipes[p].wpos, 1));
      }
      pipes[p] := pipes[p].(count := pipes[p].count + can);
      FilledIsPushed(q, pipes[p], src[..can]);
      assert pipes[..] == ps[p := pipes[p]];
      WriteKeeps(files[..], ps, ends, streams, p, pipes[p], src[..can]);
      streams := streams[p := streams[p].(accepted := streams[p].accepted + src[..can])];
      return can;
    }

    // sys_read's loop on a pipe: the same bytes as one pipe_read of len, and the
    // same pipe afterwards.
    method ReadChunks(f: nat, len: nat) returns (total: nat, dst: seq<byte>)
      requires Tables() && f < NFILE
      modifies pipes, this`streams
      ensures Tables()
      ensures total == |dst| == if !Reads(files[..], old(pipes[..]), f) then 0
              else Min(len, old(pipes[..])[files[f].pipe].count)
      ensures !Reads(files[..], old(pipes[..]), f) ==> pipes[..] == old(pipes[..]) && streams == old(streams)
      ensures Reads(files[..], old(pipes[..]), f) ==>
              Delivered(old(pipes[..]), old(streams), pipes[..], streams, files[f].pipe, dst)
    {
      hide EndsOk, FdsOk, FifoOk, Lossless, Buffered, Delivered;
      total, dst := 0, [];
      ghost var ps, ss, fs := pipes[..], streams, files[..];
      if Reads(fs, ps, f) {
        NothingDelivered(ps, ss, files[f].pipe);
      }
      while total < len
        invariant Tables() && total == |dst| <= len && files[..] == fs
        invariant if Reads(fs, ps, f) then Delivered(ps, ss, pipes[..], streams, fs[f].pipe, dst)
                  else pipes[..] == ps && streams == ss && total == 0
        invariant Reads(fs, ps, f) ==> total <= ps[fs[f].pipe].count
        decreases len - total
      {
        var chunk := len - total;
        if chunk > USER_COPY_CHUNK {
          chunk := USER_COPY_CHUNK;
        }
        ghost var qs, ts := pipes[..], streams;
        StillReads(fs, ps, ss, qs, ts, f, dst);
        var r, kbuf := PipeRead(f, chunk);
        if r <= 0 {
          if r == 0 {
            DeliveredMore(ps, ss, qs, ts, pipes[..], streams, fs[f].pipe, dst, kbuf);
            assert dst + kbuf == dst;
          }
          break;
        }
        DeliveredMore(ps, ss, qs, ts, pipes[..], streams, fs[f].pipe, dst, kbuf);
        dst := dst + kbuf;
        total := total + r;
        if r < chunk {
          break;
        }
      }
    }

    // sys_write's loop on a pipe: the same as one pipe_write of everything.
    method WriteChunks(f: nat, src: seq<byte>) returns (total: nat)
      requires Tables() && f < NFILE
      modifies pipes, this`streams
      ensures Tables()
      ensures total == if !Writes(files[..], old(pipes[..]), f) then 0
              else Min(|src|, PIPE_BUF_SIZE - old(pipes[..])[files[f].pipe].count)
      ensures !Writes(files[..], old(pipes[..]), f) ==> pipes[..] == old(pipes[..]) && streams == old(streams)
      ensures Writes(files[..], old(pipes[..]), f) ==>
              Accepted(old(pipes[..]), old(streams), pipes[..], streams, files[f].pipe, src[..total])
    {
      hide EndsOk, FdsOk, FifoOk, Lossless, Buffered, Accepted, Pushed;
      total := 0;
      ghost var ps, ss, fs := pipes[..], streams, files[..];
      if Writes(fs, ps, f) {
        NothingAccepted(ps, ss, files[f].pipe);
      }
      while total < |src|
        invariant Tables() && total <= |src| && files[..] == fs
        invariant if Writes(fs, ps, f) then Accepted(ps, ss, pipes[..], streams, fs[f].pipe, src[..total])
                  else pipes[..] == ps && streams == ss && total == 0
        invariant Writes(fs, ps, f) ==> total + ps[fs[f].pipe].count <= PIPE_BUF_SIZE
        decreases |src| - total
      {
        var chunk := |src| - total;
        if chunk > USER_COPY_CHUNK {
          chunk := USER_COPY_CHUNK;
        }
        ghost var qs, ts := pipes[..], streams;
        StillWrites(fs, ps, ss, qs, ts, f, src[..total]);
        var kbuf := src[total..total + chunk];
        var r := PipeWrite(f, kbuf);
        if r >= 0 {
          AcceptedMore(ps, ss, qs, ts, pipes[..], streams, fs[f].pipe, src[..total], kbuf[..r]);
          assert src[..total] + kbuf[..r] == src[..total + r];
        }
        if r <= 0 {
          break;
        }
        total := total + r;
        if r < chunk {
          break;
        }
      }
    }

    // ---- syscall.c ----

    // alloc_fd: the first null descriptor
    method AllocFd(pid: nat, f: int) returns (fd: int)
      requires fds.Length == FD_SLOTS && pid < MAX_PROCS
      modifies fds
      ensures fd == -1 ==> fds[..] == old(fds[..]) && forall i :: 0 <= i < MAX_FD ==> IsFd(old(fds[..]), pid, i)
      ensures fd != -1 ==>
              0 <= fd < MAX_FD && !IsFd(old(fds[..]), pid, fd) && fds[..] == old(fds[..])[FdAt(pid, fd) := f]
      ensures fd != -1 ==> forall i :: 0 <= i < fd ==> IsFd(old(fds[..]), pid, i)
    {
      for i := 0 to MAX_FD
        invariant fds[..] == old(fds[..])
        invariant forall j :: 0 <= j < i ==> fds[FdAt(pid, j)] != -1
      {
        if fds[FdAt(pid, i)] == -1 {
          fds[FdAt(pid, i)] := f;
          return i;
        }
      }
      return -1;
    }

    // get_fd_file
    method GetFdFile(pid: nat, fd: int) returns (f: int)
      requires Tables() && pid < MAX_PROCS
      ensures f == if 0 <= fd < MAX_FD then fds[FdAt(pid, fd)] else -1
      ensures -1 <= f < NFILE
    {
      return if fd < 0 || fd >= MAX_FD then -1 else fds[FdAt(pid, fd)];
    }

    // A null descriptor takes over a reference.
    ghost method TakeOver(before: seq<int>, i: nat, f: nat)
      requires Tables() && i < |before| && before[i] == -1 && fds[..] == before[i := f]
      requires RefsOk(files[..], multiset(before) + multiset{f})
      ensures Valid()
    {
      hide EndsOk, FifoOk, RefsOk;
      PutFd(before, i, f);
      RefsSame(files[..], multiset(before) + multiset{f}, multiset(fds[..]));
    }

    // sys_open, for a path that leads to an inode of kind k, or nowhere. Every
    // count is exact afterwards if and only if no File was opened or its kind is
    // one that fs_open marks.
    method SysOpen(pid: nat, found: bool, k: Kind) returns (fd: int)
      requires Tables() && pid < MAX_PROCS && k != PipeFile
      modifies files, pipes, fds, this`ends
      ensures Tables()
      ensures old(Valid()) ==> (Valid() <==> fd == -1 || k != Free)
      ensures fd == -1 <==> !found || AllFds(old(fds[..]), pid) || NoFree(old(files[..]))
      ensures fd == -1 ==> fds[..] == old(fds[..]) && (old(Valid()) ==> Now() == old(Now()))
      ensures fd == -1 ==>
              || Now() == old(Now())
              || exists f :: IsFirstFree(old(files[..]), f)
                          && Now() == Open(old(files[..])[f := CLOSED], old(pipes[..]), old(ends))
      ensures fd != -1 ==> 0 <= fd < MAX_FD && !IsFd(old(fds[..]), pid, fd)
      ensures fd != -1 ==> forall i :: 0 <= i < fd ==> IsFd(old(fds[..]), pid, i)
      ensures fd != -1 ==> fds[..] == old(fds[..])[FdAt(pid, fd) := fds[FdAt(pid, fd)]]
      ensures fd != -1 ==> IsFirstFree(old(files[..]), fds[FdAt(pid, fd)])
      ensures fd != -1 ==>
              Now() == Open(old(files[..])[fds[FdAt(pid, fd)] := File(1, k, -1, NoEnd)], old(pipes[..]), old(ends))
    {
      hide EndsOk, FifoOk, RefsOk;
      if !found {
        return -1;
      }
      ghost var before, fs := fds[..], files[..];
      var f := FsOpen(k, multiset(before));
      if f == -1 {
        assert fs == files[..];
        return -1;
      }
      assert fs[f].kind == Free;
      fd := AllocFd(pid, f);
      if fd < 0 {
        FsClose(f, multiset(before) + multiset{f});
        assert old(Valid()) ==> files[..] == fs;
        assert IsFirstFree(fs, f) && files[..] == fs[f := CLOSED];
        return -1;
      }
      assert !IsFd(before, pid, fd);
      PutFd(before, FdAt(pid, fd), f);
      RefsEither(files[..], multiset(before) + multiset{f}, multiset(fds[..]));
    }

    // sys_close
    method SysClose(pid: nat, fd: int) returns (r: int)
      requires Valid() && pid < MAX_PROCS
      modifies files, pipes, fds, this`ends
      ensures Valid()
      ensures r == if 0 <= fd < MAX_FD && old(fds[FdAt(pid, fd)]) != -1 then 0 else -1
      ensures fds[..] == if r == 0 then old(fds[..])[FdAt(pid, fd) := -1] else old(fds[..])
      ensures r == -1 ==> Now() == old(Now())
      ensures r == 0 ==> var f := old(fds[FdAt(pid, fd)]); 0 <= f < NFILE && Now() == AfterClose(old(Now()), f)
      ensures StuckStay(old(Now()), Now())
    {
      hide EndsOk, FifoOk, RefsOk, StuckStay, AfterClose;
      CallsSpareStuck(Now(), 0);
      if fd < 0 || fd >= MAX_FD {
        return -1;
      }
      var f := fds[FdAt(pid, fd)];
      if f == -1 {
        return -1;
      }
      CloseFd(pid, fd);
      return 0;
    }

    // fs_close(pcb->fd_table[fd]), then fd_table[fd] = 0
    method CloseFd(pid: nat, fd: nat)
      requires Valid() && pid < MAX_PROCS && fd < MAX_FD && fds[FdAt(pid, fd)] != -1
      modifies files, pipes, fds, this`ends
      ensures Valid() && fds[..] == old(fds[..])[FdAt(pid, fd) := -1]
      ensures var f := old(fds[FdAt(pid, fd)]); 0 <= f < NFILE && Now() == AfterClose(old(Now()), f)
      ensures StuckStay(old(Now()), Now())
    {
      hide EndsOk, FifoOk, RefsOk, StuckStay, AfterClose;
      ghost var before := fds[..];
      var f := fds[FdAt(pid, fd)];
      ClearFd(before, FdAt(pid, fd));
      HeldIsOpen(files[..], multiset(before), f);
      FsClose(f, multiset(before));
      fds[FdAt(pid, fd)] := -1;
      RefsSame(files[..], multiset(before) - multiset{f}, multiset(fds[..]));
    }

    // fs_dup(f), then fd_table[fd] = f, for a null descriptor
    method DupInto(i: nat, f: nat)
      requires Valid() && i < FD_SLOTS && fds[i] == -1 && f < NFILE && multiset(fds[..])[f] > 0
      modifies files, pipes, fds, this`ends
      ensures Valid() && fds[..] == old(fds[..])[i := f]
      ensures Now() == AfterDup(old(Now()), f) && StuckStay(old(Now()), Now())
    {
      hide EndsOk, FifoOk, RefsOk, StuckStay, AfterDup;
      ghost var before := fds[..];
      FsDup(f, multiset(before));
      fds[i] := f;
      TakeOver(before, i, f);
    }

    // sys_dup
    method SysDup(pid: nat, oldfd: int) returns (newfd: int)
      requires Valid() && pid < MAX_PROCS
      modifies files, pipes, fds, this`ends
      ensures Valid()
      ensures newfd == -1 ==> fds[..] == old(fds[..])
      ensures newfd != -1 ==> 0 <= newfd < MAX_FD && 0 <= oldfd < MAX_FD && old(fds[FdAt(pid, newfd)]) == -1
      ensures newfd != -1 ==>
              old(fds[FdAt(pid, oldfd)]) != -1
              && fds[..] == old(fds[..])[FdAt(pid, newfd) := old(fds[FdAt(pid, oldfd)])]
      ensures newfd != -1 ==> forall i :: 0 <= i < newfd ==> IsFd(old(fds[..]), pid, i)
      ensures newfd == -1 <==> !IsFd(old(fds[..]), pid, oldfd) || AllFds(old(fds[..]), pid)
      ensures newfd == -1 ==> Now() == old(Now())
      ensures newfd != -1 ==>
        var f := old(fds[FdAt(pid, oldfd)]);
            0 <= f < NFILE && Now() == AfterDup(old(Now()), f) && StuckStay(old(Now()), Now())
    {
      hide EndsOk, FifoOk, RefsOk, StuckStay, AfterDup;
      var f := GetFdFile(pid, oldfd);
      if f == -1 {
        return -1;
      }
      ghost var before := fds[..];
      InTable(before, FdAt(pid, oldfd));
      newfd := AllocFd(pid, f);
      if newfd < 0 {
        return -1;
      }
      FsDup(f, multiset(before));
      TakeOver(before, FdAt(pid, newfd), f);
    }

    // sys_pipe
    method SysPipe(pid: nat) returns (ok: bool, rfd: int, wfd: int)
      requires Valid() && pid < MAX_PROCS
      modifies files, pipes, fds, this`ends, this`streams
      ensures Valid()
      ensures !ok ==> fds[..] == old(fds[..])
      ensures ok ==> 0 <= rfd < MAX_FD && 0 <= wfd < MAX_FD && rfd != wfd
      ensures ok ==> old(fds[FdAt(pid, rfd)]) == old(fds[FdAt(pid, wfd)]) == -1
      ensures ok ==>
              fds[..] == old(fds[..])[FdAt(pid, rfd) := fds[FdAt(pid, rfd)]][FdAt(pid, wfd) := fds[FdAt(pid, wfd)]]
      ensures ok ==> NewPipe(old(pipes[..]), files[..], streams, fds[FdAt(pid, rfd)], fds[FdAt(pid, wfd)])
      ensures ok <==> HasUnused(old(pipes[..])) && TwoFree(old(files[..])) && TwoNull(old(fds[..]), pid)
      ensures ok ==> |old(ends)| == MAX_PIPES && var r, w := fds[FdAt(pid, rfd)], fds[FdAt(pid, wfd)];
        ends == old(ends)[files[r].pipe := Ends(r, w, 0, 0)]
      ensures StuckStay(old(Now()), Now())
    {
      hide EndsOk, FifoOk, FdsOk, RefsOk, StuckStay, TwoFree, HasUnused, TwoNull;
      rfd, wfd := -1, -1;
      ghost var before := fds[..];
      var r, w;
      ok, r, w := FsPipeCreate(multiset(before));
      if !ok {
        SameTable(before);
        return;
      }
      ghost var now := Now();
      ok, rfd, wfd := InstallPipe(pid, r, w);
      StuckTwice(old(Now()), now, Now());
    }

    // The rest of sys_pipe: two descriptors, or both ends closed again.
    method InstallPipe(pid: nat, r: nat, w: nat) returns (ok: bool, rfd: int, wfd: int)
      requires Tables() && pid < MAX_PROCS && r < NFILE && w < NFILE && r != w
      requires RefsOk(files[..], multiset(fds[..]) + multiset{r, w})
      modifies files, pipes, fds, this`ends
      ensures Valid()
      ensures !ok ==> fds[..] == old(fds[..])
      ensures ok ==> 0 <= rfd < MAX_FD && 0 <= wfd < MAX_FD && rfd != wfd
      ensures ok ==> old(fds[FdAt(pid, rfd)]) == old(fds[FdAt(pid, wfd)]) == -1
      ensures ok ==> fds[..] == old(fds[..])[FdAt(pid, rfd) := r][FdAt(pid, wfd) := w]
      ensures ok ==> Now() == old(Now())
      ensures ok <==> TwoNull(old(fds[..]), pid)
      ensures StuckStay(old(Now()), Now())
    {
      hide EndsOk, FifoOk, FdsOk, RefsOk, StuckStay, TwoNull;
      rfd, wfd := -1, -1;
      ghost var before := fds[..];
      CallsSpareStuck(Now(), 0);
      rfd := AllocFd(pid, r);
      if rfd < 0 {
        NotTwoNull(before, pid);
        CloseBoth(r, w);
        return false, rfd, wfd;
      }
      FdsPut(before, FdAt(pid, rfd), r);
      ghost var middle := before[FdAt(pid, rfd) := r];
      TwoNullAfter(before, pid, rfd, r);
      wfd := AllocFd(pid, w);
      if wfd < 0 {
        fds[FdAt(pid, rfd)] := -1;
        assert fds[..] == before;
        CloseBoth(r, w);
        return false, rfd, wfd;
      }
      FdsPut(middle, FdAt(pid, wfd), w);
      PutFd(before, FdAt(pid, rfd), r);
      PutFd(middle, FdAt(pid, wfd), w);
      RefsSame(files[..], multiset(before) + multiset{r, w}, multiset(fds[..]));
      return true, rfd, wfd;
    }

    // fs_close of both ends that no descriptor took
    method CloseBoth(r: nat, w: nat)
      requires Tables() && r < NFILE && w < NFILE && r != w
      requires RefsOk(files[..], multiset(fds[..]) + multiset{r, w})
      modifies files, pipes, this`ends
      ensures Valid() && StuckStay(old(Now()), Now())
    {
      hide EndsOk, FifoOk, FdsOk, RefsOk, StuckStay;
      ghost var held := multiset(fds[..]);
      HeldIsOpen(files[..], held + multiset{r, w}, r);
      FsClose(r, held + multiset{r, w});
      HeldIsOpen(files[..], held + multiset{r, w} - multiset{r}, w);
      ghost var now := Now();
      FsClose(w, held + multiset{r, w} - multiset{r});
      StuckTwice(old(Now()), now, Now());
      assert held + multiset{r, w} - multiset{r} - multiset{w} == held;
    }

    ghost method SameTable(before: seq<int>)
      requires Tables() && fds[..] == before && RefsOk(files[..], multiset(before))
      ensures Valid()
    {
    }

    // sys_dup2
    method SysDup2(pid: nat, oldfd: int, newfd: int) returns (r: int)
      requires Valid() && pid < MAX_PROCS
      modifies files, pipes, fds, this`ends
      ensures Valid()
      ensures r == if 0 <= newfd < MAX_FD && 0 <= oldfd < MAX_FD && old(fds[FdAt(pid, oldfd)]) != -1 then newfd else -1
      ensures fds[..] == if r == -1 then old(fds[..]) else old(fds[..])[FdAt(pid, newfd) := old(fds[FdAt(pid, oldfd)])]
      ensures r == -1 || oldfd == newfd ==> Now() == old(Now())
      ensures r != -1 && oldfd != newfd ==>
        var f, g := old(fds[FdAt(pid, oldfd)]), old(fds[FdAt(pid, newfd)]);
        && 0 <= f < NFILE && -1 <= g < NFILE
        && var closed := if g == -1 then old(Now()) else AfterClose(old(Now()), g);
           f < |closed.files| && Now() == AfterDup(closed, f)
      ensures StuckStay(old(Now()), Now())
    {
      hide EndsOk, FifoOk, RefsOk, StuckStay, AfterDup, AfterClose;
      CallsSpareStuck(Now(), 0);
      if newfd < 0 || newfd >= MAX_FD {
        return -1;
      }
      var f := GetFdFile(pid, oldfd);
      if f == -1 {
        return -1;
      }
      if oldfd == newfd {
        assert fds[..] == fds[..][FdAt(pid, newfd) := f];
        return newfd;
      }
      Redirect(pid, newfd, f, FdAt(pid, oldfd));
      return newfd;
    }

    // The rest of sys_dup2: newfd is closed if open, and takes a copy of f.
    method Redirect(pid: nat, newfd: nat, f: nat, ghost from: nat)
      requires Valid() && pid < MAX_PROCS && newfd < MAX_FD && from < FD_SLOTS && from != FdAt(pid, newfd)
      requires fds[from] == f
      modifies files, pipes, fds, this`ends
      ensures Valid() && fds[..] == old(fds[..])[FdAt(pid, newfd) := f]
      ensures var g := old(fds[FdAt(pid, newfd)]);
        && f < NFILE && -1 <= g < NFILE
        && var closed := if g == -1 then old(Now()) else AfterClose(old(Now()), g);
           f < |closed.files| && Now() == AfterDup(closed, f)
      ensures StuckStay(old(Now()), Now())
    {
      hide EndsOk, FifoOk, RefsOk, StuckStay, AfterDup, AfterClose;
      CallsSpareStuck(Now(), 0);
      ghost var before, to := fds[..], FdAt(pid, newfd);
      if fds[FdAt(pid, newfd)] != -1 {
        CloseFd(pid, newfd);
      }
      assert fds[..] == before[to := -1];
      assert fds[..][from] == f;
      InTable(fds[..], from);
      ghost var now := Now();
      DupInto(FdAt(pid, newfd), f);
      StuckTwice(old(Now()), now, Now());
      assert before[to := -1][to := f] == before[to := f];
    }

    // proc_fork_current's loop over the parent's descriptors
    method ForkFds(parent: nat, child: nat)
      requires Valid() && parent < MAX_PROCS && child < MAX_PROCS && parent != child
      requires forall i :: 0 <= i < MAX_FD ==> fds[FdAt(child, i)] == -1
      modifies files, pipes, fds, this`ends
      ensures Valid()
      ensures forall i :: 0 <= i < MAX_FD ==> fds[FdAt(child, i)] == old(fds[FdAt(parent, i)])
      ensures OthersKept(old(fds[..]), fds[..], child) && StuckStay(old(Now()), Now())
    {
      hide EndsOk, FifoOk, RefsOk, FdsOk, StuckStay, AfterDup;
      CallsSpareStuck(Now(), 0);
      for i := 0 to MAX_FD
        invariant Valid()
        invariant forall j :: 0 <= j < i ==> fds[FdAt(child, j)] == old(fds[FdAt(parent, j)])
        invariant forall j :: i <= j < MAX_FD ==> fds[FdAt(child, j)] == -1
        invariant OthersKept(old(fds[..]), fds[..], child) && StuckStay(old(Now()), Now())
      {
        OtherFd(old(fds[..]), fds[..], child, parent, i);
        FdBound(fds[..], FdAt(parent, i));
        if fds[FdAt(parent, i)] != -1 {
          InTable(fds[..], FdAt(parent, i));
          ghost var before, now := fds[..], Now();
          DupInto(FdAt(child, i), fds[FdAt(parent, i)]);
          StuckTwice(old(Now()), now, Now());
          OwnFd(old(fds[..]), before, child, i, fds[..]);
        }
      }
    }

    // terminate_proc's loop over a process's descriptors
    method CloseAll(pid: nat)
      requires Valid() && pid < MAX_PROCS
      modifies files, pipes, fds, this`ends
      ensures Valid()
      ensures forall i :: 0 <= i < MAX_FD ==> fds[FdAt(pid, i)] == -1
      ensures OthersKept(old(fds[..]), fds[..], pid) && StuckStay(old(Now()), Now())
    {
      hide EndsOk, FifoOk, RefsOk, FdsOk, StuckStay, AfterClose;
      CallsSpareStuck(Now(), 0);
      for i := 0 to MAX_FD
        invariant Valid()
        invariant forall j :: 0 <= j < i ==> fds[FdAt(pid, j)] == -1
        invariant OthersKept(old(fds[..]), fds[..], pid) && StuckStay(old(Now()), Now())
      {
        if fds[FdAt(pid, i)] != -1 {
          ghost var before, now := fds[..], Now();
          CloseFd(pid, i);
          StuckTwice(old(Now()), now, Now());
          OwnFd(old(fds[..]), before, pid, i, fds[..]);
        }
      }
    }
  }

  // A run that shares a File: a free inode is opened, the next open gets the
  // same slot, and two descriptors hold a File that counts one reference.
  method FreeInodeRun() returns (t: FileTables, a: int, b: int)
    ensures 0 <= a < MAX_FD && 0 <= b < MAX_FD && a != b
    ensures t.Tables() && !t.Valid()
    ensures t.fds[FdAt(0, a)] == t.fds[FdAt(0, b)] == 0 && t.files[0] == File(1, Normal, -1, NoEnd)
  {
    hide EndsOk, FifoOk;
    t := new FileTables();
    ghost var blank, empty := t.fds[..], t.files[..];
    assert !IsFd(blank, 0, 0) && empty[0].kind == Free;
    a := t.SysOpen(0, true, Free);
    assert t.files[..][0].kind == Free && t.fds[..] == blank[FdAt(0, a) := 0];
    ghost var one := t.fds[..];
    assert !IsFd(one, 0, if a == 0 then 1 else 0);
    b := t.SysOpen(0, true, Normal);
    TwiceHeld(blank, t.fds[..], a, b);
    assert !RefOk(t.files[..][0], multiset(t.fds[..])[0]);
  }

  lemma TwiceHeld(blank: seq<int>, fds: seq<int>, a: nat, b: nat)
    requires |blank| == FD_SLOTS && a < MAX_FD && b < MAX_FD && a != b && blank[FdAt(0, a)] == blank[FdAt(0, b)] == -1
    requires fds == blank[FdAt(0, a) := 0][FdAt(0, b) := 0]
    ensures multiset(fds)[0] >= 2
  {
    PutFd(blank, FdAt(0, a), 0);
    PutFd(blank[FdAt(0, a) := 0], FdAt(0, b), 0);
  }

  // A run that loses a pipe for good: its reading end is duplicated, and then
  // every descriptor of it is closed.
  method StuckRun() returns (t: FileTables, p: nat)
    ensures t.Valid() && forall i :: 0 <= i < FD_SLOTS ==> t.fds[i] == -1
    ensures Stuck(t.pipes[..], t.ends, p)
  {
    hide EndsOk, FifoOk, RefsOk, FdsOk, StuckStay, AfterDup, AfterClose, Stuck, ClosedThree, TwoFree, TwoNull,
        HasUnused, AllFds;
    t := new FileTables();
    ghost var blank := t.fds[..];
    FreshTables(t.files[..], t.pipes[..], blank);
    var ok, rfd, wfd := t.SysPipe(0);
    ghost var piped, r, w, o := t.fds[..], t.fds[FdAt(0, rfd)], t.fds[FdAt(0, wfd)], t.Now();
    p := t.files[t.fds[FdAt(0, rfd)]].pipe;
    OneNull(blank, rfd, wfd, r, w);
    var d := t.SysDup(0, rfd);
    assert t.fds[..] == blank[FdAt(0, rfd) := r][FdAt(0, wfd) := w][FdAt(0, d) := r];
    CloseThree(t, rfd, wfd, d, r, w, blank);
    StuckAfter(o, p, r, w);
  }

  method CloseThree(t: FileTables, rfd: nat, wfd: nat, d: nat, ghost r: nat, ghost w: nat, ghost blank: seq<int>)
    requires t.Valid() && rfd < MAX_FD && wfd < MAX_FD && d < MAX_FD && rfd != wfd && d != rfd && d != wfd && r < NFILE
    requires w < NFILE
    requires |blank| == FD_SLOTS && forall i :: 0 <= i < FD_SLOTS ==> blank[i] == -1
    requires t.fds[..] == blank[FdAt(0, rfd) := r][FdAt(0, wfd) := w][FdAt(0, d) := r]
    modifies t.files, t.pipes, t.fds, t`ends
    ensures t.Valid() && t.fds[..] == blank
    ensures t.Now() == ClosedThree(old(t.Now()), r, w)
  {
    hide EndsOk, FifoOk, RefsOk, FdsOk, AfterClose;
    ClearedAgain(blank, FdAt(0, rfd), FdAt(0, wfd), FdAt(0, d), r, w);
    CloseOne(t, rfd, r);
    CloseOne(t, wfd, w);
    CloseOne(t, d, r);
  }

  method CloseOne(t: FileTables, fd: nat, ghost f: nat)
    requires t.Valid() && fd < MAX_FD && f < NFILE && t.fds[..][FdAt(0, fd)] == f
    modifies t.files, t.pipes, t.fds, t`ends
    ensures t.Valid() && t.fds[..] == old(t.fds[..])[FdAt(0, fd) := -1] && |old(t.files[..])| == NFILE
    ensures t.Now() == AfterClose(old(t.Now()), f)
  {
    hide EndsOk, FifoOk, RefsOk, FdsOk, StuckStay, AfterClose;
    var r := t.SysClose(0, fd);
  }

  lemma ClearedAgain(blank: seq<int>, a: nat, b: nat, c: nat, r: nat, w: nat)
    requires a < |blank| && b < |blank| && c < |blank| && a != b && b != c && c != a
    requires blank[a] == blank[b] == blank[c] == -1
    ensures var s := blank[a := r][b := w][c := r];
      && s[a] == r && s[a := -1][b] == w && s[a := -1][b := -1][c] == r
      && s[a := -1][b := -1][c := -1] == blank
  {
  }

  function ClosedThree(o: Open, r: nat, w: nat): Open
    requires r < |o.files| && w < |o.files|
  {
    AfterClose(AfterClose(AfterClose(o, r), w), r)
  }

  lemma FreshTables(files: seq<File>, pipes: seq<Pipe>, fds: seq<int>)
    requires |files| == NFILE && |pipes| == MAX_PIPES && |fds| == FD_SLOTS
    requires forall i :: 0 <= i < FD_SLOTS ==> fds[i] == -1
    requires forall i :: 0 <= i < NFILE ==> files[i] == CLOSED
    requires forall i :: 0 <= i < MAX_PIPES ==> !pipes[i].used
    ensures HasUnused(pipes) && TwoFree(files) && TwoNull(fds, 0)
  {
    assert !pipes[0].used && files[0].kind == files[1].kind == Free;
    assert !IsFd(fds, 0, 0) && !IsFd(fds, 0, 1);
  }

  lemma OneNull(fds: seq<int>, rfd: nat, wfd: nat, r: nat, w: nat)
    requires |fds| == FD_SLOTS && rfd < MAX_FD && wfd < MAX_FD && forall i :: 0 <= i < FD_SLOTS ==> fds[i] == -1
    ensures !AllFds(fds[FdAt(0, rfd) := r][FdAt(0, wfd) := w], 0)
  {
    var i := if rfd != 0 && wfd != 0 then 0 else if rfd != 1 && wfd != 1 then 1 else 2;
    assert !IsFd(fds[FdAt(0, rfd) := r][FdAt(0, wfd) := w], 0, i);
  }

  lemma StuckAfter(o: Open, p: nat, r: nat, w: nat)
    requires EndsOk(o.files, o.pipes, o.ends) && p < MAX_PIPES && r < NFILE && w < NFILE && r != w
    requires o.files[r] == File(1, PipeFile, p, ReadEnd) && o.files[w] == File(1, PipeFile, p, WriteEnd)
    requires o.ends[p] == Ends(r, w, 0, 0)
    ensures var o' := ClosedThree(AfterDup(o, r), r, w); Stuck(o'.pipes, o'.ends, p)
  {
    assert FileOk(r, o.files[r], o.pipes, o.ends) && PipeOk(o.files, p, o.pipes[p], o.ends[p]);
  }

  predicate Reads(files: seq<File>, pipes: seq<Pipe>, f: int) {
    && 0 <= f < |files| && 0 <= files[f].pipe < MAX_PIPES && files[f].pipe < |pipes|
    && pipes[files[f].pipe].used && files[f].end == ReadEnd
  }

  predicate Writes(files: seq<File>, pipes: seq<Pipe>, f: int) {
    && 0 <= f < |files| && 0 <= files[f].pipe < MAX_PIPES && files[f].pipe < |pipes|
    && pipes[files[f].pipe].used && files[f].end == WriteEnd && pipes[files[f].pipe].readers > 0
  }

  // The oldest bytes of pipe p have left it, as dst; nothing else changed.
  ghost predicate Delivered(ps: seq<Pipe>, ss: seq<Stream>, qs: seq<Pipe>, ts: seq<Stream>, p: nat, dst: seq<byte>) {
    && p < |ps| == |ss| && Ring(ps[p]) && |dst| <= ps[p].count
    && dst == Buffered(ps[p])[..|dst|] && qs == ps[p := Popped(ps[p], |dst|)]
    && ts == ss[p := ss[p].(delivered := ss[p].delivered + dst)]
  }

  // src has joined pipe p at the back; nothing else changed.
  ghost predicate Accepted(ps: seq<Pipe>, ss: seq<Stream>, qs: seq<Pipe>, ts: seq<Stream>, p: nat, src: seq<byte>) {
    && p < |ps| == |ss| == |qs| && Pushed(ps[p], qs[p], src) && qs == ps[p := qs[p]]
    && ts == ss[p := ss[p].(accepted := ss[p].accepted + src)]
  }

  // Nor does a transfer: it changes the pipe of a File that is one of its ends.
  lemma TrafficSparesStuck(files: seq<File>, ps: seq<Pipe>, es: seq<Ends>, ss: seq<Stream>, qs: seq<Pipe>,
      ts: seq<Stream>, f: int, bytes: seq<byte>)
    requires EndsOk(files, ps, es)
    requires || (Reads(files, ps, f) && Delivered(ps, ss, qs, ts, files[f].pipe, bytes))
             || (Writes(files, ps, f) && Accepted(ps, ss, qs, ts, files[f].pipe, bytes))
    ensures StuckStay(Open(files, ps, es), Open(files, qs, es))
  {
    NotStuck(files, ps, es, f);
    assert es[files[f].pipe := es[files[f].pipe]] == es;
    OthersStuck(Open(files, ps, es), Open(files, qs, es), files[f].pipe);
  }

  lemma NothingDelivered(ps: seq<Pipe>, ss: seq<Stream>, p: nat)
    requires FifoOk(ps, ss) && p < MAX_PIPES && ps[p].used
    ensures Delivered(ps, ss, ps, ss, p, [])
  {
    assert ss[p].delivered + [] == ss[p].delivered;
    assert ps[p := Popped(ps[p], 0)] == ps;
  }

  lemma DeliveredMore(ps: seq<Pipe>, ss: seq<Stream>, qs: seq<Pipe>, ts: seq<Stream>, us: seq<Pipe>, vs: seq<Stream>,
      p: nat, x: seq<byte>, y: seq<byte>)
    requires Delivered(ps, ss, qs, ts, p, x) && Delivered(qs, ts, us, vs, p, y)
    ensures Delivered(ps, ss, us, vs, p, x + y) && qs[p].count == ps[p].count - |x|
  {
    PopTwice(ps[p], |x|, |y|);
    assert (ss[p].delivered + x) + y == ss[p].delivered + (x + y);
  }

  lemma NothingAccepted(ps: seq<Pipe>, ss: seq<Stream>, p: nat)
    requires FifoOk(ps, ss) && p < MAX_PIPES && ps[p].used
    ensures Accepted(ps, ss, ps, ss, p, []) && ps[p].count <= PIPE_BUF_SIZE
  {
    PushNothing(ps[p]);
    assert ss[p].accepted + [] == ss[p].accepted;
  }

  lemma AcceptedMore(ps: seq<Pipe>, ss: seq<Stream>, qs: seq<Pipe>, ts: seq<Stream>, us: seq<Pipe>, vs: seq<Stream>,
      p: nat, x: seq<byte>, y: seq<byte>)
    requires Accepted(ps, ss, qs, ts, p, x) && Accepted(qs, ts, us, vs, p, y)
    ensures Accepted(ps, ss, us, vs, p, x + y)
  {
    PushTwice(ps[p], qs[p], us[p], x, y);
    assert (ss[p].accepted + x) + y == ss[p].accepted + (x + y);
  }

  lemma StillWrites(files: seq<File>, ps: seq<Pipe>, ss: seq<Stream>, qs: seq<Pipe>, ts: seq<Stream>, f: int,
      src: seq<byte>)
    requires 0 <= f < |files|
    requires if Writes(files, ps, f) then Accepted(ps, ss, qs, ts, files[f].pipe, src) else qs == ps
    ensures Writes(files, qs, f) <==> Writes(files, ps, f)
    ensures Writes(files, ps, f) ==> qs[files[f].pipe].count == ps[files[f].pipe].count + |src|
  {
  }

  lemma StillReads(files: seq<File>, ps: seq<Pipe>, ss: seq<Stream>, qs: seq<Pipe>, ts: seq<Stream>, f: int,
      dst: seq<byte>)
    requires 0 <= f < |files|
    requires if Reads(files, ps, f) then Delivered(ps, ss, qs, ts, files[f].pipe, dst) else qs == ps
    ensures Reads(files, qs, f) <==> Reads(files, ps, f)
    ensures Reads(files, ps, f) ==> qs[files[f].pipe].count == ps[files[f].pipe].count - |dst|
  {
  }

  lemma PipeRing(pipes: seq<Pipe>, streams: seq<Stream>, p: nat)
    requires FifoOk(pipes, streams) && p < MAX_PIPES && pipes[p].used
    ensures |pipes| == |streams| == MAX_PIPES && Lossless(pipes[p], streams[p]) && Ring(pipes[p])
  {
  }

  lemma BufferedAt(p: Pipe, i: nat)
    requires Ring(p) && i < p.count
    ensures Buffered(p)[..i + 1] == Buffered(p)[..i] + [p.buf[Step(p.rpos, i)]]
    ensures Step(Step(p.rpos, i), 1) == Step(p.rpos, i + 1)
  {
  }

  // The bytes written so far, while the pipe's count still is as before.
  ghost predicate Filled(p: Pipe, buf: seq<byte>, src: seq<byte>) {
    && Ring(p) && p.count + |src| <= PIPE_BUF_SIZE && |buf| == PIPE_BUF_SIZE
    && (forall k :: 0 <= k < |src| ==> buf[Step(p.wpos, k)] == src[k])
    && (forall i :: 0 <= i < p.count ==> buf[Step(p.rpos, i)] == p.buf[Step(p.rpos, i)])
  }

  lemma NothingFilled(p: Pipe)
    requires Ring(p)
    ensures Filled(p, p.buf, [])
  {
  }

  lemma ReadKeeps(files: seq<File>, ps: seq<Pipe>, es: seq<Ends>, ss: seq<Stream>, p: nat, can: nat)
    requires EndsOk(files, ps, es) && FifoOk(ps, ss) && p < MAX_PIPES && ps[p].used && Ring(ps[p]) && can <= ps[p].count
    ensures var dst := Buffered(ps[p])[..can]; var q := ps[p := Popped(ps[p], can)];
      var t := ss[p := ss[p].(delivered := ss[p].delivered + dst)];
      EndsOk(files, q, es) && FifoOk(q, t) && Delivered(ps, ss, q, t, p, dst)
  {
    hide EndsOk;
    ReadKeepsLossless(ps[p], ss[p], can);
    FifoUpdate(ps, ss, p, Popped(ps[p], can), ss[p].(delivered := ss[p].delivered + Buffered(ps[p])[..can]));
    TrafficKeeps(files, ps, es, p, Popped(ps[p], can));
  }

  lemma WriteKeeps(files: seq<File>, ps: seq<Pipe>, es: seq<Ends>, ss: seq<Stream>, p: nat, q: Pipe, src: seq<byte>)
    requires EndsOk(files, ps, es) && FifoOk(ps, ss) && p < MAX_PIPES && ps[p].used && Pushed(ps[p], q, src)
    ensures var t := ss[p := ss[p].(accepted := ss[p].accepted + src)];
      EndsOk(files, ps[p := q], es) && FifoOk(ps[p := q], t) && Accepted(ps, ss, ps[p := q], t, p, src)
  {
    hide EndsOk, Pushed;
    assert ps[p].used == q.used && ps[p].readers == q.readers && ps[p].writers == q.writers
        && |q.buf| == PIPE_BUF_SIZE by { PushedShape(ps[p], q, src); }
    WriteKeepsLossless(ps[p], q, ss[p], src);
    FifoUpdate(ps, ss, p, q, ss[p].(accepted := ss[p].accepted + src));
    TrafficKeeps(files, ps, es, p, q);
  }

  lemma PushedShape(p: Pipe, q: Pipe, src: seq<byte>)
    requires Pushed(p, q, src)
    ensures q.used == p.used && q.readers == p.readers && q.writers == p.writers && |q.buf| == PIPE_BUF_SIZE
    ensures Ring(q) && q.count == p.count + |src|
  {
    PushAddsLast(p, q, src);
  }

  lemma FillOne(p: Pipe, buf: seq<byte>, src: seq<byte>, b: byte)
    requires Filled(p, buf, src) && p.count + |src| < PIPE_BUF_SIZE
    ensures Filled(p, buf[Step(p.wpos, |src|) := b], src + [b])
    ensures Step(Step(p.wpos, |src|), 1) == Step(p.wpos, |src| + 1)
  {
    PushOne(p, |src|);
  }

  lemma FilledIsPushed(p: Pipe, q: Pipe, src: seq<byte>)
    requires Filled(p, q.buf, src) && q == p.(buf := q.buf, wpos := Step(p.wpos, |src|), count := p.count + |src|)
    ensures Pushed(p, q, src)
  {
  }

  // The two Files are the ends of one pipe, which was not in use and is empty.
  ghost predicate NewPipe(before: seq<Pipe>, files: seq<File>, streams: seq<Stream>, r: int, w: int) {
    && 0 <= r < |files| && 0 <= w < |files|
    && var p := files[r].pipe;
      && 0 <= p < |before| && p < |streams| && !before[p].used && streams[p] == Stream([], [])
      && files[r] == File(1, PipeFile, p, ReadEnd) && files[w] == File(1, PipeFile, p, WriteEnd)
  }

  lemma FdsPut(fds: seq<int>, i: nat, f: nat)
    requires FdsOk(fds) && i < FD_SLOTS && f < NFILE
    ensures |fds| == FD_SLOTS && FdsOk(fds[i := f])
  {
  }

  // The slot filealloc finds.
  predicate IsFirstFree(files: seq<File>, f: int) {
    0 <= f < |files| && files[f].kind == Free && forall i :: 0 <= i < f ==> files[i].kind != Free
  }

  lemma CloseKeepsRefs(files: seq<File>, held: multiset<int>, f: nat)
    requires f < |files| && |files| == NFILE
    ensures RefsOk(files, held) && held[f] > 0 ==>
            && files[f].ref == held[f]
            && RefsOk(files[f := if held[f] == 1 then CLOSED else files[f].(ref := held[f] - 1)], held - multiset{f})
  {
    if RefsOk(files, held) && held[f] > 0 {
      HeldIsOpen(files, held, f);
      if held[f] == 1 {
        LastGoes(files, held, f);
      } else {
        CountKeeps(files, held, f, held - multiset{f});
      }
    }
  }

  lemma RefsEither(files: seq<File>, a: multiset<int>, b: multiset<int>)
    requires forall f :: f >= 0 ==> a[f] == b[f]
    ensures RefsOk(files, a) <==> RefsOk(files, b)
  {
  }

  // get_fd_file finds a File.
  predicate IsFd(fds: seq<int>, pid: nat, fd: int)
    requires |fds| == FD_SLOTS && pid < MAX_PROCS
  {
    0 <= fd < MAX_FD && fds[FdAt(pid, fd)] != -1
  }

  predicate AllFds(fds: seq<int>, pid: nat)
    requires |fds| == FD_SLOTS && pid < MAX_PROCS
  {
    forall i :: 0 <= i < MAX_FD ==> IsFd(fds, pid, i)
  }

  predicate TwoNull(fds: seq<int>, pid: nat)
    requires |fds| == FD_SLOTS && pid < MAX_PROCS
  {
    exists i, j :: 0 <= i < j < MAX_FD && !IsFd(fds, pid, i) && !IsFd(fds, pid, j)
  }

  lemma NotTwoNull(fds: seq<int>, pid: nat)
    requires |fds| == FD_SLOTS && pid < MAX_PROCS && AllFds(fds, pid)
    ensures !TwoNull(fds, pid)
  {
  }

  // With the first null descriptor taken, whether another one is left.
  lemma TwoNullAfter(fds: seq<int>, pid: nat, fd: nat, f: nat)
    requires |fds| == FD_SLOTS && pid < MAX_PROCS && fd < MAX_FD && !IsFd(fds, pid, fd)
    ensures TwoNull(fds, pid) <==> !AllFds(fds[FdAt(pid, fd) := f], pid)
  {
    var after := fds[FdAt(pid, fd) := f];
    forall i | 0 <= i < MAX_FD
      ensures IsFd(after, pid, i) <==> IsFd(fds, pid, i) || i == fd
    {
    }
    if i :| 0 <= i < MAX_FD && !IsFd(after, pid, i) {
      assert if i < fd then !IsFd(fds, pid, i) && !IsFd(fds, pid, fd) else !IsFd(fds, pid, fd) && !IsFd(fds, pid, i);
    }
  }

  // Only process slot pid's descriptors differ.
  ghost predicate OthersKept(a: seq<int>, b: seq<int>, pid: nat)
    requires pid < MAX_PROCS
  {
    && |a| == |b| == FD_SLOTS
    && forall i :: 0 <= i < FD_SLOTS && !(MAX_FD * pid <= i < MAX_FD * pid + MAX_FD) ==> b[i] == a[i]
  }

  lemma OtherFd(a: seq<int>, b: seq<int>, pid: nat, other: nat, fd: nat)
    requires pid < MAX_PROCS && other < MAX_PROCS && other != pid && fd < MAX_FD && OthersKept(a, b, pid)
    ensures b[FdAt(other, fd)] == a[FdAt(other, fd)]
  {
  }

  lemma OwnFd(a: seq<int>, b: seq<int>, pid: nat, fd: nat, c: seq<int>)
    requires pid < MAX_PROCS && fd < MAX_FD && OthersKept(a, b, pid) && |c| == FD_SLOTS
    requires c == b[FdAt(pid, fd) := c[FdAt(pid, fd)]]
    ensures OthersKept(a, c, pid)
  {
  }

  lemma InTable(fds: seq<int>, i: nat)
    requires i < |fds| && fds[i] >= 0
    ensures multiset(fds)[fds[i]] > 0
  {
  }

  lemma FdBound(fds: seq<int>, i: nat)
    requires FdsOk(fds) && i < FD_SLOTS
    ensures -1 <= fds[i] < NFILE
  {
  }

  lemma NothingHeld(files: seq<File>, fds: seq<int>)
    requires |files| == NFILE && (forall f :: 0 <= f < NFILE ==> files[f] == CLOSED)
    requires forall i :: 0 <= i < |fds| ==> fds[i] == -1
    ensures RefsOk(files, multiset(fds))
  {
  }

  lemma Sizes(files: seq<File>, pipes: seq<Pipe>, ends: seq<Ends>, streams: seq<Stream>)
    requires EndsOk(files, pipes, ends) && FifoOk(pipes, streams)
    ensures |files| == NFILE && |pipes| == |ends| == |streams| == MAX_PIPES
    ensures forall p :: 0 <= p < MAX_PIPES ==> |pipes[p].buf| == PIPE_BUF_SIZE
  {
  }

  lemma EndOfPipe(files: seq<File>, pipes: seq<Pipe>, ends: seq<Ends>, f: nat)
    requires EndsOk(files, pipes, ends) && f < NFILE && files[f].kind == PipeFile
    ensures files[f].end == ReadEnd || files[f].end == WriteEnd
    ensures |pipes| == |ends| == MAX_PIPES
  {
  }

  lemma DroppedFifo(pipes: seq<Pipe>, streams: seq<Stream>, p: nat, e: End)
    requires FifoOk(pipes, streams) && p < MAX_PIPES
    ensures FifoOk(pipes[p := Dropped(pipes[p], e)], streams)
  {
    if Dropped(pipes[p], e).used {
      CountsKeepLossless(pipes[p], Dropped(pipes[p], e), streams[p]);
    }
    FifoUpdate(pipes, streams, p, Dropped(pipes[p], e), streams[p]);
    assert streams[p := streams[p]] == streams;
  }

  lemma DuppedFifo(pipes: seq<Pipe>, streams: seq<Stream>, p: nat, e: End)
    requires FifoOk(pipes, streams) && p < MAX_PIPES
    ensures FifoOk(pipes[p := Dupped(pipes[p], e)], streams)
  {
  }

  // A slot that was taken and given back is as unused as before.
  lemma PipeGivenUp(files: seq<File>, pipes: seq<Pipe>, ends: seq<Ends>, streams: seq<Stream>, p: nat, q: Pipe)
    requires EndsOk(files, pipes, ends) && FifoOk(pipes, streams) && p < MAX_PIPES && !pipes[p].used
    requires !q.used && |q.buf| == PIPE_BUF_SIZE
    ensures EndsOk(files, pipes[p := q], ends) && FifoOk(pipes[p := q], streams)
    ensures StuckStay(Open(files, pipes, ends), Open(files, pipes[p := q], ends))
  {
    assert ends[p := ends[p]] == ends;
    OthersStuck(Open(files, pipes, ends), Open(files, pipes[p := q], ends), p);
    FifoUpdate(pipes, streams, p, q, streams[p]);
    assert streams[p := streams[p]] == streams;
    forall f | 0 <= f < NFILE
      ensures FileOk(f, files[f], pipes[p := q], ends)
    {
      assert FileOk(f, files[f], pipes, ends);
    }
    forall i | 0 <= i < MAX_PIPES
      ensures PipeOk(files, i, pipes[p := q][i], ends[i])
    {
      assert PipeOk(files, i, pipes[i], ends[i]);
    }
  }

  // What the two searches of fs_pipe_create may find.
  lemma FreeSlots(files: seq<File>, pipes: seq<Pipe>)
    ensures (forall p :: 0 <= p < |pipes| ==> pipes[p].used) ==> !HasUnused(pipes)
    ensures forall p :: 0 <= p < |pipes| && !pipes[p].used ==> HasUnused(pipes)
    ensures (forall i :: 0 <= i < |files| ==> files[i].kind != Free) ==> !TwoFree(files)
  {
  }

  lemma PipeMade(files: seq<File>, held: multiset<int>, pipes: seq<Pipe>, ends: seq<Ends>, streams: seq<Stream>, p: nat,
      r: nat, w: nat, q: Pipe)
    requires RefsOk(files, held) && EndsOk(files, pipes, ends) && FifoOk(pipes, streams) && p < MAX_PIPES
    requires !pipes[p].used
    requires r < NFILE && w < NFILE && r != w && files[r].kind == Free && files[w].kind == Free
    requires q == Pipe(true, 1, 1, 0, 0, 0, pipes[p].buf)
    ensures RefsOk(files[r := File(1, PipeFile, p, ReadEnd)][w := File(1, PipeFile, p, WriteEnd)],
            held + multiset{r, w})
    ensures EndsOk(files[r := File(1, PipeFile, p, ReadEnd)][w := File(1, PipeFile, p, WriteEnd)],
                   pipes[p := q], ends[p := Ends(r, w, 0, 0)])
    ensures FifoOk(pipes[p := q], streams[p := Stream([], [])])
    ensures StuckStay(Open(files, pipes, ends),
            Open(files[r := File(1, PipeFile, p, ReadEnd)][w := File(1, PipeFile, p, WriteEnd)],
                                                     pipes[p := q], ends[p := Ends(r, w, 0, 0)]))
  {
    CreateKeeps(files, held, pipes, ends, p, r, w, q);
    hide RefsOk;
    NewPipeLossless(q);
    FifoUpdate(pipes, streams, p, q, Stream([], []));
    OthersStuck(Open(files, pipes, ends),
        Open(files[r := File(1, PipeFile, p, ReadEnd)][w := File(1, PipeFile, p, WriteEnd)],
                                               pipes[p := q], ends[p := Ends(r, w, 0, 0)]), p);
  }

  lemma FileGivenUp(files: seq<File>, held: multiset<int>, pipes: seq<Pipe>, ends: seq<Ends>, r: nat)
    requires EndsOk(files, pipes, ends) && RefsOk(files, held) && r < NFILE && files[r].kind == Free
    ensures EndsOk(files[r := CLOSED], pipes, ends) && RefsOk(files[r := CLOSED], held)
    ensures files[r := CLOSED] == files
  {
    FreeIsNotHeld(files, held, r);
  }
}
