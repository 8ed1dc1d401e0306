// Paths as lists of names: how the walks over a path string come to the names in it.
module PathNames {
  import opened Bytes
  import opened DiskFormat
  import opened Directory
  import opened HostTree

  function Slashes(n: nat): (r: seq<byte>)
    ensures |r| == n && forall i :: 0 <= i < n ==> r[i] == SLASH
  {
    seq(n, _ => SLASH)
  }

  predicate PlainName(name: seq<byte>) {
    name != [] && SLASH !in name
  }

  // The names with gaps[k] slashes before the k-th, and the last gap at the end.
  function Joined(names: seq<seq<byte>>, gaps: seq<nat>): seq<byte>
    requires |gaps| == |names| + 1
  {
    if names == [] then Slashes(gaps[0])
    else Slashes(gaps[0]) + (names[0] + Joined(names[1..], gaps[1..]))
  }

  // The gaps of what skipelem leaves: the slashes before its first name are gone.
  function After(gaps: seq<nat>): (r: seq<nat>)
    requires |gaps| >= 2
    ensures |r| == |gaps| - 1
  {
    gaps[1..][0 := 0]
  }

  // The path consists of these names with these gaps, which are at least one
  // slash between two names.
  ghost predicate Splits(path: seq<byte>, names: seq<seq<byte>>, gaps: seq<nat>) {
    && |gaps| == |names| + 1 && path == Joined(names, gaps)
    && (forall k :: 0 <= k < |names| ==> PlainName(names[k]))
    && (forall k :: 1 <= k < |names| ==> gaps[k] >= 1)
  }

  lemma Gaps(path: seq<byte>, names: seq<seq<byte>>, gaps: seq<nat>)
    requires Splits(path, names, gaps)
    ensures |gaps| == |names| + 1
  {
  }

  // ---- One element ----

  lemma {:induction false} SkipGap(n: nat, p: seq<byte>)
    requires p != [] ==> p[0] != SLASH
    ensures SkipSlashes(Slashes(n) + p) == p
  {
    if n > 0 {
      assert (Slashes(n) + p)[1..] == Slashes(n - 1) + p;
      SkipGap(n - 1, p);
    } else {
      assert Slashes(0) + p == p;
    }
  }

  lemma {:induction false} ElemOf(name: seq<byte>, p: seq<byte>)
    requires SLASH !in name && (p != [] ==> p[0] == SLASH)
    ensures ElemLength(name + p) == |name|
  {
    if name != [] {
      assert (name + p)[1..] == name[1..] + p;
      ElemOf(name[1..], p);
    } else {
      assert name + p == p;
    }
  }

  // The first element of a path is its first name, and what follows it is the
  // path of the other names.
  lemma NextOfJoined(path: seq<byte>, names: seq<seq<byte>>, gaps: seq<nat>)
    requires Splits(path, names, gaps)
    ensures names == [] ==> NextElem(path).NoElem?
    ensures names != [] ==>
              && NextElem(path).Elem? && NextElem(path).name == names[0]
              && Splits(NextElem(path).rest, names[1..], After(gaps))
  {
    if names == [] {
      SkipGap(gaps[0], []);
      assert Slashes(gaps[0]) + [] == path;
    } else {
      var tail := Joined(names[1..], gaps[1..]);
      var p := names[0] + tail;
      SkipGap(gaps[0], p);
      JoinedStarts(names[1..], gaps[1..]);
      ElemOf(names[0], tail);
      assert p[..|names[0]|] == names[0] && p[|names[0]|..] == tail;
      JoinedWithout(names[1..], gaps[1..]);
    }
  }

  // After a name comes a slash or the end.
  lemma JoinedStarts(names: seq<seq<byte>>, gaps: seq<nat>)
    requires |gaps| == |names| + 1 && (names != [] ==> gaps[0] >= 1)
    ensures Joined(names, gaps) != [] ==> Joined(names, gaps)[0] == SLASH
  {
  }

  lemma JoinedWithout(names: seq<seq<byte>>, gaps: seq<nat>)
    requires |gaps| == |names| + 1 && (names != [] ==> PlainName(names[0]))
    ensures SkipSlashes(Joined(names, gaps)) == Joined(names, gaps[0 := 0])
  {
    if names == [] {
      SkipGap(gaps[0], []);
      assert Slashes(gaps[0]) + [] == Joined(names, gaps);
    } else {
      SkipGap(gaps[0], names[0] + Joined(names[1..], gaps[1..]));
      assert gaps[0 := 0][1..] == gaps[1..];
    }
  }

  // ---- Every path ----

  lemma {:induction false} LeadingSlashes(path: seq<byte>)
    ensures path == Slashes(|path| - |SkipSlashes(path)|) + SkipSlashes(path)
  {
    if path != [] && path[0] == SLASH {
      var n := |path| - |SkipSlashes(path)|;
      LeadingSlashes(path[1..]);
      assert Slashes(n) == [SLASH] + Slashes(n - 1);
      assert path == [SLASH] + path[1..];
    }
  }

  lemma {:induction false} ElemIsPlain(p: seq<byte>)
    ensures SLASH !in p[..ElemLength(p)] && (p[ElemLength(p)..] != [] ==> p[ElemLength(p)..][0] == SLASH)
  {
    if p != [] && p[0] != SLASH {
      ElemIsPlain(p[1..]);
      assert p[..ElemLength(p)] == [p[0]] + p[1..][..ElemLength(p[1..])];
      assert p[ElemLength(p)..] == p[1..][ElemLength(p[1..])..];
    }
  }

  // Every path splits into names.
  lemma {:induction false} SplitPath(path: seq<byte>) returns (names: seq<seq<byte>>, gaps: seq<nat>)
    ensures |gaps| == |names| + 1 && Splits(path, names, gaps)
    decreases |path|
  {
    hide Joined, SkipSlashes, ElemLength;
    var p := SkipSlashes(path);
    LeadingSlashes(path);
    var n := |path| - |p|;
    if p == [] {
      NoNames(n);
      assert Slashes(n) + [] == Slashes(n);
      return [], [n];
    }
    hide Splits;
    ElemIsPlain(p);
    var name, tail := p[..ElemLength(p)], p[ElemLength(p)..];
    var more, after := SplitPath(tail);
    names, gaps := [name] + more, [n] + after;
    assert p == name + tail;
    if more != [] {
      FirstGap(tail, more, after);
    }
    SplitMore(path, n, name, tail, more, after);
  }

  lemma FirstGap(path: seq<byte>, names: seq<seq<byte>>, gaps: seq<nat>)
    requires Splits(path, names, gaps) && names != [] && (path != [] ==> path[0] == SLASH)
    ensures gaps[0] >= 1
  {
  }

  lemma NoNames(n: nat)
    ensures Joined([], [n]) == Slashes(n)
  {
  }

  lemma SplitMore(path: seq<byte>, n: nat, name: seq<byte>, tail: seq<byte>, names: seq<seq<byte>>, gaps: seq<nat>)
    requires path == Slashes(n) + (name + tail) && PlainName(name) && Splits(tail, names, gaps)
    requires names != [] ==> gaps[0] >= 1
    ensures Splits(path, [name] + names, [n] + gaps)
  {
    assert ([name] + names)[1..] == names && ([n] + gaps)[1..] == gaps;
  }

  // And into no other names.
  lemma {:induction false} SplitOnce(path: seq<byte>, names: seq<seq<byte>>, gaps: seq<nat>, names': seq<seq<byte>>,
      gaps': seq<nat>)
    requires Splits(path, names, gaps) && Splits(path, names', gaps')
    ensures names == names'
    decreases |names|
  {
    NextOfJoined(path, names, gaps);
    NextOfJoined(path, names', gaps');
    if names != [] {
      SplitOnce(NextElem(path).rest, names[1..], After(gaps), names'[1..], After(gaps'));
    }
  }

  // ---- What the names lead to ----

  // Entering, name by name, the first entry of that name cut to DIRSIZ - 1 bytes.
  ghost predicate Descends(h: Host, names: seq<seq<byte>>, node: Host)
    decreases |names|
  {
    if names == [] then node == h
    else
      && h.HostDir?
      && exists k ::
          0 <= k < |h.entries| && FirstNamed(h.entries, names[0], k) && Descends(h.entries[k].node, names[1..], node)
  }

  predicate FirstNamed(es: seq<Entry>, name: seq<byte>, k: nat)
    requires k < |es|
  {
    var wanted := if |name| < DIRSIZ then name else name[..DIRSIZ - 1];
    es[k].name == wanted && forall j :: 0 <= j < k ==> es[j].name != wanted
  }

  lemma {:induction false} IndexIsFirst(es: seq<Entry>, name: seq<byte>, k: nat)
    requires k <= |es| && forall j :: 0 <= j < k ==> es[j].name != Truncated(name)
    ensures var r := IndexOf(es, Truncated(name), k);
            forall i :: 0 <= i < |es| ==> (FirstNamed(es, name, i) <==> i == r)
    decreases |es| - k
  {
    if k < |es| && es[k].name != Truncated(name) {
      IndexIsFirst(es, name, k + 1);
    }
  }

  // The outcome of a walk is what the names lead to, and nothing else is.
  ghost predicate Leads(w: Found, h: Host, names: seq<seq<byte>>) {
    match w
    case Missing => forall node :: !Descends(h, names, node)
    case At(found, i, f) => i > 0 && f > 0 && forall node :: Descends(h, names, node) <==> node == found
  }

  lemma LeadsHere(h: Host, inum: nat, first: nat, path: seq<byte>)
    requires 0 < inum && 0 < first && NextElem(path).NoElem?
    ensures Leads(HostWalk(h, inum, first, path), h, [])
  {
    hide NextElem;
  }

  lemma LeadsNowhere(h: Host, inum: nat, first: nat, path: seq<byte>, names: seq<seq<byte>>)
    requires names != [] && h.HostFile? && NextElem(path).Elem?
    ensures Leads(HostWalk(h, inum, first, path), h, names)
  {
    hide NextElem;
  }

  lemma LeadsOn(es: seq<Entry>, names: seq<seq<byte>>, k: nat, w: Found)
    requires names != [] && k <= |es| && forall i :: 0 <= i < |es| ==> (FirstNamed(es, names[0], i) <==> i == k)
    requires if k < |es| then Leads(w, es[k].node, names[1..]) else w == Missing
    ensures Leads(w, HostDir(es), names)
  {
    hide FirstNamed;
    forall node
      ensures Descends(HostDir(es), names, node) <==> k < |es| && Descends(es[k].node, names[1..], node)
    {
    }
  }

  lemma InumPositive(es: seq<Entry>, first: nat, k: nat)
    requires 0 < first && k <= |es|
    ensures InumOf(es, first, k) > 0
  {
  }

  lemma WalkEnters(es: seq<Entry>, inum: nat, first: nat, path: seq<byte>)
    requires NextElem(path).Elem?
    ensures var k := IndexOf(es, Truncated(NextElem(path).name), 0);
            HostWalk(HostDir(es), inum, first, path) ==
            if k == |es| then Missing
            else HostWalk(es[k].node, InumOf(es, first, k), InumOf(es, first, k) + 1, NextElem(path).rest)
  {
    hide IndexOf, InumOf, NextElem, Truncated;
  }

  lemma LeadsInto(es: seq<Entry>, inum: nat, first: nat, path: seq<byte>, names: seq<seq<byte>>)
    requires names != [] && NextElem(path).Elem? && NextElem(path).name == names[0]
    requires var k := IndexOf(es, Truncated(names[0]), 0);
             k < |es| ==>
               var i := InumOf(es, first, k);
               Leads(HostWalk(es[k].node, i, i + 1, NextElem(path).rest), es[k].node, names[1..])
    ensures Leads(HostWalk(HostDir(es), inum, first, path), HostDir(es), names)
  {
    IndexIsFirst(es, names[0], 0);
    WalkEnters(es, inum, first, path);
    hide IndexOf, FirstNamed, Truncated, InumOf, NextElem, Leads, HostWalk;
    LeadsOn(es, names, IndexOf(es, Truncated(names[0]), 0), HostWalk(HostDir(es), inum, first, path));
  }

  // The walk over the host tree is the descent through the names of the path.
  lemma {:induction false} HostWalkDescends(h: Host, inum: nat, first: nat, path: seq<byte>, names: seq<seq<byte>>,
      gaps: seq<nat>)
    requires Splits(path, names, gaps) && 0 < inum && 0 < first
    ensures Leads(HostWalk(h, inum, first, path), h, names)
    decreases |names|
  {
    NextOfJoined(path, names, gaps);
    if names == [] {
      LeadsHere(h, inum, first, path);
    } else if h.HostFile? {
      LeadsNowhere(h, inum, first, path, names);
    } else {
      hide IndexOf, FirstNamed, Truncated, InumOf, NextElem, Splits, Leads, Descends, After, HostWalk;
      var es := h.entries;
      var k := IndexOf(es, Truncated(names[0]), 0);
      if k < |es| {
        InumPositive(es, first, k);
        var i := InumOf(es, first, k);
        HostWalkDescends(es[k].node, i, i + 1, NextElem(path).rest, names[1..], After(gaps));
      }
      LeadsInto(es, inum, first, path, names);
    }
  }

  // ---- The same over an inode table ----

  // Entering, name by name, the first entry in use that matches; 0 when one is missing.
  ghost function Follow(inodes: seq<Inode>, files: seq<seq<byte>>, inum: nat, names: seq<seq<byte>>): nat
    requires |files| == |inodes| && inum < |inodes|
    decreases |names|
  {
    if names == [] then inum
    else if inodes[inum].kind != DIR_INODE then 0
    else
      var next := Scan(files[inum], Buffered(names[0]), 0);
      if next == 0 || next >= |inodes| then 0 else Follow(inodes, files, next, names[1..])
  }

  lemma {:induction false} WalkFollows(inodes: seq<Inode>, files: seq<seq<byte>>, inum: nat, path: seq<byte>,
      names: seq<seq<byte>>, gaps: seq<nat>)
    requires Splits(path, names, gaps) && |files| == |inodes| && inum < |inodes|
    ensures Walk(inodes, files, inum, path) == Follow(inodes, files, inum, names)
    decreases |names|
  {
    assert |gaps| == |names| + 1;
    hide Scan, NextElem, Splits;
    NextOfJoined(path, names, gaps);
    if names != [] && inodes[inum].kind == DIR_INODE {
      var next := Scan(files[inum], Buffered(names[0]), 0);
      if next != 0 && next < |inodes| {
        WalkFollows(inodes, files, next, NextElem(path).rest, names[1..], After(gaps));
      }
    }
  }
}
