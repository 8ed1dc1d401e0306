// The distinct elements of an access trace, most recently accessed first.
module Recency {

  ghost predicate NoDup<T>(s: seq<T>) {
    forall i, j :: 0 <= i < j < |s| ==> s[i] != s[j]
  }

  ghost function Elems<T>(s: seq<T>): set<T> {
    set x | x in s
  }

  ghost function Drop<T>(s: seq<T>, p: nat): (r: seq<T>)
    requires p < |s|
    ensures |r| == |s| - 1
    ensures forall i {:trigger r[i]} :: 0 <= i < |r| ==> r[i] == s[if i < p then i else i + 1]
  {
    s[..p] + s[p + 1..]
  }

  ghost function Without(s: seq<nat>, x: nat): (r: seq<nat>)
    ensures |r| <= |s|
    ensures x !in r
    ensures forall y :: y in r <==> y in s && y != x
  {
    if s == [] then []
    else if s[0] == x then Without(s[1..], x)
    else
      var t := Without(s[1..], x);
      assert s == [s[0]] + s[1..];
      assert forall y :: y in s <==> y == s[0] || y in s[1..];
      [s[0]] + t
  }

  ghost function Recent(trace: seq<nat>): (r: seq<nat>)
  {
    if trace == [] then []
    else
      var b := trace[|trace| - 1];
      [b] + Without(Recent(trace[..|trace| - 1]), b)
  }

  ghost function LastUse(trace: seq<nat>, b: nat): int {
    if trace == [] then -1
    else if trace[|trace| - 1] == b then |trace| - 1
    else LastUse(trace[..|trace| - 1], b)
  }

  lemma {:induction false} WithoutAbsent(s: seq<nat>, x: nat)
    requires x !in s
    ensures Without(s, x) == s
  {
    if s != [] {
      WithoutAbsent(s[1..], x);
    }
  }

  // Removing an element of a duplicate-free list closes the gap it leaves.
  lemma {:induction false} WithoutPresent(s: seq<nat>, p: nat)
    requires NoDup(s) && p < |s|
    ensures Without(s, s[p]) == Drop(s, p)
  {
    if p == 0 {
      WithoutAbsent(s[1..], s[0]);
      assert s[1..] == Drop(s, 0);
    } else {
      WithoutPresent(s[1..], p - 1);
      assert s[1..][p - 1] == s[p] && s[0] != s[p];
      assert [s[0]] + Drop(s[1..], p - 1) == Drop(s, p);
    }
  }

  // Taking an element out leaves a sublist: any order between members survives.
  lemma WithoutKeepsOrder(s: seq<nat>, x: nat, trace: seq<nat>)
    requires NoDup(s) && ByLastUse(s, trace)
    ensures NoDup(Without(s, x)) && ByLastUse(Without(s, x), trace)
  {
    if x in s {
      var p :| 0 <= p < |s| && s[p] == x;
      WithoutPresent(s, p);
    } else {
      WithoutAbsent(s, x);
    }
  }

  ghost predicate ByLastUse(s: seq<nat>, trace: seq<nat>) {
    forall i, j :: 0 <= i < j < |s| ==> LastUse(trace, s[i]) > LastUse(trace, s[j])
  }

  lemma {:induction false} RecentElems(trace: seq<nat>)
    ensures forall b :: b in Recent(trace) <==> b in trace
  {
    if trace != [] {
      var init, b := trace[..|trace| - 1], trace[|trace| - 1];
      RecentElems(init);
      assert trace == init + [b];
    }
  }

  // What Recent means: every accessed element once, ordered by its last access.
  lemma {:induction false} RecentCharacterised(trace: seq<nat>)
    ensures NoDup(Recent(trace))
    ensures forall b :: b in Recent(trace) <==> b in trace
    ensures ByLastUse(Recent(trace), trace)
  {
    RecentElems(trace);
    if trace != [] {
      var init, b := trace[..|trace| - 1], trace[|trace| - 1];
      RecentCharacterised(init);
      var w := Without(Recent(init), b);
      WithoutKeepsOrder(Recent(init), b, init);
      LastUseBound(init);
      forall i | 0 <= i < |w|
        ensures w[i] != b && LastUse(trace, w[i]) == LastUse(init, w[i])
      {
        assert w[i] in w;
      }
    }
  }

  lemma {:induction false} LastUseBound(trace: seq<nat>)
    ensures forall b :: LastUse(trace, b) < |trace|
  {
    if trace != [] {
      LastUseBound(trace[..|trace| - 1]);
    }
  }

  lemma RecentNoDup(trace: seq<nat>)
    ensures NoDup(Recent(trace))
  {
    RecentCharacterised(trace);
  }

  // One more access moves its element to the front of the list.
  lemma RecentStep(trace: seq<nat>, b: nat, p: nat)
    requires p < |Recent(trace)| && Recent(trace)[p] == b
    ensures Recent(trace + [b]) == [b] + Drop(Recent(trace), p)
  {
    RecentNoDup(trace);
    assert (trace + [b])[..|trace|] == trace;
    WithoutPresent(Recent(trace), p);
  }

  // ... and those before it keep their order, whether or not it was listed.
  lemma RecentStepPrefix(trace: seq<nat>, b: nat, k: nat)
    requires k <= |Recent(trace)| && b !in Recent(trace)[..k]
    ensures |Recent(trace + [b])| == if b in Recent(trace) then |Recent(trace)| else |Recent(trace)| + 1
    ensures k + 1 <= |Recent(trace + [b])|
    ensures Recent(trace + [b])[..k + 1] == [b] + Recent(trace)[..k]
  {
    RecentNoDup(trace);
    var r := Recent(trace);
    assert (trace + [b])[..|trace|] == trace;
    assert Recent(trace + [b]) == [b] + Without(r, b);
    hide Recent, Without;
    if b in r {
      var p :| 0 <= p < |r| && r[p] == b;
      WithoutPresent(r, p);
      DropPrefix(r, p, k);
    } else {
      WithoutAbsent(r, b);
    }
  }

  lemma DropPrefix(s: seq<nat>, p: nat, k: nat)
    requires p < |s| && k <= |s| && s[p] !in s[..k]
    ensures k <= p && Drop(s, p)[..k] == s[..k]
  {
  }

  // ---- Counting by injection ----

  lemma {:induction false} CardinalityOfNoDup<T>(s: seq<T>)
    requires NoDup(s)
    ensures |Elems(s)| == |s|
  {
    if s != [] {
      var t := s[..|s| - 1];
      CardinalityOfNoDup(t);
      assert s == t + [s[|s| - 1]];
      assert Elems(s) == Elems(t) + {s[|s| - 1]};
      assert s[|s| - 1] !in t;
    }
  }

  ghost function Below(n: nat): (b: set<nat>)
    ensures forall i: nat :: i in b <==> i < n
  {
    if n == 0 then {} else Below(n - 1) + {n - 1}
  }

  lemma {:induction false} CardinalityOfBelow(n: nat)
    ensures |Below(n)| == n
  {
    if n > 0 {
      CardinalityOfBelow(n - 1);
    }
  }

  lemma SubsetCardinality<T>(a: set<T>, b: set<T>)
    requires a <= b
    ensures |a| <= |b|
  {
    if a != {} {
      var x :| x in a;
      SubsetCardinality(a - {x}, b - {x});
    }
  }

  // A duplicate-free list of numbers below n fills [0, n) exactly when it has n elements.
  lemma NoDupFills(s: seq<nat>, n: nat)
    requires NoDup(s) && forall x :: x in s ==> x < n
    ensures |s| <= n
    ensures |s| == n <==> Elems(s) == Below(n)
  {
    CardinalityOfNoDup(s);
    CardinalityOfBelow(n);
    assert Elems(s) <= Below(n);
    SubsetCardinality(Elems(s), Below(n));
    if |s| == n && Elems(s) != Below(n) {
      var x :| x in Below(n) && x !in Elems(s);
      SubsetCardinality(Elems(s), Below(n) - {x});
      assert false;
    }
  }
}
