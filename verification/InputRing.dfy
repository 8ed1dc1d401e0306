// The ring of input events: enqueueing, plain and filtered dequeueing.
module InputRing {
  import opened Bytes

  const CAP: nat := 128

  datatype Event = Event(kind: u16, code: u16, value: u32)  // kind: the `type` field

  // ---- What a filter admits ----

  datatype Class = Keyboard | Pointer | Other

  // Keys below code 256 are the keyboard's; the other keys, absolute motion and
  // the synchronisation events that end a batch belong to the pointer.
  function ClassOf(e: Event): Class {
    if e.kind == 1 && e.code < 256 then Keyboard
    else if e.kind == 3 || e.kind == 1 || e.kind == 0 then Pointer
    else Other
  }

  predicate Admits(e: Event, pointer: bool, keyboard: bool) {
    match ClassOf(e)
    case Keyboard => keyboard
    case Pointer => pointer
    case Other => false
  }

  // The events of one class, in order.
  function Only(es: seq<Event>, c: Class): seq<Event> {
    if es == [] then [] else
      var e := es[|es| - 1];
      Only(es[..|es| - 1], c) + if ClassOf(e) == c then [e] else []
  }

  lemma {:induction false} OnlyConcat(a: seq<Event>, b: seq<Event>, c: Class)
    ensures Only(a + b, c) == Only(a, c) + Only(b, c)
  {
    if b == [] {
      assert a + b == a;
    } else {
      OnlyConcat(a, b[..|b| - 1], c);
      assert (a + b)[..|a + b| - 1] == a + b[..|b| - 1];
    }
  }

  lemma OnlyOne(e: Event, c: Class)
    ensures Only([e], c) == if ClassOf(e) == c then [e] else []
  {
  }

  lemma {:induction false} OnlyNone(es: seq<Event>, c: Class)
    requires forall i :: 0 <= i < |es| ==> ClassOf(es[i]) != c
    ensures Only(es, c) == []
  {
    if es != [] { OnlyNone(es[..|es| - 1], c); }
  }

  // Each class has been delivered in the order in which it was accepted, and
  // what is not delivered yet is waiting in that order.
  ghost predicate InOrder(accepted: seq<Event>, taken: seq<Event>, waiting: seq<Event>) {
    forall c :: Only(accepted, c) == Only(taken, c) + Only(waiting, c)
  }

  lemma AcceptKeepsOrder(accepted: seq<Event>, taken: seq<Event>, waiting: seq<Event>, e: Event)
    requires InOrder(accepted, taken, waiting)
    ensures InOrder(accepted + [e], taken, waiting + [e])
  {
    forall c
      ensures Only(accepted + [e], c) == Only(taken, c) + Only(waiting + [e], c)
    {
      OnlyConcat(accepted, [e], c);
      OnlyConcat(waiting, [e], c);
    }
  }

  // Taking an event out of the middle keeps every class in order when no event
  // of its own class is before it.
  lemma TakeKeepsOrder(accepted: seq<Event>, taken: seq<Event>, waiting: seq<Event>, k: nat)
    requires InOrder(accepted, taken, waiting) && k < |waiting|
    requires forall i :: 0 <= i < k ==> ClassOf(waiting[i]) != ClassOf(waiting[k])
    ensures InOrder(accepted, taken + [waiting[k]], waiting[..k] + waiting[k + 1..])
  {
    hide Only;
    forall c
      ensures Only(accepted, c) == Only(taken + [waiting[k]], c) + Only(waiting[..k] + waiting[k + 1..], c)
    {
      OnlyConcat(taken, [waiting[k]], c);
      OnlyTake(waiting, k, c);
      assert Only(accepted, c) == Only(taken, c) + Only(waiting, c);
    }
  }

  lemma OnlyTake(waiting: seq<Event>, k: nat, c: Class)
    requires k < |waiting| && forall i :: 0 <= i < k ==> ClassOf(waiting[i]) != ClassOf(waiting[k])
    ensures Only(waiting, c) == Only([waiting[k]], c) + Only(waiting[..k] + waiting[k + 1..], c)
  {
    hide Only;
    var a, e, b := waiting[..k], [waiting[k]], waiting[k + 1..];
    assert waiting == a + (e + b);
    OnlyConcat(a, e + b, c);
    OnlyConcat(e, b, c);
    OnlyConcat(a, b, c);
    OnlyOne(waiting[k], c);
    if ClassOf(waiting[k]) == c {
      OnlyNone(a, c);
    }
  }

  // ---- Positions ----

  // (i + n) % cap, for at most one time round
  function Pos(i: nat, n: nat): (r: nat)
    requires i < CAP && n <= CAP
    ensures r < CAP && r == (i + n) % CAP
  {
    if i + n < CAP then i + n else i + n - CAP
  }

  // How many events wait between head and tail.
  function Waiting(head: nat, tail: nat): (n: nat)
    requires head < CAP && tail < CAP
    ensures n < CAP && Pos(head, n) == tail
  {
    if head <= tail then tail - head else tail + CAP - head
  }

  function Events(q: seq<Event>, head: nat, n: nat): (es: seq<Event>)
    requires |q| == CAP && head < CAP && n <= CAP
    ensures |es| == n && forall i {:trigger es[i]} :: 0 <= i < n ==> es[i] == q[Pos(head, i)]
  {
    seq(n, i requires 0 <= i < n => q[Pos(head, i)])
  }

  // While the m-th place is being filled from behind, those from the k-th on up
  // to it hold what their successors held, and the others what they held.
  ghost predicate Shifted(was: seq<Event>, q: seq<Event>, head: nat, n: nat, k: nat, m: nat) {
    && |was| == |q| == CAP && head < CAP && k <= m < n < CAP
    && (forall i :: 0 <= i < k ==> q[Pos(head, i)] == was[Pos(head, i)])
    && (forall i :: k <= i < m ==> q[Pos(head, i)] == was[Pos(head, i + 1)])
    && (forall i :: m <= i < n ==> q[Pos(head, i)] == was[Pos(head, i)])
  }

  lemma NothingShifted(q: seq<Event>, head: nat, n: nat, k: nat)
    requires |q| == CAP && head < CAP && k < n < CAP
    ensures Shifted(q, q, head, n, k, k)
  {
  }

  lemma ShiftOne(was: seq<Event>, q: seq<Event>, head: nat, n: nat, k: nat, m: nat)
    requires Shifted(was, q, head, n, k, m) && m + 1 < n
    ensures Shifted(was, q[Pos(head, m) := q[Pos(head, m + 1)]], head, n, k, m + 1)
  {
  }

  lemma ShiftedAll(was: seq<Event>, q: seq<Event>, head: nat, n: nat, k: nat)
    requires n > 0 && Shifted(was, q, head, n, k, n - 1)
    ensures Events(q, head, n - 1) == Events(was, head, n)[..k] + Events(was, head, n)[k + 1..]
  {
  }

  // One place further, and one back from the tail.
  lemma NextPos(head: nat, tail: nat, m: nat)
    requires head < CAP && tail < CAP && m < Waiting(head, tail)
    ensures Pos(Pos(head, m), 1) == Pos(head, m + 1)
    ensures Pos(head, m + 1) == tail <==> m + 1 == Waiting(head, tail)
    ensures Pos(head, m) != tail
    ensures Waiting(head, Pos(tail, CAP - 1)) == Waiting(head, tail) - 1
  {
  }

  class Ring {
    const q: array<Event>
    var head: nat
    var tail: nat
    ghost var accepted: seq<Event>
    ghost var taken: seq<Event>

    ghost predicate Shape()
      reads this
    {
      q.Length == CAP && head < CAP && tail < CAP
    }

    ghost function Contents(): seq<Event>
      reads this, q
      requires Shape()
    {
      Events(q[..], head, Waiting(head, tail))
    }

    ghost predicate Valid()
      reads this, q
    {
      Shape() && InOrder(accepted, taken, Contents())
    }

    constructor ()
      ensures Valid() && Contents() == [] && fresh(q) && accepted == taken == []
    {
      q := new Event[CAP](_ => Event(0, 0, 0));
      head, tail, accepted, taken := 0, 0, [], [];
    }

    // enqueue_event: an event is dropped when 127 are waiting.
    method Enqueue(e: Event)
      requires Valid()
      modifies q, this`tail, this`accepted
      ensures Valid()
      ensures if |old(Contents())| < CAP - 1 then Contents() == old(Contents()) + [e] && accepted == old(accepted) + [e]
              else Contents() == old(Contents()) && accepted == old(accepted)
    {
      hide InOrder;
      var nextTail := Pos(tail, 1);
      if nextTail == head {
        return;
      }
      AcceptKeepsOrder(accepted, taken, Contents(), e);
      ghost var before, n := Contents(), Waiting(head, tail);
      q[tail] := e;
      tail := nextTail;
      accepted := accepted + [e];
      assert Contents() == before + [e];
    }

    // remove_event_at: the events behind idx move up by one.
    method RemoveAt(idx: nat, ghost k: nat)
      requires Shape() && k < Waiting(head, tail) && idx == Pos(head, k)
      modifies q, this`tail
      ensures Shape() && Contents() == old(Contents()[..k] + Contents()[k + 1..])
    {
      ghost var n, was := Waiting(head, tail), q[..];
      var cur := idx;
      ghost var m := k;
      hide Shifted;
      NothingShifted(was, head, n, k);
      while cur != tail
        modifies q
        invariant k <= m < n && cur == Pos(head, m)
        invariant Shifted(was, q[..], head, n, k, m)
        decreases n - m
      {
        var next := Pos(cur, 1);
        NextPos(head, tail, m);
        if next == tail {
          break;
        }
        ShiftOne(was, q[..], head, n, k, m);
        q[cur] := q[next];
        cur := next;
        m := m + 1;
      }
      NextPos(head, tail, m);
      tail := Pos(tail, CAP - 1);
      ShiftedAll(was, q[..], head, n, k);
    }

    // virtio_input_get_event
    method GetEvent() returns (some: bool, e: Event)
      requires Valid()
      modifies this`head, this`taken
      ensures Valid() && some == (old(Contents()) != [])
      ensures some ==> old(Contents()) == [e] + Contents() && taken == old(taken) + [e]
      ensures !some ==> Contents() == old(Contents()) && taken == old(taken)
    {
      hide InOrder;
      if head == tail {
        return false, Event(0, 0, 0);
      }
      ghost var before := Contents();
      TakeKeepsOrder(accepted, taken, before, 0);
      e := q[head];
      head := Pos(head, 1);
      taken := taken + [e];
      assert Contents() == before[..0] + before[1..];
      return true, e;
    }

    // virtio_input_get_event_filtered: the first event the filter admits. Without
    // the pointer it can only be a key below 256, without the keyboard it never is
    // one; no event left waiting before it, or left when there is none, was wanted.
    method GetFiltered(pointer: bool, keyboard: bool) returns (some: bool, e: Event, ghost k: nat)
      requires Valid()
      modifies q, this`tail, this`taken
      ensures Valid() && k <= |old(Contents())|
      ensures some ==> k < |old(Contents())| && e == old(Contents())[k] && Admits(e, pointer, keyboard)
      ensures some ==> Contents() == old(Contents()[..k] + Contents()[k + 1..]) && taken == old(taken) + [e]
      ensures !some ==> k == |Contents()| && Contents() == old(Contents()) && taken == old(taken)
      ensures forall i :: 0 <= i < k ==> !Admits(old(Contents())[i], pointer, keyboard)
      ensures some ==> e.kind in {0, 1, 3}
      ensures some && !pointer ==> e.kind == 1 && e.code < 256
      ensures some && !keyboard ==> !(e.kind == 1 && e.code < 256)
      ensures keyboard ==> forall i :: 0 <= i < k ==> !(old(Contents())[i].kind == 1 && old(Contents())[i].code < 256)
      ensures pointer ==> forall i :: 0 <= i < k ==>
              old(Contents())[i].kind != 0 && old(Contents())[i].kind != 3
              && !(old(Contents())[i].kind == 1 && old(Contents())[i].code >= 256)
    {
      hide InOrder;
      ghost var es := Contents();
      k := 0;
      var idx := head;
      while idx != tail
        invariant k <= |es| && idx == Pos(head, k)
        invariant forall i :: 0 <= i < k ==> !Admits(es[i], pointer, keyboard)
        invariant keyboard ==> forall i :: 0 <= i < k ==> !(es[i].kind == 1 && es[i].code < 256)
        invariant pointer ==> forall i :: 0 <= i < k ==>
            es[i].kind != 0 && es[i].kind != 3 && !(es[i].kind == 1 && es[i].code >= 256)
        decreases |es| - k
      {
        var isKeyboard := q[idx].kind == 1 && q[idx].code < 256;
        var isPointer := q[idx].kind == 3 || (q[idx].kind == 1 && q[idx].code >= 256);
        var isSync := q[idx].kind == 0;
        var skip := (isKeyboard && !keyboard) || (isPointer && !pointer) || (isSync && !pointer)
          || (!isKeyboard && !isPointer && !isSync);
        if !skip {
          TakeKeepsOrder(accepted, taken, es, k);
          e := q[idx];
          RemoveAt(idx, k);
          taken := taken + [e];
          return true, e, k;
        }
        k := k + 1;
        idx := Pos(idx, 1);
      }
      return false, Event(0, 0, 0), k;
    }
  }
}
