/** The intrusive circular list: a sentinel and elements linked both ways, refining a sequence. */
module Queue {
  import opened Common

  class Elem<T> {
    var forw: Elem?<T>
    var back: Elem?<T>
    var data: T

    constructor (data: T)
      ensures this.data == data && forw == null && back == null
    {
      this.data := data;
      forw, back := null, null;
    }
  }

  class Que<T> {
    const head: Elem<T>
    ghost var elems: seq<Elem<T>>

    /** Position `i` going round: the sentinel stands before the first and behind the last element. */
    ghost function At(i: nat): Elem<T>
      requires i <= |elems| + 1
      reads this
    {
      if i == 0 || i == |elems| + 1 then head else elems[i - 1]
    }

    ghost function Nodes(): set<Elem<T>>
      reads this
    {
      (set e | e in elems) + {head}
    }

    ghost predicate Valid()
      reads this, Nodes()
    {
      && head !in elems
      && (forall i, j :: 0 <= i < j < |elems| ==> elems[i] != elems[j])
      && (forall i {:trigger At(i).forw} :: 0 <= i <= |elems| ==> At(i).forw == At(i + 1))
      && (forall i {:trigger At(i).back} :: 0 < i <= |elems| + 1 ==> At(i).back == At(i - 1))
    }

    constructor (unused: T)
      ensures Valid() && elems == [] && fresh(head)
    {
      var h := new Elem(unused);
      h.forw, h.back := h, h;
      head := h;
      elems := [];
    }

    /** Links `elem` in before the sentinel, that is, last. */
    method Insque(elem: Elem<T>)
      requires Valid() && elem !in Nodes()
      modifies this`elems, elem`forw, elem`back, Nodes()`forw, Nodes()`back
      ensures Valid() && elems == old(elems) + [elem]
    {
      ghost var n := |elems|;
      assert At(n + 1) == head && head.back == At(n) && At(n).forw == head;
      elem.forw := head;
      elem.back := head.back;
      head.back.forw := elem;
      head.back := elem;
      elems := elems + [elem];
      assert forall i :: 0 <= i <= n ==> At(i) == old(At(i));
      assert At(n + 1) == elem && At(n + 2) == head;
    }

    /** Unlinks `elem`, which is element number `i`. */
    method Remque(elem: Elem<T>, ghost i: nat)
      requires Valid() && i < |elems| && elems[i] == elem
      modifies this`elems, Nodes()`forw, Nodes()`back
      ensures Valid() && elems == old(elems)[..i] + old(elems)[i + 1..]
    {
      assert At(i + 1) == elem && elem.forw == At(i + 2) && elem.back == At(i);
      elem.forw.back := elem.back;
      elem.back.forw := elem.forw;
      elems := elems[..i] + elems[i + 1..];
      forall j | 0 <= j <= |elems|
        ensures At(j).forw == At(j + 1) && At(j + 1).back == At(j)
      {
        assert At(j) == old(At(if j <= i then j else j + 1));
        assert At(j + 1) == old(At(if j < i then j + 1 else j + 2));
      }
    }

    /** The element behind `entry`, or the first one for null; null at the end. */
    method GetNext(entry: Elem?<T>, ghost i: int) returns (next: Elem?<T>)
      requires Valid()
      requires if entry == null then i == -1 else 0 <= i < |elems| && elems[i] == entry
      ensures next == if i + 1 < |elems| then elems[i + 1] else null
    {
      var ptr := if entry == null then head else entry;
      assert ptr == At(i + 1) && ptr.forw == At(i + 2);
      ptr := ptr.forw;
      next := if ptr == head then null else ptr;
    }

    method QueLen() returns (n: nat)
      requires Valid()
      ensures n == |elems|
    {
      n := 0;
      assert At(0).forw == At(1);
      var ptr := head.forw;
      while ptr != head
        invariant n <= |elems| && ptr == At(n + 1)
        decreases |elems| - n
      {
        n := n + 1;
        assert At(n).forw == At(n + 1);
        ptr := ptr.forw;
      }
    }
  }

  /** What elements hold, first to last. */
  ghost function DataOf<T>(nodes: seq<Elem<T>>): (ds: seq<T>)
    reads (set n | n in nodes)`data
    ensures |ds| == |nodes|
  {
    if nodes == [] then [] else [nodes[0].data] + DataOf(nodes[1..])
  }

  lemma {:induction false} DataAt<T>(nodes: seq<Elem<T>>, i: nat)
    requires i < |nodes|
    ensures DataOf(nodes)[i] == nodes[i].data
  {
    if i > 0 {
      DataAt(nodes[1..], i - 1);
    }
  }

  lemma {:induction false} DataOfConcat<T>(a: seq<Elem<T>>, b: seq<Elem<T>>)
    ensures DataOf(a + b) == DataOf(a) + DataOf(b)
  {
    if a == [] {
      assert a + b == b;
    } else {
      assert (a + b)[1..] == a[1..] + b;
      DataOfConcat(a[1..], b);
    }
  }

  lemma {:induction false} DataWithout<T>(nodes: seq<Elem<T>>, i: nat)
    requires i < |nodes|
    ensures DataOf(nodes[..i] + nodes[i + 1..]) == DataOf(nodes)[..i] + DataOf(nodes)[i + 1..]
  {
    var rest := nodes[..i] + nodes[i + 1..];
    if i == 0 {
      assert rest == nodes[1..];
    } else {
      assert rest[0] == nodes[0] && rest[1..] == nodes[1..][..i - 1] + nodes[1..][i..];
      DataWithout(nodes[1..], i - 1);
    }
  }

  /** Links in a new last element that holds `d`. */
  method Append<T>(q: Que<T>, d: T)
    requires q.Valid()
    modifies q`elems, q.Nodes()`forw, q.Nodes()`back
    ensures q.Valid() && fresh(q.Nodes() - old(q.Nodes()))
    ensures DataOf(q.elems) == old(DataOf(q.elems)) + [d]
  {
    ghost var was := q.elems;
    var elem := new Elem(d);
    q.Insque(elem);
    DataOfConcat(was, [elem]);
    assert [elem][1..] == [];
  }

  /** Unlinks element number `i`. */
  method Unlink<T>(q: Que<T>, elem: Elem<T>, ghost i: nat)
    requires q.Valid() && i < |q.elems| && q.elems[i] == elem
    modifies q`elems, q.Nodes()`forw, q.Nodes()`back
    ensures q.Valid() && q.elems == old(q.elems)[..i] + old(q.elems)[i + 1..]
    ensures DataOf(q.elems) == old(DataOf(q.elems))[..i] + old(DataOf(q.elems))[i + 1..]
  {
    DataWithout(q.elems, i);
    q.Remque(elem, i);
  }

  /** The event queue of a device, and its event descriptor: a list used first in, first out, and a counter. */
  class EventQueue<E> {
    const list: Que<E>
    var evtFd: nat

    ghost predicate Valid()
      reads this, list, list.Nodes()
    {
      list.Valid()
    }

    /** The events queued, oldest first. */
    ghost function Events(): seq<E>
      reads this, list, list.Nodes()
    {
      DataOf(list.elems)
    }

    constructor (unused: E)
      ensures Valid() && Events() == [] && evtFd == 0
    {
      list := new Que(unused);
      evtFd := 0;
    }

    method EvtAdd(e: E)
      requires Valid()
      modifies this`evtFd, list`elems, list.Nodes()`forw, list.Nodes()`back
      ensures Valid() && fresh(list.Nodes() - old(list.Nodes()))
      ensures Events() == old(Events()) + [e] && evtFd == old(evtFd) + 1
    {
      evtFd := evtFd + 1;
      Append(list, e);
    }

    /** Takes the oldest event; reading the event descriptor clears all of it. */
    method EvtGet() returns (e: Option<E>)
      requires Valid()
      modifies this`evtFd, list`elems, list.Nodes()`forw, list.Nodes()`back
      ensures Valid() && list.Nodes() <= old(list.Nodes())
      ensures if old(Events()) == [] then e == None && Events() == [] && evtFd == old(evtFd)
              else e == Some(old(Events())[0]) && Events() == old(Events())[1..] && evtFd == 0
    {
      var ptr := list.GetNext(null, -1);
      if ptr == null {
        return None;
      }
      DataAt(list.elems, 0);
      e := Some(ptr.data);
      evtFd := 0;
      Unlink(list, ptr, 0);
    }
  }
}
