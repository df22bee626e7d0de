/** How the numbers of `MainLoop` stand for the linked list and the poll table of the classes. */
module MainLoopLists {
  import opened Common
  import opened RoundRobin
  import opened PollRuns
  import opened PollTable
  import opened Queue
  import M = MainLoop

  // ---- The device list ----

  /** Number by number the devices of `ws` are the elements of a linked list. */
  ghost predicate Lists<T>(ws: seq<M.Device>, elems: seq<Elem<T>>, idOf: Elem<T> -> nat) {
    |ws| == |elems| && forall i :: 0 <= i < |ws| ==> ws[i].id == idOf(elems[i])
  }

  /** No two elements of a list have the same number. */
  ghost predicate Tells<T>(elems: seq<Elem<T>>, idOf: Elem<T> -> nat, e: Elem<T>) {
    forall i :: 0 <= i < |elems| && idOf(elems[i]) == idOf(e) ==> elems[i] == e
  }

  /** A device is linked exactly when its element is on the list. */
  lemma LinkedIsOnList<T>(ws: seq<M.Device>, elems: seq<Elem<T>>, idOf: Elem<T> -> nat, e: Elem<T>)
    requires Lists(ws, elems, idOf) && Tells(elems, idOf, e)
    ensures M.Linked(ws, idOf(e)) <==> e in elems
  {
    if e in elems {
      var i :| 0 <= i < |elems| && elems[i] == e;
      assert ws[i].id == idOf(e);
    }
  }

  lemma {:induction false} WithoutNone(ws: seq<M.Device>, gone: set<nat>)
    requires forall i :: 0 <= i < |ws| ==> ws[i].id !in gone
    ensures M.Without(ws, gone) == ws
  {
    if ws != [] {
      WithoutNone(ws[1..], gone);
    }
  }

  lemma {:induction false} WithoutOne(ws: seq<M.Device>, nextId: nat, i: nat)
    requires M.Numbered(ws, nextId) && i < |ws|
    ensures M.Without(ws, {ws[i].id}) == ws[..i] + ws[i + 1..]
  {
    if i == 0 {
      WithoutNone(ws[1..], {ws[0].id});
      assert ws[..0] + ws[1..] == ws[1..];
    } else {
      WithoutOne(ws[1..], nextId, i - 1);
      assert ws[..i] + ws[i + 1..] == [ws[0]] + (ws[1..][..i - 1] + ws[1..][i..]);
    }
  }

  /** Unlinking several devices is unlinking them one after the other. */
  lemma {:induction false} WithoutBoth(ws: seq<M.Device>, a: set<nat>, b: set<nat>)
    ensures M.Without(M.Without(ws, a), b) == M.Without(ws, a + b)
  {
    if ws != [] {
      WithoutBoth(ws[1..], a, b);
      var rest := M.Without(ws[1..], a);
      if ws[0].id in a {
        assert M.Without(ws, a) == [] + rest == rest;
      } else {
        assert ([ws[0]] + rest)[1..] == rest;
      }
    }
  }

  /** What `remque` makes of the list is what unlinking makes of the numbers. */
  lemma RemqueIsWithout<T>(ws: seq<M.Device>, nextId: nat, elems: seq<Elem<T>>, idOf: Elem<T> -> nat, i: nat)
    requires Lists(ws, elems, idOf) && M.Numbered(ws, nextId) && i < |ws|
    ensures Lists(M.Without(ws, {ws[i].id}), elems[..i] + elems[i + 1..], idOf)
  {
    WithoutOne(ws, nextId, i);
  }

  /** And `insque` links behind all others. */
  lemma InsqueAppends<T>(ws: seq<M.Device>, elems: seq<Elem<T>>, idOf: Elem<T> -> nat, d: M.Device, e: Elem<T>)
    requires Lists(ws, elems, idOf) && d.id == idOf(e)
    ensures Lists(ws + [d], elems + [e], idOf)
  {
  }

  // ---- The poll table ----

  /** Number by number the devices of `ws` have as many descriptors open as those of the poll table. */
  ghost predicate SameFds(ws: seq<M.Device>, devs: seq<PollDev>)
    reads (set d | d in devs)`evtFd, (set d | d in devs)`timerFd
    reads (set d | d in devs)`tableTimerFd, (set d | d in devs)`devFd
  {
    |ws| == |devs| && forall i :: 0 <= i < |ws| ==> ws[i].openFds == Shape(devs[i]).Count()
  }

  /** `slots` are the numbers of the owners of `es`. */
  ghost predicate AreOwners(ws: seq<M.Device>, devs: seq<PollDev>, slots: seq<nat>, es: seq<Entry>)
    requires |ws| == |devs|
  {
    && |slots| == |es|
    && (forall p :: 0 <= p < |es| ==> es[p].dev in devs)
    && forall p, i :: 0 <= p < |es| && 0 <= i < |devs| && es[p].dev == devs[i] ==> slots[p] == ws[i].id
  }

  lemma DeviceOwnsItsEntries(es: seq<Entry>, d: PollDev)
    ensures |WithDevice(es, d)| == |es| + Shape(d).Count() && es <= WithDevice(es, d)
    ensures forall p :: |es| <= p < |WithDevice(es, d)| ==> WithDevice(es, d)[p].dev == d
  {
  }

  /** The slots that `MainLoop` wants are the owners of the entries that the classes want. */
  lemma {:induction false} WantedAreOwners(ws: seq<M.Device>, devs: seq<PollDev>)
    requires SameFds(ws, devs) && Distinct(devs)
    ensures AreOwners(ws, devs, M.WantedSlots(ws), WantAll(devs))
    decreases |devs|
  {
    if devs != [] {
      var n := |devs| - 1;
      var es, slots, own := WantAll(devs[..n]), M.WantedSlots(ws[..n]), M.Repeat(ws[n].id, ws[n].openFds);
      WantedAreOwners(ws[..n], devs[..n]);
      assert ws == ws[..n] + [ws[n]];
      M.WantedOfConcat(ws[..n], [ws[n]]);
      assert [ws[n]][1..] == [] && M.WantedSlots([ws[n]]) == own + [] == own;
      DeviceOwnsItsEntries(es, devs[n]);
      OwnersOfMore(ws, devs, slots, es, own, WantAll(devs));
    }
  }

  lemma OwnersOfMore(ws: seq<M.Device>, devs: seq<PollDev>, slots: seq<nat>, es: seq<Entry>,
                     own: seq<nat>, all: seq<Entry>)
    requires |ws| == |devs| > 0 && Distinct(devs)
    requires var n := |devs| - 1;
             && AreOwners(ws[..n], devs[..n], slots, es) && es <= all && |all| == |es| + |own|
             && (forall p :: 0 <= p < |own| ==> own[p] == ws[n].id)
             && forall p :: |es| <= p < |all| ==> all[p].dev == devs[n]
    ensures AreOwners(ws, devs, slots + own, all)
  {
    var n := |devs| - 1;
    forall p, i | 0 <= p < |all| && 0 <= i < |devs| && all[p].dev == devs[i]
      ensures (slots + own)[p] == ws[i].id
    {
      if p < |es| {
        assert all[p] == es[p] && es[p].dev in devs[..n];
        var j :| 0 <= j < n && devs[..n][j] == es[p].dev;
        assert i == j && devs[..n][i] == es[p].dev;
      }
    }
    forall p | 0 <= p < |all| ensures all[p].dev in devs {
      if p < |es| {
        assert all[p] == es[p];
      }
    }
  }

  /** After a rebuild the slots of `MainLoop` are the numbers of the owners of the entries in the table. */
  lemma RebuildsAgree(w: M.World, devs: seq<PollDev>)
    requires w.changed && SameFds(w.devs, devs) && Distinct(devs)
    ensures AreOwners(w.devs, devs, M.InitPollFds(w).slots, Fitting(WantAll(devs)))
  {
    WantedAreOwners(w.devs, devs);
  }
}
