/** How a byte stream is cut into command lines. */
module Framing {
  import opened Common

  /** Complete lines, and the bytes behind the last of them. */
  datatype Framed = Framed(lines: seq<seq<Byte>>, rest: seq<Byte>)

  /** Index of the first carriage return, `|s|` when there is none. */
  function FirstCR(s: seq<Byte>): (i: nat)
    ensures i <= |s| && CR !in s[..i]
    ensures i < |s| <==> CR in s
    ensures i < |s| ==> s[i] == CR
  {
    if s == [] || s[0] == CR then 0 else 1 + FirstCR(s[1..])
  }

  /** What is left when the first line is taken: its CR goes, and so does the byte after it, if there is one. */
  function AfterLine(s: seq<Byte>): seq<Byte>
    requires CR in s
  {
    s[Min(FirstCR(s) + 2, |s|)..]
  }

  function Frame(s: seq<Byte>): Framed
    decreases |s|
  {
    if CR !in s then Framed([], s)
    else
      var f := Frame(AfterLine(s));
      Framed([s[..FirstCR(s)]] + f.lines, f.rest)
  }

  /** Framing goes on with `more` behind what `f` left over. */
  function Resume(f: Framed, more: seq<Byte>): Framed {
    var g := Frame(f.rest + more);
    Framed(f.lines + g.lines, g.rest)
  }

  /** Every CR that ends a line has the byte behind it in `s` as well. */
  predicate FollowersPresent(s: seq<Byte>)
    decreases |s|
  {
    CR in s ==> FirstCR(s) + 1 < |s| && FollowersPresent(AfterLine(s))
  }

  lemma FirstCRIn(s: seq<Byte>, i: nat)
    requires i < |s| && s[i] == CR && CR !in s[..i]
    ensures FirstCR(s) == i
  {
  }

  lemma FirstCROfConcat(a: seq<Byte>, b: seq<Byte>)
    requires CR in a
    ensures CR in a + b && FirstCR(a + b) == FirstCR(a) && (a + b)[..FirstCR(a)] == a[..FirstCR(a)]
  {
    var i := FirstCR(a);
    assert (a + b)[..i] == a[..i];
    FirstCRIn(a + b, i);
  }

  lemma {:induction false} RestHasNoCR(s: seq<Byte>)
    ensures CR !in Frame(s).rest
    decreases |s|
  {
    if CR in s {
      RestHasNoCR(AfterLine(s));
    }
  }

  /** Cutting the stream between chunks does not matter, as long as no CR is parted from its follower. */
  lemma {:induction false} ResumedFraming(a: seq<Byte>, b: seq<Byte>)
    requires FollowersPresent(a)
    ensures Frame(a + b) == Resume(Frame(a), b)
    decreases |a|
  {
    if CR !in a {
      assert [] + Frame(a + b).lines == Frame(a + b).lines;
    } else {
      var line, t := [a[..FirstCR(a)]], AfterLine(a);
      FirstCROfConcat(a, b);
      assert AfterLine(a + b) == t + b;
      ResumedFraming(t, b);
      Associative(line, Frame(t).lines, Frame(Frame(t).rest + b).lines);
    }
  }

  lemma Associative<T>(a: seq<T>, b: seq<T>, c: seq<T>)
    ensures (a + b) + c == a + (b + c)
  {
  }

  /** A CR parted from its follower swallows the first byte of the next chunk when the two come together. */
  lemma {:induction false} PartedFollower(a: seq<Byte>, x: Byte)
    requires !FollowersPresent(a)
    ensures Frame(a + [x]) == Frame(a) && Frame(a).rest == []
    decreases |a|
  {
    FirstCROfConcat(a, [x]);
    if FirstCR(a) + 1 == |a| {
      assert AfterLine(a) == [] && AfterLine(a + [x]) == [];
    } else {
      assert AfterLine(a + [x]) == AfterLine(a) + [x];
      PartedFollower(AfterLine(a), x);
    }
  }

  /** Chunk independence holds after `a` exactly when every line end in `a` has its follower. */
  lemma ChunkIndependence(a: seq<Byte>)
    ensures (forall b :: Frame(a + b) == Resume(Frame(a), b)) <==> FollowersPresent(a)
  {
    if FollowersPresent(a) {
      forall b ensures Frame(a + b) == Resume(Frame(a), b) {
        ResumedFraming(a, b);
      }
    } else {
      PartedFollower(a, LF);
      assert Resume(Frame(a), [LF]).rest == [LF] by {
        assert [] + [LF] == [LF];
      }
      assert Frame(a + [LF]) != Resume(Frame(a), [LF]);
    }
  }

  // ---- Any number of chunks ----

  function Concat(chunks: seq<seq<Byte>>): seq<Byte> {
    if chunks == [] then [] else chunks[0] + Concat(chunks[1..])
  }

  /** Frame each chunk behind what the one before it left over. */
  function FrameChunks(f: Framed, chunks: seq<seq<Byte>>): Framed
    decreases |chunks|
  {
    if chunks == [] then f else FrameChunks(Resume(f, chunks[0]), chunks[1..])
  }

  predicate NoPartedFollower(rest: seq<Byte>, chunks: seq<seq<Byte>>)
    decreases |chunks|
  {
    chunks != [] ==>
      && FollowersPresent(rest + chunks[0])
      && NoPartedFollower(Frame(rest + chunks[0]).rest, chunks[1..])
  }

  lemma {:induction false} ChunkingDoesNotMatter(f: Framed, chunks: seq<seq<Byte>>)
    requires CR !in f.rest && NoPartedFollower(f.rest, chunks)
    ensures FrameChunks(f, chunks) == Resume(f, Concat(chunks))
    decreases |chunks|
  {
    if chunks == [] {
      assert f.rest + [] == f.rest;
    } else {
      var here, later := f.rest + chunks[0], Concat(chunks[1..]);
      RestHasNoCR(here);
      ChunkingDoesNotMatter(Resume(f, chunks[0]), chunks[1..]);
      Associative(f.rest, chunks[0], later);
      ResumedFraming(here, later);
      Associative(f.lines, Frame(here).lines, Frame(Frame(here).rest + later).lines);
    }
  }
}
