/** Index arithmetic of a ring of `size` cells, one of which always stays empty. */
module RingIndex {
  import opened Common

  /** The cell `n` stands for, when `n` has passed the end of the buffer at most once. */
  function Wrap(n: nat, size: nat): int {
    if n >= size then n - size else n
  }

  /** Cells from `from` up to, not including, `to`. */
  function Used(to: nat, from: nat, size: nat): int {
    if to >= from then to - from else to - from + size
  }

  function Free(to: nat, from: nat, size: nat): int {
    size - 1 - Used(to, from, size)
  }

  /** The `n` cells met going round from `start`. */
  function Cells(buf: seq<Byte>, start: nat, n: nat): (s: seq<Byte>)
    requires start < |buf| && n <= |buf|
    ensures |s| == n
    decreases n
  {
    if n == 0 then [] else [buf[start]] + Cells(buf, Wrap(start + 1, |buf|), n - 1)
  }

  lemma {:induction false} CellsAt(buf: seq<Byte>, start: nat, n: nat)
    requires start < |buf| && n <= |buf|
    ensures forall i :: 0 <= i < n ==> Cells(buf, start, n)[i] == buf[Wrap(start + i, |buf|)]
    decreases n
  {
    if n > 0 {
      CellsAt(buf, Wrap(start + 1, |buf|), n - 1);
    }
  }

  /** The bytes held between the two offsets, oldest first. */
  function Held(b: seq<Byte>, to: nat, from: nat): (s: seq<Byte>)
    requires to < |b| && from < |b|
  {
    Cells(b, from, Used(to, from, |b|))
  }

  /** What lies in the free cells, in the order in which they will be filled. */
  function Vacant(b: seq<Byte>, to: nat, from: nat): (s: seq<Byte>)
    requires to < |b| && from < |b|
  {
    Cells(b, to, Free(to, from, |b|))
  }

  /** Writing `data` into the free cells and then moving `to` past them appends `data`. */
  lemma Appended(b: seq<Byte>, b': seq<Byte>, to: nat, from: nat, data: seq<Byte>)
    requires to < |b| == |b'| && from < |b|
    requires |data| <= |Vacant(b, to, from)|
    requires forall p :: 0 <= p < |b| ==>
      b'[p] == if Used(p, to, |b|) < |data| then data[Used(p, to, |b|)] else b[p]
    ensures Held(b', Wrap(to + |data|, |b|), from) == Held(b, to, from) + data
    ensures Vacant(b', Wrap(to + |data|, |b|), from) == Vacant(b, to, from)[|data|..]
  {
    var to' := Wrap(to + |data|, |b|);
    CellsAt(b', from, Used(to', from, |b|));
    CellsAt(b', to', Free(to', from, |b|));
    CellsAt(b, from, Used(to, from, |b|));
    CellsAt(b, to, Free(to, from, |b|));
  }

  /** Moving `from` past the `n` oldest bytes removes them, and frees their cells at the far end. */
  lemma Removed(b: seq<Byte>, to: nat, from: nat, n: nat)
    requires to < |b| && from < |b| && n <= |Held(b, to, from)|
    ensures Held(b, to, Wrap(from + n, |b|)) == Held(b, to, from)[n..]
    ensures |Vacant(b, to, Wrap(from + n, |b|))| == |Vacant(b, to, from)| + n
    ensures Vacant(b, to, from) <= Vacant(b, to, Wrap(from + n, |b|))
  {
    var from' := Wrap(from + n, |b|);
    CellsAt(b, from', Used(to, from', |b|));
    CellsAt(b, to, Free(to, from', |b|));
    CellsAt(b, from, Used(to, from, |b|));
    CellsAt(b, to, Free(to, from, |b|));
  }

  /** `Removed`, with the bytes taken out copied to the front of `out`. */
  lemma Taken(b: seq<Byte>, to: nat, from: nat, out: seq<Byte>, out': seq<Byte>, n: nat)
    requires to < |b| && from < |b| && n <= |Held(b, to, from)|
    requires n <= |out| == |out'|
    requires forall i :: 0 <= i < |out| ==> out'[i] == if i < n then b[Wrap(from + i, |b|)] else out[i]
    ensures out' == Held(b, to, from)[..n] + out[n..]
    ensures Held(b, to, Wrap(from + n, |b|)) == Held(b, to, from)[n..]
    ensures |Vacant(b, to, Wrap(from + n, |b|))| == |Vacant(b, to, from)| + n
    ensures Vacant(b, to, from) <= Vacant(b, to, Wrap(from + n, |b|))
  {
    CellsAt(b, from, Used(to, from, |b|));
    Removed(b, to, from, n);
  }
}

/** The ring buffer of rnglib, refining a bounded FIFO of bytes. */
module RingBuffer {
  import opened Common
  import opened RingIndex

  method MemCpy(dst: array<Byte>, d: nat, src: array<Byte>, s: nat, n: nat)
    requires dst != src
    requires d + n <= dst.Length && s + n <= src.Length
    modifies dst
    ensures forall i :: 0 <= i < dst.Length ==>
      dst[i] == if d <= i < d + n then src[s + i - d] else old(dst[i])
  {
    forall i | 0 <= i < n {
      dst[d + i] := src[s + i];
    }
  }

  class Ring {
    var pToBuf: nat
    var pFromBuf: nat
    const bufSize: nat
    const buf: array<Byte>

    ghost predicate Valid()
      reads this
    {
      buf.Length == bufSize && pToBuf < bufSize && pFromBuf < bufSize
    }

    /** The bytes held, oldest first. */
    ghost function Contents(): seq<Byte>
      requires Valid()
      reads this, buf
    {
      Held(buf[..], pToBuf, pFromBuf)
    }

    /** What lies in the free cells, in the order in which they will be filled. */
    ghost function Ahead(): seq<Byte>
      requires Valid()
      reads this, buf
    {
      Vacant(buf[..], pToBuf, pFromBuf)
    }

    constructor (nbytes: nat)
      ensures Valid() && fresh(buf)
      ensures Contents() == [] && |Ahead()| == nbytes && bufSize == nbytes + 1
    {
      bufSize := nbytes + 1;
      buf := new Byte[nbytes + 1];
      pToBuf, pFromBuf := 0, 0;
    }

    method Flush()
      requires Valid()
      modifies this
      ensures Valid() && Contents() == [] && |Ahead()| == bufSize - 1
    {
      pToBuf := 0;
      pFromBuf := 0;
    }

    method BufGet(buffer: array<Byte>, maxbytes: nat) returns (bytesgot: nat)
      requires Valid() && buffer != buf
      // the caller's buffer has to hold only what is really copied
      requires Min(maxbytes, |Contents()|) <= buffer.Length
      modifies this`pFromBuf, buffer
      ensures Valid()
      ensures bytesgot == Min(maxbytes, |old(Contents())|)
      ensures buffer[..] == old(Contents())[..bytesgot] + old(buffer[..])[bytesgot..]
      ensures Contents() == old(Contents())[bytesgot..]
      ensures old(Ahead()) <= Ahead() && |Ahead()| == |old(Ahead())| + bytesgot
      ensures pFromBuf == Wrap(old(pFromBuf) + bytesgot, bufSize)
    {
      var to := pToBuf;
      if to >= pFromBuf {
        bytesgot := Min(maxbytes, to - pFromBuf);
        MemCpy(buffer, 0, buf, pFromBuf, bytesgot);
        Taken(buf[..], to, pFromBuf, old(buffer[..]), buffer[..], bytesgot);
        pFromBuf := pFromBuf + bytesgot;
      } else {
        bytesgot := GetUpToEnd(buffer, maxbytes, to);
      }
    }

    /** The second branch of `BufGet`: read to the end of the buffer, then wrap if that was reached. */
    method GetUpToEnd(buffer: array<Byte>, maxbytes: nat, to: nat) returns (bytesgot: nat)
      requires Valid() && buffer != buf
      requires Min(maxbytes, |Contents()|) <= buffer.Length
      requires to == pToBuf < pFromBuf
      modifies this`pFromBuf, buffer
      ensures Valid()
      ensures bytesgot == Min(maxbytes, |old(Contents())|)
      ensures buffer[..] == old(Contents())[..bytesgot] + old(buffer[..])[bytesgot..]
      ensures Contents() == old(Contents())[bytesgot..]
      ensures old(Ahead()) <= Ahead() && |Ahead()| == |old(Ahead())| + bytesgot
      ensures pFromBuf == Wrap(old(pFromBuf) + bytesgot, bufSize)
    {
      bytesgot := Min(maxbytes, bufSize - pFromBuf);
      MemCpy(buffer, 0, buf, pFromBuf, bytesgot);
      var tmp := pFromBuf + bytesgot;
      if tmp == bufSize {
        var bytes2 := Min(maxbytes - bytesgot, to);
        MemCpy(buffer, bytesgot, buf, 0, bytes2);
        Taken(buf[..], to, pFromBuf, old(buffer[..]), buffer[..], bytesgot + bytes2);
        pFromBuf := bytes2;
        bytesgot := bytesgot + bytes2;
      } else {
        Taken(buf[..], to, pFromBuf, old(buffer[..]), buffer[..], bytesgot);
        pFromBuf := tmp;
      }
    }

    method BufPut(buffer: array<Byte>, nbytes: nat) returns (bytesput: nat)
      requires Valid() && buffer != buf && nbytes <= buffer.Length
      modifies this`pToBuf, buf
      ensures Valid()
      ensures bytesput == Min(nbytes, |old(Ahead())|)
      ensures Contents() == old(Contents()) + buffer[..bytesput]
      ensures Ahead() == old(Ahead())[bytesput..]
      ensures pToBuf == Wrap(old(pToBuf) + bytesput, bufSize)
    {
      var from := pFromBuf;
      if from > pToBuf {
        bytesput := Min(nbytes, from - pToBuf - 1);
        MemCpy(buf, pToBuf, buffer, 0, bytesput);
        Appended(old(buf[..]), buf[..], pToBuf, from, buffer[..bytesput]);
        pToBuf := pToBuf + bytesput;
      } else if from == 0 {
        bytesput := Min(nbytes, bufSize - pToBuf - 1);
        MemCpy(buf, pToBuf, buffer, 0, bytesput);
        Appended(old(buf[..]), buf[..], pToBuf, from, buffer[..bytesput]);
        pToBuf := pToBuf + bytesput;
      } else {
        bytesput := PutUpToEnd(buffer, nbytes, from);
      }
    }

    /** The last branch of `BufPut`: fill to the end of the buffer, then wrap if bytes are left. */
    method PutUpToEnd(buffer: array<Byte>, nbytes: nat, from: nat) returns (bytesput: nat)
      requires Valid() && buffer != buf && nbytes <= buffer.Length
      requires 0 < from == pFromBuf <= pToBuf
      modifies this`pToBuf, buf
      ensures Valid()
      ensures bytesput == Min(nbytes, |old(Ahead())|)
      ensures Contents() == old(Contents()) + buffer[..bytesput]
      ensures Ahead() == old(Ahead())[bytesput..]
      ensures pToBuf == Wrap(old(pToBuf) + bytesput, bufSize)
    {
      bytesput := Min(nbytes, bufSize - pToBuf);
      MemCpy(buf, pToBuf, buffer, 0, bytesput);
      var tmp := pToBuf + bytesput;
      if tmp == bufSize {
        var bytes2 := Min(nbytes - bytesput, from - 1);
        MemCpy(buf, 0, buffer, bytesput, bytes2);
        Appended(old(buf[..]), buf[..], pToBuf, from, buffer[..bytesput + bytes2]);
        pToBuf := bytes2;
        bytesput := bytesput + bytes2;
      } else {
        Appended(old(buf[..]), buf[..], pToBuf, from, buffer[..bytesput]);
        pToBuf := tmp;
      }
    }

    method IsEmpty() returns (r: bool)
      requires Valid()
      ensures r <==> Contents() == []
    {
      r := pToBuf == pFromBuf;
    }

    method IsFull() returns (r: bool)
      requires Valid()
      ensures r <==> |Contents()| == bufSize - 1
    {
      var n := pToBuf - pFromBuf + 1;
      r := n == 0 || n == bufSize;
    }

    method FreeBytes() returns (n: int)
      requires Valid()
      ensures n == |Ahead()| && n + |Contents()| == bufSize - 1
    {
      n := pFromBuf - pToBuf - 1;
      if n < 0 {
        n := n + bufSize;
      }
    }

    method NBytes() returns (n: int)
      requires Valid()
      ensures n == |Contents()| && n < bufSize
    {
      n := pToBuf - pFromBuf;
      if n < 0 {
        n := n + bufSize;
      }
    }

    method PutAhead(byte: Byte, offset: nat)
      requires Valid() && offset < |Ahead()|
      modifies buf
      ensures Contents() == old(Contents())
      ensures Ahead() == old(Ahead())[offset := byte]
    {
      var n := pToBuf + offset;
      if n >= bufSize {
        n := n - bufSize;
      }
      CellsAt(buf[..], pFromBuf, |Contents()|);
      CellsAt(buf[..], pToBuf, |Ahead()|);
      buf[n] := byte;
      CellsAt(buf[..], pFromBuf, |Contents()|);
      CellsAt(buf[..], pToBuf, |Ahead()|);
    }

    method MoveAhead(n: nat)
      requires Valid() && n <= |Ahead()|
      modifies this`pToBuf
      ensures Valid()
      ensures Contents() == old(Contents()) + old(Ahead())[..n]
      ensures Ahead() == old(Ahead())[n..]
      ensures pToBuf == Wrap(old(pToBuf) + n, bufSize)
    {
      var m := n + pToBuf;
      if m >= bufSize {
        m := m - bufSize;
      }
      CellsAt(buf[..], pToBuf, |Ahead()|);
      Appended(buf[..], buf[..], pToBuf, pFromBuf, Ahead()[..n]);
      pToBuf := m;
    }

    /** Macro RNG_ELEM_GET: `BufGet` of one byte. */
    method ElemGet() returns (got: nat, ch: Byte)
      requires Valid()
      modifies this`pFromBuf
      ensures Valid()
      ensures got == Min(1, |old(Contents())|)
      ensures got == 1 ==> ch == old(Contents())[0]
      ensures Contents() == old(Contents())[got..]
      ensures pFromBuf == Wrap(old(pFromBuf) + got, bufSize)
    {
      var fromP := pFromBuf;
      if pToBuf == fromP {
        return 0, NUL;
      }
      ch := buf[fromP];
      fromP := fromP + 1;
      Removed(buf[..], pToBuf, pFromBuf, 1);
      pFromBuf := if fromP == bufSize then 0 else fromP;
      got := 1;
    }

    /** Macro RNG_ELEM_PUT: `BufPut` of one byte. */
    method ElemPut(ch: Byte) returns (put: nat)
      requires Valid()
      modifies this`pToBuf, buf
      ensures Valid()
      ensures put == Min(1, |old(Ahead())|)
      ensures Contents() == old(Contents()) + [ch][..put]
      ensures Ahead() == old(Ahead())[put..]
      ensures pToBuf == Wrap(old(pToBuf) + put, bufSize)
    {
      var toP := pToBuf;
      if toP == pFromBuf - 1 {
        put := 0;
      } else if toP == bufSize - 1 {
        if pFromBuf == 0 {
          put := 0;
        } else {
          buf[toP] := ch;
          pToBuf := 0;
          put := 1;
        }
      } else {
        buf[toP] := ch;
        pToBuf := pToBuf + 1;
        put := 1;
      }
      Appended(old(buf[..]), buf[..], toP, pFromBuf, [ch][..put]);
    }

    method Search(chr: Byte) returns (retStat: int, retPos: nat)
      requires Valid()
      ensures retStat == 0 || retStat == -1
      ensures retStat == 0 <==> chr in Contents()
      ensures retStat == 0 ==> 0 < retPos <= |Contents()| && Contents()[retPos - 1] == chr
                               && chr !in Contents()[..retPos - 1]
      ensures retStat == -1 ==> retPos == 0
    {
      CellsAt(buf[..], pFromBuf, |Contents()|);
      var total := NBytes();
      var nChars := total;
      retStat, retPos := -1, 0;
      var bufPtr := pFromBuf;
      while nChars > 0
        invariant 0 <= nChars <= total
        invariant 0 <= bufPtr <= bufSize
        invariant Wrap(bufPtr, bufSize) == Wrap(pFromBuf + (total - nChars), bufSize)
        invariant retStat == -1 && retPos == 0
        invariant chr !in Contents()[..total - nChars]
      {
        if bufPtr >= bufSize {
          bufPtr := 0;
        }
        assert buf[bufPtr] == Contents()[total - nChars];
        if buf[bufPtr] == chr {
          retStat := 0;
          var now := NBytes();
          retPos := now - nChars + 1;
          break;
        }
        bufPtr := bufPtr + 1;
        nChars := nChars - 1;
      }
    }
  }

  // ---- Writing ahead ----

  /** The free cells after bytes have been written ahead, each at its own offset. */
  function WriteAhead(ahead: seq<Byte>, writes: seq<(nat, Byte)>): (r: seq<Byte>)
    requires forall w :: w in writes ==> w.0 < |ahead|
    ensures |r| == |ahead|
    decreases |writes|
  {
    if writes == [] then ahead else WriteAhead(ahead[writes[0].0 := writes[0].1], writes[1..])
  }

  /** Every offset of `data` is written, in whatever order and however often, and always with its own byte. */
  ghost predicate Covers(writes: seq<(nat, Byte)>, data: seq<Byte>) {
    && (forall w :: w in writes ==> w.0 < |data| && w.1 == data[w.0])
    && (forall i :: 0 <= i < |data| ==> (i, data[i]) in writes)
  }

  lemma {:induction false} WrittenAhead(ahead: seq<Byte>, writes: seq<(nat, Byte)>, data: seq<Byte>, i: nat)
    requires |data| <= |ahead| && i < |ahead|
    requires forall w :: w in writes ==> w.0 < |data| && w.1 == data[w.0]
    ensures WriteAhead(ahead, writes)[i] ==
            if i < |data| && (i, data[i]) in writes then data[i] else ahead[i]
    decreases |writes|
  {
    if writes != [] {
      WrittenAhead(ahead[writes[0].0 := writes[0].1], writes[1..], data, i);
      assert forall w :: w in writes <==> w == writes[0] || w in writes[1..];
    }
  }

  lemma CoveredAhead(ahead: seq<Byte>, writes: seq<(nat, Byte)>, data: seq<Byte>)
    requires |data| <= |ahead| && Covers(writes, data)
    ensures WriteAhead(ahead, writes) == data + ahead[|data|..]
  {
    forall i | 0 <= i < |ahead|
      ensures WriteAhead(ahead, writes)[i] == (data + ahead[|data|..])[i]
    {
      WrittenAhead(ahead, writes, data, i);
      if i >= |data| {
        assert (data + ahead[|data|..])[i] == ahead[i];
      }
    }
  }

  /** Writing all of `data` ahead in any order and then moving ahead does what `BufPut` does. */
  method PutByLookAhead(r: Ring, writes: seq<(nat, Byte)>, ghost data: seq<Byte>, n: nat)
    requires r.Valid() && n == |data| <= |r.Ahead()| && Covers(writes, data)
    modifies r`pToBuf, r.buf
    ensures r.Valid()
    ensures r.Contents() == old(r.Contents()) + data
    ensures r.Ahead() == old(r.Ahead())[|data|..]
    ensures r.pToBuf == Wrap(old(r.pToBuf) + |data|, r.bufSize)
  {
    ghost var ahead := r.Ahead();
    var i := 0;
    while i < |writes|
      invariant i <= |writes| && r.Valid() && r.pToBuf == old(r.pToBuf)
      invariant r.Contents() == old(r.Contents()) && |r.Ahead()| == |ahead|
      invariant WriteAhead(r.Ahead(), writes[i..]) == WriteAhead(ahead, writes)
    {
      assert writes[i] in writes;
      r.PutAhead(writes[i].1, writes[i].0);
      i := i + 1;
    }
    CoveredAhead(ahead, writes, data);
    r.MoveAhead(n);
  }
}
