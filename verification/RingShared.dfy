/**
 One writer in `rngBufPut` and one reader in `rngBufGet`, interleaved at every shared access.

 A call is cut into the steps other code can observe: the read of the other side's offset (once, at
 the start), one step for each byte a `memcpy` moves, and the write of the caller's own offset (once,
 at the end).  Between them stand the purely local decisions, taken on the offset that was read and
 that may be out of date by then.
 */
module RingShared {
  import opened Common
  import opened RingIndex

  /** Where the writer is.  `room` only records how many cells were free when `snap` was read. */
  datatype Writer =
    | WriterIdle
    | PutStarted(data: seq<Byte>, snap: nat, room: nat)
    | PutFirst(data: seq<Byte>, snap: nat, room: nat, mayWrap: bool, n1: nat, k: nat)
    | PutSecond(data: seq<Byte>, room: nat, n1: nat, n2: nat, k: nat)

  /** Where the reader is.  `avail` only records how many bytes were held when `snap` was read. */
  datatype Reader =
    | ReaderIdle
    | GetStarted(max: nat, snap: nat, avail: nat)
    | GetFirst(max: nat, snap: nat, avail: nat, mayWrap: bool, m1: nat, j: nat)
    | GetSecond(max: nat, avail: nat, m1: nat, m2: nat, j: nat)

  /**
   The ring, the two callers, and the history: `put` are all bytes published by the writer, `got` all
   bytes copied out by the reader, of which the first `taken` have been released.
   */
  datatype Shared = Shared(
    to: nat, from: nat, buf: seq<Byte>,
    writer: Writer, reader: Reader,
    put: seq<Byte>, got: seq<Byte>, taken: nat)

  datatype Action = CallPut(data: seq<Byte>) | CallGet(max: nat) | WriterMoves | ReaderMoves

  function Init(buf: seq<Byte>): Shared {
    Shared(0, 0, buf, WriterIdle, ReaderIdle, [], [], 0)
  }

  // ---- The steps ----

  function StartPut(s: Shared, data: seq<Byte>): Shared
    requires Bounded(s)
  {
    if s.writer.WriterIdle? then
      s.(writer := PutStarted(data, s.from, Free(s.to, s.from, |s.buf|)))
    else s
  }

  function StartGet(s: Shared, max: nat): Shared
    requires Bounded(s)
  {
    if s.reader.ReaderIdle? then
      s.(reader := GetStarted(max, s.to, Used(s.to, s.from, |s.buf|)))
    else s
  }

  function WriterStep(s: Shared): Shared
    requires Bounded(s) && WriterOk(s)
  {
    var size := |s.buf|;
    match s.writer
    case WriterIdle => s
    case PutStarted(data, snap, room) =>
      if snap > s.to then
        s.(writer := PutFirst(data, snap, room, false, Min(|data|, snap - s.to - 1), 0))
      else if snap == 0 then
        s.(writer := PutFirst(data, snap, room, false, Min(|data|, size - s.to - 1), 0))
      else
        s.(writer := PutFirst(data, snap, room, true, Min(|data|, size - s.to), 0))
    case PutFirst(data, snap, room, mayWrap, n1, k) =>
      if k < n1 then
        s.(buf := s.buf[s.to + k := data[k]], writer := PutFirst(data, snap, room, mayWrap, n1, k + 1))
      else if mayWrap && s.to + n1 == size then
        s.(writer := PutSecond(data, room, n1, Min(|data| - n1, snap - 1), 0))
      else
        s.(to := s.to + n1, writer := WriterIdle, put := s.put + data[..n1])
    case PutSecond(data, room, n1, n2, k) =>
      if k < n2 then
        s.(buf := s.buf[k := data[n1 + k]], writer := PutSecond(data, room, n1, n2, k + 1))
      else
        s.(to := n2, writer := WriterIdle, put := s.put + data[..n1 + n2])
  }

  function ReaderStep(s: Shared): Shared
    requires Bounded(s) && ReaderOk(s)
  {
    var size := |s.buf|;
    match s.reader
    case ReaderIdle => s
    case GetStarted(max, snap, avail) =>
      if snap >= s.from then
        s.(reader := GetFirst(max, snap, avail, false, Min(max, snap - s.from), 0))
      else
        s.(reader := GetFirst(max, snap, avail, true, Min(max, size - s.from), 0))
    case GetFirst(max, snap, avail, mayWrap, m1, j) =>
      if j < m1 then
        s.(got := s.got + [s.buf[s.from + j]], reader := GetFirst(max, snap, avail, mayWrap, m1, j + 1))
      else if mayWrap && s.from + m1 == size then
        s.(reader := GetSecond(max, avail, m1, Min(max - m1, snap), 0))
      else
        s.(from := s.from + m1, reader := ReaderIdle, taken := s.taken + m1)
    case GetSecond(max, avail, m1, m2, j) =>
      if j < m2 then
        s.(got := s.got + [s.buf[j]], reader := GetSecond(max, avail, m1, m2, j + 1))
      else
        s.(from := m2, reader := ReaderIdle, taken := s.taken + m1 + m2)
  }

  function Step(s: Shared, a: Action): Shared
    requires Inv(s)
  {
    match a
    case CallPut(data) => StartPut(s, data)
    case CallGet(max) => StartGet(s, max)
    case WriterMoves => WriterStep(s)
    case ReaderMoves => ReaderStep(s)
  }

  function Run(s: Shared, actions: seq<Action>): Shared
    requires Inv(s)
    decreases |actions|
  {
    if actions == [] then s
    else
      StepKeepsInv(s, actions[0]);
      Run(Step(s, actions[0]), actions[1..])
  }

  // ---- The invariant ----

  ghost predicate Bounded(s: Shared) {
    s.to < |s.buf| && s.from < |s.buf|
  }

  /** The writer's plan fits in cells that are free now, although it was made on an old offset. */
  ghost predicate WriterOk(s: Shared)
    requires Bounded(s)
  {
    var size, free := |s.buf|, Free(s.to, s.from, |s.buf|);
    match s.writer
    case WriterIdle => true
    case PutStarted(data, snap, room) =>
      snap < size && room == Free(s.to, snap, size) <= free
    case PutFirst(data, snap, room, mayWrap, n1, k) =>
      && snap < size && room == Free(s.to, snap, size) <= free
      && (mayWrap <==> 0 < snap <= s.to)
      && n1 == Min(|data|, if mayWrap then size - s.to else room)
      && k <= n1
    case PutSecond(data, room, n1, n2, k) =>
      && room <= free && s.to + n1 == size && n1 <= |data|
      && n1 + n2 == Min(|data|, room) && k <= n2
  }

  /** The reader's plan takes bytes that are held now. */
  ghost predicate ReaderOk(s: Shared)
    requires Bounded(s)
  {
    var size, held := |s.buf|, Used(s.to, s.from, |s.buf|);
    match s.reader
    case ReaderIdle => true
    case GetStarted(max, snap, avail) =>
      snap < size && avail == Used(snap, s.from, size) <= held
    case GetFirst(max, snap, avail, mayWrap, m1, j) =>
      && snap < size && avail == Used(snap, s.from, size) <= held
      && (mayWrap <==> snap < s.from)
      && m1 == Min(max, if mayWrap then size - s.from else avail)
      && j <= m1
    case GetSecond(max, avail, m1, m2, j) =>
      && avail <= held && s.from + m1 == size && m1 <= max
      && m1 + m2 == Min(max, avail) && j <= m2
  }

  /** Bytes of the call in progress that are in the ring but not published. */
  function InFlight(w: Writer): seq<Byte> {
    match w
    case PutFirst(data, _, _, _, n1, k) => if k <= |data| then data[..k] else []
    case PutSecond(data, _, n1, _, k) => if n1 + k <= |data| then data[..n1 + k] else []
    case _ => []
  }

  /** Number of bytes of the call in progress that are copied out but not released. */
  function InHand(r: Reader): nat {
    match r
    case GetFirst(_, _, _, _, _, j) => j
    case GetSecond(_, _, m1, _, j) => m1 + j
    case _ => 0
  }

  /** Going round from `start`, the cells hold `data`. */
  ghost predicate CellsHold(buf: seq<Byte>, start: nat, data: seq<Byte>)
    requires start < |buf|
  {
    forall p :: 0 <= p < |buf| && Used(p, start, |buf|) < |data| ==> buf[p] == data[Used(p, start, |buf|)]
  }

  /** The published bytes not yet released. */
  function Queue(s: Shared): seq<Byte>
    requires s.taken <= |s.put|
  {
    s.put[s.taken..]
  }

  ghost predicate Inv(s: Shared) {
    Bounded(s) && WriterOk(s) && ReaderOk(s) && HistoryOk(s)
  }

  ghost predicate HistoryOk(s: Shared)
    requires Bounded(s)
  {
    match s case Shared(to, from, buf, writer, reader, put, got, taken) =>
      && |put| == taken + Used(to, from, |buf|)
      && |got| == taken + InHand(reader)
      && got <= put
      && CellsHold(buf, from, put[taken..])
      && CellsHold(buf, to, InFlight(writer))
  }

  // ---- Every step keeps the invariant ----

  lemma LocalStep(s: Shared, t: Shared)
    requires Inv(s)
    requires t == s.(writer := t.writer, reader := t.reader)
    requires InFlight(t.writer) == InFlight(s.writer) && InHand(t.reader) == InHand(s.reader)
    requires WriterOk(t) && ReaderOk(t)
    ensures Inv(t)
  {
  }

  lemma CopyIn(s: Shared, t: Shared, cell: nat, b: Byte)
    requires Inv(s)
    requires |InFlight(s.writer)| < Free(s.to, s.from, |s.buf|)
    requires cell == Wrap(s.to + |InFlight(s.writer)|, |s.buf|)
    requires t == s.(buf := s.buf[cell := b], writer := t.writer)
    requires InFlight(t.writer) == InFlight(s.writer) + [b] && WriterOk(t)
    ensures Inv(t)
  {
    assert CellsHold(t.buf, s.from, Queue(s)) && CellsHold(t.buf, s.to, InFlight(t.writer));
  }

  lemma Publish(s: Shared, t: Shared)
    requires Inv(s)
    requires var flying := InFlight(s.writer);
             && |flying| <= Free(s.to, s.from, |s.buf|)
             && t == s.(to := Wrap(s.to + |flying|, |s.buf|), writer := WriterIdle, put := s.put + flying)
    ensures Inv(t)
  {
    var flying := InFlight(s.writer);
    assert Queue(t) == Queue(s) + flying;
    assert CellsHold(s.buf, s.from, Queue(s) + flying);
    assert CellsHold(s.buf, t.to, []);
    assert Used(t.to, s.from, |s.buf|) == |Queue(s)| + |flying|;
  }

  lemma CopyOut(s: Shared, t: Shared, cell: nat)
    requires Inv(s)
    requires InHand(s.reader) < Used(s.to, s.from, |s.buf|)
    requires cell == Wrap(s.from + InHand(s.reader), |s.buf|)
    requires t == s.(got := s.got + [s.buf[cell]], reader := t.reader)
    requires InHand(t.reader) == InHand(s.reader) + 1 && ReaderOk(t)
    ensures Inv(t)
  {
    assert Used(cell, s.from, |s.buf|) == InHand(s.reader);
    assert s.buf[cell] == Queue(s)[InHand(s.reader)] == s.put[|s.got|];
  }

  /** Cells that hold `data` hold what is left of it, from further on. */
  lemma CellsHoldRest(buf: seq<Byte>, start: nat, data: seq<Byte>, m: nat)
    requires start < |buf| && m <= |data| < |buf| && CellsHold(buf, start, data)
    ensures CellsHold(buf, Wrap(start + m, |buf|), data[m..])
  {
    forall p | 0 <= p < |buf| && Used(p, Wrap(start + m, |buf|), |buf|) < |data[m..]|
      ensures buf[p] == data[m..][Used(p, Wrap(start + m, |buf|), |buf|)]
    {
      assert Used(p, start, |buf|) == m + Used(p, Wrap(start + m, |buf|), |buf|);
    }
  }

  lemma WriterOkWithMoreRoom(s: Shared, t: Shared)
    requires Bounded(s) && Bounded(t) && WriterOk(s)
    requires t.writer == s.writer && t.to == s.to && |t.buf| == |s.buf|
    requires Free(t.to, t.from, |t.buf|) >= Free(s.to, s.from, |s.buf|)
    ensures WriterOk(t)
  {
  }

  lemma Release(s: Shared, t: Shared)
    requires Inv(s)
    requires var m := InHand(s.reader);
             && m <= Used(s.to, s.from, |s.buf|)
             && t == s.(from := Wrap(s.from + m, |s.buf|), reader := ReaderIdle, taken := s.taken + m)
    ensures Inv(t)
  {
    var m := InHand(s.reader);
    assert Used(s.to, t.from, |s.buf|) == Used(s.to, s.from, |s.buf|) - m;
    WriterOkWithMoreRoom(s, t);
    assert t.put[t.taken..] == Queue(s)[m..];
    CellsHoldRest(s.buf, s.from, Queue(s), m);
  }

  lemma PutFirstCopyKeepsInv(s: Shared)
    requires Inv(s) && s.writer.PutFirst? && s.writer.k < s.writer.n1
    ensures Inv(WriterStep(s))
  {
    var data, k := s.writer.data, s.writer.k;
    assert data[..k] + [data[k]] == data[..k + 1];
    CopyIn(s, WriterStep(s), s.to + k, data[k]);
  }

  lemma PutFirstKeepsInv(s: Shared)
    requires Inv(s) && s.writer.PutFirst?
    ensures Inv(WriterStep(s))
  {
    var PutFirst(data, snap, room, mayWrap, n1, k) := s.writer;
    if k < n1 {
      PutFirstCopyKeepsInv(s);
    } else if mayWrap && s.to + n1 == |s.buf| {
      LocalStep(s, WriterStep(s));
    } else {
      Publish(s, WriterStep(s));
    }
  }

  lemma PutSecondKeepsInv(s: Shared)
    requires Inv(s) && s.writer.PutSecond?
    ensures Inv(WriterStep(s))
  {
    var PutSecond(data, room, n1, n2, k) := s.writer;
    if k < n2 {
      assert data[..n1 + k] + [data[n1 + k]] == data[..n1 + (k + 1)];
      CopyIn(s, WriterStep(s), k, data[n1 + k]);
    } else {
      Publish(s, WriterStep(s));
    }
  }

  lemma GetFirstCopyKeepsInv(s: Shared)
    requires Inv(s) && s.reader.GetFirst? && s.reader.j < s.reader.m1
    ensures Inv(ReaderStep(s))
  {
    CopyOut(s, ReaderStep(s), s.from + s.reader.j);
  }

  lemma GetFirstKeepsInv(s: Shared)
    requires Inv(s) && s.reader.GetFirst?
    ensures Inv(ReaderStep(s))
  {
    var GetFirst(max, snap, avail, mayWrap, m1, j) := s.reader;
    if j < m1 {
      GetFirstCopyKeepsInv(s);
    } else if mayWrap && s.from + m1 == |s.buf| {
      LocalStep(s, ReaderStep(s));
    } else {
      Release(s, ReaderStep(s));
    }
  }

  lemma GetSecondKeepsInv(s: Shared)
    requires Inv(s) && s.reader.GetSecond?
    ensures Inv(ReaderStep(s))
  {
    var GetSecond(max, avail, m1, m2, j) := s.reader;
    if j < m2 {
      CopyOut(s, ReaderStep(s), j);
    } else {
      Release(s, ReaderStep(s));
    }
  }

  lemma PutStartedKeepsInv(s: Shared)
    requires Inv(s) && s.writer.PutStarted?
    ensures Inv(WriterStep(s))
  {
    LocalStep(s, WriterStep(s));
  }

  lemma GetStartedKeepsInv(s: Shared)
    requires Inv(s) && s.reader.GetStarted?
    ensures Inv(ReaderStep(s))
  {
    LocalStep(s, ReaderStep(s));
  }

  lemma CallsKeepInv(s: Shared, data: seq<Byte>, max: nat)
    requires Inv(s)
    ensures Inv(StartPut(s, data)) && Inv(StartGet(s, max))
  {
    LocalStep(s, StartPut(s, data));
    LocalStep(s, StartGet(s, max));
  }

  lemma StepKeepsInv(s: Shared, a: Action)
    requires Inv(s)
    ensures Inv(Step(s, a))
  {
    match a
    case CallPut(data) => CallsKeepInv(s, data, 0);
    case CallGet(max) => CallsKeepInv(s, [], max);
    case WriterMoves =>
      if s.writer.PutStarted? { PutStartedKeepsInv(s); }
      if s.writer.PutFirst? { PutFirstKeepsInv(s); }
      if s.writer.PutSecond? { PutSecondKeepsInv(s); }
    case ReaderMoves =>
      if s.reader.GetStarted? { GetStartedKeepsInv(s); }
      if s.reader.GetFirst? { GetFirstKeepsInv(s); }
      if s.reader.GetSecond? { GetSecondKeepsInv(s); }
  }

  lemma InitHoldsInv(buf: seq<Byte>)
    requires |buf| > 0
    ensures Inv(Init(buf))
  {
  }

  lemma {:induction false} RunKeepsInv(s: Shared, actions: seq<Action>)
    requires Inv(s)
    ensures Inv(Run(s, actions))
    decreases |actions|
  {
    if actions != [] {
      StepKeepsInv(s, actions[0]);
      RunKeepsInv(Step(s, actions[0]), actions[1..]);
    }
  }

  // ---- What every run guarantees ----

  /**
   However the two calls interleave, what has been copied out is a prefix of what has been published,
   and what is still owed to the reader lies in order in the cells between the two offsets.
   */
  lemma DeliveredIsPrefixOfPublished(buf: seq<Byte>, actions: seq<Action>)
    requires |buf| > 0
    ensures Inv(Init(buf))
    ensures var s := Run(Init(buf), actions);
            && Bounded(s) && s.taken <= |s.got| <= |s.put| && s.got <= s.put
            && Held(s.buf, s.to, s.from) == s.put[s.taken..]
  {
    InitHoldsInv(buf);
    RunKeepsInv(Init(buf), actions);
    var s := Run(Init(buf), actions);
    CellsAt(s.buf, s.from, Used(s.to, s.from, |s.buf|));
    forall i | 0 <= i < |Queue(s)|
      ensures Held(s.buf, s.to, s.from)[i] == Queue(s)[i]
    {
      assert Used(Wrap(s.from + i, |s.buf|), s.from, |s.buf|) == i;
    }
  }

  /** The cell the writer's next move stores into, if that move is a copy. */
  function WriterCell(s: Shared): Option<nat> {
    match s.writer
    case PutFirst(_, _, _, _, n1, k) => if k < n1 then Some(s.to + k) else None
    case PutSecond(_, _, _, n2, k) => if k < n2 then Some(k) else None
    case _ => None
  }

  /** The cell the reader's next move loads from, if that move is a copy. */
  function ReaderCell(s: Shared): Option<nat> {
    match s.reader
    case GetFirst(_, _, _, _, m1, j) => if j < m1 then Some(s.from + j) else None
    case GetSecond(_, _, _, m2, j) => if j < m2 then Some(j) else None
    case _ => None
  }

  /** No cell is overwritten before the byte in it is released; so the two sides never meet in a cell. */
  lemma WriterAvoidsHeldCells(s: Shared)
    requires Inv(s) && WriterCell(s).Some?
    ensures Used(WriterCell(s).value, s.from, |s.buf|) >= |Queue(s)|
    ensures WriterCell(s) != ReaderCell(s)
  {
  }

  // ---- Linearizability: calls take effect where they write their own offset ----

  datatype Op = Enqueue(bytes: seq<Byte>) | Dequeue(bytes: seq<Byte>)

  /** The operation that action `a` makes visible to the other side, if any. */
  function OpOf(s: Shared, a: Action): Option<Op>
    requires Inv(s)
  {
    match a
    case WriterMoves =>
      (match s.writer
       case PutFirst(_, _, _, mayWrap, n1, k) =>
         if k == n1 && !(mayWrap && s.to + n1 == |s.buf|) then Some(Enqueue(InFlight(s.writer))) else None
       case PutSecond(_, _, _, n2, k) =>
         if k == n2 then Some(Enqueue(InFlight(s.writer))) else None
       case _ => None)
    case ReaderMoves =>
      (match s.reader
       case GetFirst(_, _, _, mayWrap, m1, j) =>
         if j == m1 && !(mayWrap && s.from + m1 == |s.buf|) then Some(Dequeue(s.got[s.taken..])) else None
       case GetSecond(_, _, _, m2, j) =>
         if j == m2 then Some(Dequeue(s.got[s.taken..])) else None
       case _ => None)
    case _ => None
  }

  lemma WriterOpTakesEffect(s: Shared)
    requires Inv(s)
    ensures match OpOf(s, WriterMoves)
            case None => WriterStep(s).put == s.put && WriterStep(s).taken == s.taken
            case Some(Dequeue(_)) => false
            case Some(Enqueue(bytes)) =>
              && WriterStep(s).put == s.put + bytes && WriterStep(s).taken == s.taken
              && WriterStep(s).writer == WriterIdle
              && bytes == s.writer.data[..Min(|s.writer.data|, s.writer.room)]
              && |bytes| <= Free(s.to, s.from, |s.buf|)
  {
  }

  lemma ReaderOpTakesEffect(s: Shared)
    requires Inv(s)
    ensures match OpOf(s, ReaderMoves)
            case None => ReaderStep(s).put == s.put && ReaderStep(s).taken == s.taken
            case Some(Enqueue(_)) => false
            case Some(Dequeue(bytes)) =>
              && ReaderStep(s).put == s.put && ReaderStep(s).taken == s.taken + |bytes|
              && ReaderStep(s).reader == ReaderIdle
              && |bytes| == Min(s.reader.max, s.reader.avail)
              && bytes <= Queue(s)
  {
  }

  /** One operation on a FIFO of capacity `cap`; `None` when it is not possible. */
  function Apply(cap: nat, queue: seq<Byte>, op: Op): Option<seq<Byte>> {
    match op
    case Enqueue(bytes) => if |queue| + |bytes| <= cap then Some(queue + bytes) else None
    case Dequeue(bytes) => if bytes <= queue then Some(queue[|bytes|..]) else None
  }

  /** A bounded FIFO used by one caller at a time; `None` when `ops` is not a history of it. */
  function Fifo(cap: nat, queue: seq<Byte>, ops: seq<Op>): Option<seq<Byte>>
    decreases |ops|
  {
    if ops == [] then Some(queue)
    else match Apply(cap, queue, ops[0])
      case None => None
      case Some(queue') => Fifo(cap, queue', ops[1..])
  }

  /** The operations of a run, in the order in which they became visible. */
  function History(s: Shared, actions: seq<Action>): seq<Op>
    requires Inv(s)
    decreases |actions|
  {
    if actions == [] then []
    else
      StepKeepsInv(s, actions[0]);
      var rest := History(Step(s, actions[0]), actions[1..]);
      match OpOf(s, actions[0])
      case None => rest
      case Some(op) => [op] + rest
  }

  ghost predicate TakesEffect(s: Shared, a: Action, t: Shared)
    requires Inv(s) && t.taken <= |t.put|
  {
    match OpOf(s, a)
    case None => Queue(t) == Queue(s)
    case Some(op) => Apply(|s.buf| - 1, Queue(s), op) == Some(Queue(t))
  }

  lemma Enqueued(s: Shared, t: Shared, bytes: seq<Byte>)
    requires Inv(s) && |bytes| <= Free(s.to, s.from, |s.buf|)
    requires t.put == s.put + bytes && t.taken == s.taken
    ensures Apply(|s.buf| - 1, Queue(s), Enqueue(bytes)) == Some(Queue(t))
  {
    assert t.put[t.taken..] == Queue(s) + bytes;
  }

  lemma Dequeued(s: Shared, t: Shared, bytes: seq<Byte>)
    requires Inv(s) && bytes <= Queue(s)
    requires t.put == s.put && t.taken == s.taken + |bytes|
    ensures Apply(|s.buf| - 1, Queue(s), Dequeue(bytes)) == Some(Queue(t))
  {
    assert t.put[t.taken..] == Queue(s)[|bytes|..];
  }

  lemma EnqueueTakesEffect(s: Shared)
    requires Inv(s) && Inv(WriterStep(s))
    ensures |WriterStep(s).buf| == |s.buf| && TakesEffect(s, WriterMoves, WriterStep(s))
  {
    WriterOpTakesEffect(s);
    var op := OpOf(s, WriterMoves);
    if op.Some? {
      Enqueued(s, WriterStep(s), op.value.bytes);
    }
  }

  lemma DequeueTakesEffect(s: Shared)
    requires Inv(s) && Inv(ReaderStep(s))
    ensures |ReaderStep(s).buf| == |s.buf| && TakesEffect(s, ReaderMoves, ReaderStep(s))
  {
    ReaderOpTakesEffect(s);
    var op := OpOf(s, ReaderMoves);
    if op.Some? {
      Dequeued(s, ReaderStep(s), op.value.bytes);
    }
  }

  lemma CallsTakeNoEffect(s: Shared, data: seq<Byte>, max: nat)
    requires Inv(s) && Inv(StartPut(s, data)) && Inv(StartGet(s, max))
    ensures |StartPut(s, data).buf| == |s.buf| && TakesEffect(s, CallPut(data), StartPut(s, data))
    ensures |StartGet(s, max).buf| == |s.buf| && TakesEffect(s, CallGet(max), StartGet(s, max))
  {
  }

  lemma OpTakesEffect(s: Shared, a: Action)
    requires Inv(s) && Inv(Step(s, a))
    ensures |Step(s, a).buf| == |s.buf| && TakesEffect(s, a, Step(s, a))
  {
    match a
    case WriterMoves => EnqueueTakesEffect(s);
    case ReaderMoves => DequeueTakesEffect(s);
    case CallPut(data) =>
      CallsKeepInv(s, data, 0);
      CallsTakeNoEffect(s, data, 0);
    case CallGet(max) =>
      CallsKeepInv(s, [], max);
      CallsTakeNoEffect(s, [], max);
  }

  /** Every interleaving looks like calls made one at a time on a bounded FIFO. */
  lemma {:induction false} RunsAreLinearizable(s: Shared, actions: seq<Action>)
    requires Inv(s)
    ensures Inv(Run(s, actions))
    ensures Fifo(|s.buf| - 1, Queue(s), History(s, actions)) == Some(Queue(Run(s, actions)))
    decreases |actions|
  {
    if actions != [] {
      var a, t := actions[0], Step(s, actions[0]);
      StepKeepsInv(s, a);
      OpTakesEffect(s, a);
      RunsAreLinearizable(t, actions[1..]);
      if OpOf(s, a).Some? {
        assert History(s, actions)[1..] == History(t, actions[1..]);
      }
    }
  }

  // ---- No call waits for the other side ----

  /** Moves the writer still has to make, at most, before its call returns. */
  function WriterWork(w: Writer): nat {
    match w
    case WriterIdle => 0
    case PutStarted(data, _, _) => |data| + 3
    case PutFirst(data, _, _, _, n1, k) => if k <= |data| then |data| - k + 2 else 2
    case PutSecond(data, _, n1, n2, k) => if k <= n2 then n2 - k + 1 else 1
  }

  function ReaderWork(r: Reader): nat {
    match r
    case ReaderIdle => 0
    case GetStarted(max, _, _) => max + 3
    case GetFirst(max, _, _, _, m1, j) => if j <= max then max - j + 2 else 2
    case GetSecond(max, _, m1, m2, j) => if j <= m2 then m2 - j + 1 else 1
  }

  lemma PutIsWaitFree(s: Shared, a: Action)
    requires Inv(s) && !s.writer.WriterIdle?
    ensures if a.WriterMoves? then WriterWork(Step(s, a).writer) < WriterWork(s.writer)
            else Step(s, a).writer == s.writer
  {
  }

  lemma GetIsWaitFree(s: Shared, a: Action)
    requires Inv(s) && !s.reader.ReaderIdle?
    ensures if a.ReaderMoves? then ReaderWork(Step(s, a).reader) < ReaderWork(s.reader)
            else Step(s, a).reader == s.reader
  {
  }

  // ---- A call that is not interrupted does what the sequential ring promises ----

  function Repeat(a: Action, n: nat): seq<Action> {
    seq(n, _ => a)
  }

  /** The bytes the call in progress will publish. */
  function Planned(w: Writer): seq<Byte>
    requires !w.WriterIdle?
  {
    w.data[..Min(|w.data|, w.room)]
  }

  ghost predicate OnlyWriterMoved(s: Shared, t: Shared) {
    |t.buf| == |s.buf| && t.from == s.from && t.reader == s.reader && t.taken == s.taken
  }

  /** A move of the writer from `s` brings its call on or ends it. */
  ghost predicate PutGoesOn(s: Shared, t: Shared)
    requires !s.writer.WriterIdle?
  {
    && WriterWork(t.writer) < WriterWork(s.writer) && OnlyWriterMoved(s, t)
    && if t.writer.WriterIdle? then t.put == s.put + Planned(s.writer)
       else t.put == s.put && Planned(t.writer) == Planned(s.writer)
  }

  /** In `t` the call in progress in `s` has ended, and nothing else has happened. */
  ghost predicate PutEnded(s: Shared, t: Shared)
    requires !s.writer.WriterIdle?
  {
    Inv(t) && t.writer.WriterIdle? && OnlyWriterMoved(s, t) && t.put == s.put + Planned(s.writer)
  }

  lemma WriterStepTowardsEnd(s: Shared)
    requires Inv(s) && !s.writer.WriterIdle?
    ensures PutGoesOn(s, WriterStep(s))
  {
    PutIsWaitFree(s, WriterMoves);
    WriterOpTakesEffect(s);
  }

  lemma PutEndsLater(s: Shared, t: Shared, u: Shared)
    requires !s.writer.WriterIdle? && PutGoesOn(s, t)
    requires if t.writer.WriterIdle? then u == t && Inv(t) else PutEnded(t, u)
    ensures PutEnded(s, u)
  {
  }

  lemma WriterMovesFirst(s: Shared, n: nat)
    requires Inv(s) && n > 0
    ensures Inv(WriterStep(s))
    ensures Run(s, Repeat(WriterMoves, n)) == Run(WriterStep(s), Repeat(WriterMoves, n - 1))
  {
    StepKeepsInv(s, WriterMoves);
    assert Step(s, WriterMoves) == WriterStep(s);
    assert Repeat(WriterMoves, n)[1..] == Repeat(WriterMoves, n - 1);
  }

  lemma {:induction false} PutRunsToEnd(s: Shared, n: nat)
    requires Inv(s) && !s.writer.WriterIdle? && n >= WriterWork(s.writer)
    ensures PutEnded(s, Run(s, Repeat(WriterMoves, n)))
    decreases n, 0
  {
    WriterMovesFirst(s, n);
    WriterStepTowardsEnd(s);
    PutRunsOn(s, WriterStep(s), n - 1);
  }

  lemma {:induction false} PutRunsOn(s: Shared, t: Shared, n: nat)
    requires !s.writer.WriterIdle? && Inv(t) && PutGoesOn(s, t) && n >= WriterWork(t.writer)
    ensures PutEnded(s, Run(t, Repeat(WriterMoves, n)))
    decreases n, 1
  {
    if t.writer.WriterIdle? {
      IdleStays(t, n);
    } else {
      PutRunsToEnd(t, n);
    }
    PutEndsLater(s, t, Run(t, Repeat(WriterMoves, n)));
  }

  lemma {:induction false} IdleStays(s: Shared, n: nat)
    requires Inv(s) && s.writer.WriterIdle?
    ensures Run(s, Repeat(WriterMoves, n)) == s
    decreases n
  {
    if n > 0 {
      WriterMovesFirst(s, n);
      IdleStays(s, n - 1);
    }
  }

  /** The contract of `Ring.BufPut`, for a call during which the reader does nothing. */
  lemma SoloPutMatchesBufPut(s: Shared, data: seq<Byte>)
    requires Inv(s) && s.writer.WriterIdle?
    ensures var t := Run(s, [CallPut(data)] + Repeat(WriterMoves, |data| + 3));
            var put := Min(|data|, Free(s.to, s.from, |s.buf|));
            && Inv(t) && t.writer.WriterIdle? && |t.buf| == |s.buf|
            && Queue(t) == Queue(s) + data[..put]
            && t.to == Wrap(s.to + put, |s.buf|) && t.from == s.from
  {
    var actions := [CallPut(data)] + Repeat(WriterMoves, |data| + 3);
    var started := StartPut(s, data);
    assert actions[1..] == Repeat(WriterMoves, |data| + 3);
    StepKeepsInv(s, CallPut(data));
    PutRunsToEnd(started, |data| + 3);
    var t := Run(s, actions);
    assert t.put[t.taken..] == Queue(s) + data[..Min(|data|, Free(s.to, s.from, |s.buf|))];
  }

  // ---- The same for the reader ----

  ghost predicate OnlyReaderMoved(s: Shared, t: Shared) {
    |t.buf| == |s.buf| && t.to == s.to && t.writer == s.writer && t.put == s.put
  }

  /** How many bytes the call in progress will release. */
  function Wanted(r: Reader): nat
    requires !r.ReaderIdle?
  {
    Min(r.max, r.avail)
  }

  /** A move of the reader from `s` brings its call on or ends it. */
  ghost predicate GetGoesOn(s: Shared, t: Shared)
    requires !s.reader.ReaderIdle?
  {
    && ReaderWork(t.reader) < ReaderWork(s.reader) && OnlyReaderMoved(s, t)
    && if t.reader.ReaderIdle? then t.taken == s.taken + Wanted(s.reader)
       else t.taken == s.taken && Wanted(t.reader) == Wanted(s.reader)
  }

  ghost predicate GetEnded(s: Shared, t: Shared)
    requires !s.reader.ReaderIdle?
  {
    Inv(t) && t.reader.ReaderIdle? && OnlyReaderMoved(s, t) && t.taken == s.taken + Wanted(s.reader)
  }

  lemma ReaderStepTowardsEnd(s: Shared)
    requires Inv(s) && !s.reader.ReaderIdle?
    ensures GetGoesOn(s, ReaderStep(s))
  {
    GetIsWaitFree(s, ReaderMoves);
    ReaderOpTakesEffect(s);
  }

  lemma GetEndsLater(s: Shared, t: Shared, u: Shared)
    requires !s.reader.ReaderIdle? && GetGoesOn(s, t)
    requires if t.reader.ReaderIdle? then u == t && Inv(t) else GetEnded(t, u)
    ensures GetEnded(s, u)
  {
  }

  lemma ReaderMovesFirst(s: Shared, n: nat)
    requires Inv(s) && n > 0
    ensures Inv(ReaderStep(s))
    ensures Run(s, Repeat(ReaderMoves, n)) == Run(ReaderStep(s), Repeat(ReaderMoves, n - 1))
  {
    StepKeepsInv(s, ReaderMoves);
    assert Step(s, ReaderMoves) == ReaderStep(s);
    assert Repeat(ReaderMoves, n)[1..] == Repeat(ReaderMoves, n - 1);
  }

  lemma {:induction false} IdleReaderStays(s: Shared, n: nat)
    requires Inv(s) && s.reader.ReaderIdle?
    ensures Run(s, Repeat(ReaderMoves, n)) == s
    decreases n
  {
    if n > 0 {
      ReaderMovesFirst(s, n);
      IdleReaderStays(s, n - 1);
    }
  }

  lemma {:induction false} GetRunsToEnd(s: Shared, n: nat)
    requires Inv(s) && !s.reader.ReaderIdle? && n >= ReaderWork(s.reader)
    ensures GetEnded(s, Run(s, Repeat(ReaderMoves, n)))
    decreases n, 0
  {
    ReaderMovesFirst(s, n);
    ReaderStepTowardsEnd(s);
    GetRunsOn(s, ReaderStep(s), n - 1);
  }

  lemma {:induction false} GetRunsOn(s: Shared, t: Shared, n: nat)
    requires !s.reader.ReaderIdle? && Inv(t) && GetGoesOn(s, t) && n >= ReaderWork(t.reader)
    ensures GetEnded(s, Run(t, Repeat(ReaderMoves, n)))
    decreases n, 1
  {
    if t.reader.ReaderIdle? {
      IdleReaderStays(t, n);
    } else {
      GetRunsToEnd(t, n);
    }
    GetEndsLater(s, t, Run(t, Repeat(ReaderMoves, n)));
  }

  /** What a finished call has delivered. */
  lemma DeliveredByGet(s: Shared, t: Shared, got: nat)
    requires Inv(s) && Inv(t) && s.reader.ReaderIdle? && t.reader.ReaderIdle? && OnlyReaderMoved(s, t)
    requires t.taken == s.taken + got && got <= Used(s.to, s.from, |s.buf|)
    ensures t.got == s.got + Queue(s)[..got] && Queue(t) == Queue(s)[got..]
    ensures t.from == Wrap(s.from + got, |s.buf|)
  {
    assert t.got == s.put[..s.taken + got] && s.got == s.put[..s.taken];
    assert s.put[..s.taken + got] == s.put[..s.taken] + Queue(s)[..got];
    assert s.put[s.taken + got..] == Queue(s)[got..];
  }

  /** The contract of `Ring.BufGet`, for a call during which the writer does nothing. */
  lemma SoloGetMatchesBufGet(s: Shared, max: nat)
    requires Inv(s) && s.reader.ReaderIdle?
    ensures var t := Run(s, [CallGet(max)] + Repeat(ReaderMoves, max + 3));
            var got := Min(max, Used(s.to, s.from, |s.buf|));
            && Inv(t) && t.reader.ReaderIdle? && |t.buf| == |s.buf|
            && t.got == s.got + Queue(s)[..got] && Queue(t) == Queue(s)[got..]
            && t.from == Wrap(s.from + got, |s.buf|) && t.to == s.to
  {
    var actions := [CallGet(max)] + Repeat(ReaderMoves, max + 3);
    var started := StartGet(s, max);
    assert actions[1..] == Repeat(ReaderMoves, max + 3);
    StepKeepsInv(s, CallGet(max));
    GetRunsToEnd(started, max + 3);
    DeliveredByGet(s, Run(s, actions), Min(max, Used(s.to, s.from, |s.buf|)));
  }
}
