// S2MM against the cutter: following descriptor pointers through DRAM does to the stream exactly
// what Segment says, and leaves the evidence in the status words and the rx buffer.
module Sink {
  import opened Bytes
  import opened Ring
  import opened Encoder
  import opened Segment
  import opened Fabric
  import Gate

  function Bare(d: Desc): Desc {
    d.(status := 0)
  }

  /** The ring is in DRAM as built, whatever the engine has written into its status words. */
  ghost predicate RingAt(p: Plan, descs: seq<Desc>) {
    && p.first + p.count <= |descs|
    && forall i | 0 <= i < p.count :: Bare(descs[p.first + i]) == RingDesc(p, i)
  }

  /** A receive ring over the start of the rx buffer. */
  ghost predicate SinkPlan(m: Map, p: Plan, rxSize: nat) {
    && p.Valid()
    && p.phys == m.descBase + DESC_BYTES * p.first
    && p.buf == m.rxBase
    && p.len <= rxSize
  }

  /** Where piece i of the buffer starts. */
  function Off(p: Plan, i: nat): (n: nat) {
    MulMono(0, i, p.chunk);
    i * p.chunk
  }

  function StatusOf(p: Plan, hw: Hw, i: nat): U32
    requires p.first + i < |hw.descs|
  {
    hw.descs[p.first + i].status
  }

  /** Segment `s` landed in descriptor i: its status counts it, and its bytes are where they belong. */
  ghost predicate Landed(p: Plan, hw: Hw, i: nat, s: seq<Item>) {
    && p.first + i < |hw.descs|
    && |s| < LEN_SPAN
    && StatusOf(p, hw, i) == DoneStatus(|s|, EndsLast(s))
    && BytesAt(p, hw.rx, i, s)
  }

  ghost predicate BytesAt(p: Plan, rx: seq<Byte>, i: nat, s: seq<Item>) {
    Off(p, i) + |s| <= |rx| && rx[Off(p, i)..Off(p, i) + |s|] == Untag(s)
  }

  /** A descriptor the engine has not finished: clean, or stamped by the fault that stopped it. */
  ghost predicate Unfinished(st: U32, stopped: bool) {
    st == 0 || (stopped && IsErr(st) && !IsEof(st))
  }

  /** The engine and the cutter agree. */
  ghost predicate Tracks(m: Map, p: Plan, hw: Hw, g: Seg) {
    && p.first + p.count <= |hw.descs|
    && RingAt(p, hw.descs)
    && |g.done| <= p.count
    && (forall i | 0 <= i < |g.done| :: Landed(p, hw, i, g.done[i]))
    && (forall i | |g.done| <= i < p.count ::
          Unfinished(StatusOf(p, hw, i), i == |g.done| && hw.s2mm.phase != Running))
    && (|g.done| < p.count ==> BytesAt(p, hw.rx, |g.done|, g.cur))
    && (hw.s2mm.phase == Running ==>
          && |g.done| < p.count
          && hw.s2mm.cur == p.phys + |g.done| * DESC_BYTES
          && hw.s2mm.tail == p.phys + (p.count - 1) * DESC_BYTES
          && hw.s2mm.fill == |g.cur|)
  }

  lemma CurrentDesc(m: Map, p: Plan, hw: Hw, g: Seg)
    requires SinkPlan(m, p, |hw.rx|) && Tracks(m, p, hw, g) && hw.s2mm.phase == Running
    ensures var n := |g.done|;
            && n < p.count && hw.s2mm.fill == |g.cur|
            && DescIndex(m, |hw.descs|, hw.s2mm.cur) == p.first + n < |hw.descs|
            && var d := hw.descs[p.first + n];
               && LenOf(d) == Cap(p, n) == Caps(p)[n]
               && BufOf(d) == m.rxBase + Off(p, n)
               && FinishDesc(hw.s2mm, d) == (if n == p.count - 1 then hw.s2mm.(phase := Idle)
                                          else hw.s2mm.(cur := p.phys + (n + 1) * DESC_BYTES, fill := 0))
  {
    hide RingDesc, Cap, Plan.Valid, Landed, Unfinished, BytesAt, Lo, Hi, Addr64;
    var n := |g.done|;
    var d := hw.descs[p.first + n];
    assert Bare(d) == RingDesc(p, n);
    assert LenOf(d) == LenOf(Bare(d)) && BufOf(d) == BufOf(Bare(d)) && NextOf(d) == NextOf(Bare(d));
    DescReads(p, n);
  }

  /** Room for one more byte in the open descriptor lies inside the rx buffer. */
  lemma Room(m: Map, p: Plan, rxSize: nat, n: nat)
    requires SinkPlan(m, p, rxSize) && n < p.count
    ensures Off(p, n) + Cap(p, n) <= rxSize && Cap(p, n) <= p.chunk
  {
    hide Piece;
    LastPiece(p, n);
    CapMasks(p, n);
  }

  /** Pieces do not overlap. */
  lemma Past(p: Plan, i: nat, n: nat)
    requires i < n
    ensures Off(p, i) + p.chunk <= Off(p, n)
  {
    MulMono(i + 1, n, p.chunk);
    assert (i + 1) * p.chunk == i * p.chunk + p.chunk;
  }

  lemma WriteElsewhere(p: Plan, rx: seq<Byte>, i: nat, s: seq<Item>, a: nat, b: Byte)
    requires BytesAt(p, rx, i, s) && a < |rx| && (a < Off(p, i) || a >= Off(p, i) + |s|)
    ensures BytesAt(p, rx[a := b], i, s)
  {
    hide Off;
  }

  lemma WriteHere(p: Plan, rx: seq<Byte>, i: nat, s: seq<Item>, it: Item)
    requires BytesAt(p, rx, i, s) && Off(p, i) + |s| < |rx|
    ensures BytesAt(p, rx[Off(p, i) + |s| := it.b], i, s + [it])
  {
    hide Off;
    var a := Off(p, i);
    var rx' := rx[a + |s| := it.b];
    assert rx'[a..a + |s| + 1] == rx[a..a + |s|] + [it.b];
    assert Untag(s + [it]) == Untag(s) + [it.b];
  }

  /** Marking a status word leaves the ring as built. */
  lemma MarkKeepsRing(p: Plan, descs: seq<Desc>, k: nat, st: U32)
    requires RingAt(p, descs) && k < |descs|
    ensures RingAt(p, Mark(descs, k, st))
  {
  }

  /** What storing one byte comes to, once the pointers are followed. */
  lemma StoreAt(m: Map, hw: Hw, it: Item, k: nat, base: nat)
    requires hw.s2mm.phase == Running && k < |hw.descs| && DescIndex(m, |hw.descs|, hw.s2mm.cur) == k
    requires BufOf(hw.descs[k]) == m.rxBase + base && base + LenOf(hw.descs[k]) <= |hw.rx|
    ensures var d := hw.descs[k];
            var n := hw.s2mm.fill + 1;
            StoreItem(m, hw, it) ==
            if n > LenOf(d) then
              hw.(s2mm := hw.s2mm.(phase := Faulted), descs := Mark(hw.descs, k, FaultStatus(1)))
            else if it.last || n == LenOf(d) then
              hw.(rx := hw.rx[base + hw.s2mm.fill := it.b], descs := Mark(hw.descs, k, DoneStatus(n, it.last)),
                  s2mm := FinishDesc(hw.s2mm, d))
            else
              hw.(rx := hw.rx[base + hw.s2mm.fill := it.b], s2mm := hw.s2mm.(fill := n))
  {
    hide DescIndex, BufOf, LenOf, FinishDesc, Mark, DoneStatus, FaultStatus;
  }

  /** Only descriptor n of the ring and bytes past the closed segments may differ. */
  ghost predicate SameBefore(p: Plan, hw: Hw, hw': Hw, g: Seg) {
    && |hw'.descs| == |hw.descs| && |hw'.rx| == |hw.rx|
    && (forall k | 0 <= k < |hw.descs| && k != p.first + |g.done| :: hw'.descs[k] == hw.descs[k])
    && (forall i | 0 <= i < |g.done| :: BytesAt(p, hw.rx, i, g.done[i]) ==> BytesAt(p, hw'.rx, i, g.done[i]))
  }

  lemma KeepsClosed(m: Map, p: Plan, hw: Hw, hw': Hw, g: Seg)
    requires Tracks(m, p, hw, g) && SameBefore(p, hw, hw', g)
    ensures forall i | 0 <= i < |g.done| :: Landed(p, hw', i, g.done[i])
    ensures forall i | |g.done| < i < p.count :: Unfinished(StatusOf(p, hw', i), false)
  {
    hide RingAt, BytesAt, DoneStatus, IsErr, IsEof;
    forall i | 0 <= i < |g.done|
      ensures Landed(p, hw', i, g.done[i])
    {
      assert Landed(p, hw, i, g.done[i]);
    }
    forall i | |g.done| < i < p.count
      ensures Unfinished(StatusOf(p, hw', i), false)
    {
      assert Unfinished(StatusOf(p, hw, i), i == |g.done| && hw.s2mm.phase != Running);
    }
  }

  lemma ByteKeepsClosed(m: Map, p: Plan, hw: Hw, g: Seg, all: seq<Item>, it: Item)
    requires SinkPlan(m, p, |hw.rx|) && Tracks(m, p, hw, g) && Cut(Caps(p), g, all)
    requires |g.done| < p.count && |g.cur| < Cap(p, |g.done|)
    ensures var a := Off(p, |g.done|) + |g.cur|;
            0 <= a < |hw.rx|
            && (forall i | 0 <= i < |g.done| :: BytesAt(p, hw.rx[a := it.b], i, g.done[i]))
            && BytesAt(p, hw.rx[a := it.b], |g.done|, g.cur + [it])
  {
    hide RingAt, Cap, Plan.Valid, Unfinished, BytesAt, Off;
    var n := |g.done|;
    Room(m, p, |hw.rx|, n);
    var a := Off(p, n) + |g.cur|;
    WriteHere(p, hw.rx, n, g.cur, it);
    forall i | 0 <= i < n
      ensures BytesAt(p, hw.rx[a := it.b], i, g.done[i])
    {
      assert Closed(g.done[i], Caps(p)[i]) && Landed(p, hw, i, g.done[i]);
      Room(m, p, |hw.rx|, i);
      Past(p, i, n);
      WriteElsewhere(p, hw.rx, i, g.done[i], a, it.b);
    }
  }

  /** One byte: the engine does to memory what the cutter does to the stream. */
  lemma StoreTracks(m: Map, p: Plan, hw: Hw, g: Seg, all: seq<Item>, it: Item)
    requires SinkPlan(m, p, |hw.rx|) && Tracks(m, p, hw, g) && Cut(Caps(p), g, all)
    requires hw.s2mm.phase == Running
    ensures var hw' := StoreItem(m, hw, it); var g' := Take(Caps(p), g, it);
            && Tracks(m, p, hw', g') && |hw'.rx| == |hw.rx|
            && (hw'.s2mm.phase == Running || Stuck(Caps(p), g'))
            && (Stuck(Caps(p), g) || hw'.s2mm.phase == Running || hw'.s2mm.phase == Idle)
  {
    hide StoreItem, DescIndex, BufOf, LenOf, FinishDesc, SinkPlan, Tracks, Cut, Caps, Cap, Off, Mark, DoneStatus,
         FaultStatus;
    var n := |g.done|;
    CurrentDesc(m, p, hw, g);
    Room(m, p, |hw.rx|, n);
    StoreAt(m, hw, it, p.first + n, Off(p, n));
    FitsOrStuck(p, g, all);
    if Stuck(Caps(p), g) {
      StopTracks(m, p, hw, g, p.first + n, 1);
    } else {
      ByteKeepsClosed(m, p, hw, g, all, it);
      var hw' := hw.(rx := hw.rx[Off(p, n) + |g.cur| := it.b]);
      if it.last || |g.cur| + 1 == Cap(p, n) {
        CloseTracks(m, p, hw, hw', g, g.cur + [it], StoreItem(m, hw, it));
      } else {
        OpenTracks(m, p, hw, hw'.(s2mm := hw.s2mm.(fill := |g.cur| + 1)), g, it);
      }
    }
  }

  lemma FitsOrStuck(p: Plan, g: Seg, all: seq<Item>)
    requires Cut(Caps(p), g, all) && |g.done| < p.count
    ensures |Caps(p)| == p.count && Caps(p)[|g.done|] == Cap(p, |g.done|)
    ensures if Stuck(Caps(p), g) then Cap(p, |g.done|) == 0 && g.cur == [] else |g.cur| < Cap(p, |g.done|)
  {
    hide Cap, Flat;
  }

  /** A fault stamps the open descriptor and stops the engine for good. */
  lemma StopTracks(m: Map, p: Plan, hw: Hw, g: Seg, k: nat, code: nat)
    requires Tracks(m, p, hw, g) && hw.s2mm.phase == Running && k == p.first + |g.done| && 0 < code < 8
    ensures k < |hw.descs|
    ensures Tracks(m, p, hw.(s2mm := hw.s2mm.(phase := Faulted), descs := Mark(hw.descs, k, FaultStatus(code))), g)
  {
    hide RingAt, BytesAt, FaultStatus, IsErr, IsEof;
    var hw' := hw.(s2mm := hw.s2mm.(phase := Faulted), descs := Mark(hw.descs, k, FaultStatus(code)));
    MarkKeepsRing(p, hw.descs, k, FaultStatus(code));
    KeepsClosed(m, p, hw, hw', g);
  }

  lemma OpenTracks(m: Map, p: Plan, hw: Hw, hw': Hw, g: Seg, it: Item)
    requires Tracks(m, p, hw, g) && hw.s2mm.phase == Running
    requires hw'.descs == hw.descs && |hw'.rx| == |hw.rx| && hw'.s2mm == hw.s2mm.(fill := |g.cur| + 1)
    requires forall i | 0 <= i < |g.done| :: BytesAt(p, hw'.rx, i, g.done[i])
    requires BytesAt(p, hw'.rx, |g.done|, g.cur + [it])
    ensures Tracks(m, p, hw', Seg(g.done, g.cur + [it]))
  {
    hide RingAt, BytesAt, Landed, Unfinished;
    KeepsClosed(m, p, hw, hw', g);
    forall i | |g.done| <= i < p.count
      ensures Unfinished(StatusOf(p, hw', i), i == |g.done| && hw'.s2mm.phase != Running)
    {
      assert Unfinished(StatusOf(p, hw, i), i == |g.done| && hw.s2mm.phase != Running);
    }
  }

  /** The byte closed its descriptor, full or at TLAST; `mem` is the state with only that byte stored. */
  lemma CloseTracks(m: Map, p: Plan, hw: Hw, mem: Hw, g: Seg, c: seq<Item>, hw': Hw)
    requires SinkPlan(m, p, |hw.rx|) && Tracks(m, p, hw, g) && hw.s2mm.phase == Running
    requires |mem.rx| == |hw.rx| && 0 < |c| <= Cap(p, |g.done|)
    requires forall i | 0 <= i < |g.done| :: BytesAt(p, mem.rx, i, g.done[i])
    requires BytesAt(p, mem.rx, |g.done|, c)
    requires p.first + |g.done| < |hw.descs|
    requires hw'.rx == mem.rx && hw'.descs == Mark(hw.descs, p.first + |g.done|, DoneStatus(|c|, c[|c| - 1].last))
    requires hw'.s2mm == if |g.done| == p.count - 1 then hw.s2mm.(phase := Idle)
                         else hw.s2mm.(cur := p.phys + (|g.done| + 1) * DESC_BYTES, fill := 0)
    ensures Tracks(m, p, hw', Seg(g.done + [c], []))
    ensures hw'.s2mm.phase == Running || |g.done| + 1 == p.count
  {
    hide RingAt, Cap, Plan.Valid, DoneStatus, IsErr, IsEof, Off, Landed, BytesAt;
    var n := |g.done|;
    MarkKeepsRing(p, hw.descs, p.first + n, DoneStatus(|c|, c[|c| - 1].last));
    KeepsClosed(m, p, hw, hw', g);
    LandsNow(p, hw', n, c);
    if n + 1 < p.count {
      Room(m, p, |hw.rx|, n + 1);
      NothingAt(p, hw'.rx, n + 1);
    }
  }

  lemma NothingAt(p: Plan, rx: seq<Byte>, i: nat)
    requires Off(p, i) <= |rx|
    ensures BytesAt(p, rx, i, [])
  {
    hide Off;
  }

  lemma LandsNow(p: Plan, hw: Hw, i: nat, c: seq<Item>)
    requires p.first + i < |hw.descs| && 0 < |c| < LEN_SPAN
    requires StatusOf(p, hw, i) == DoneStatus(|c|, c[|c| - 1].last) && BytesAt(p, hw.rx, i, c)
    ensures Landed(p, hw, i, c)
  {
  }

  lemma {:induction false} StoreAllTracks(m: Map, p: Plan, hw: Hw, g: Seg, all: seq<Item>, items: seq<Item>)
    requires SinkPlan(m, p, |hw.rx|) && Tracks(m, p, hw, g) && Cut(Caps(p), g, all)
    requires hw.s2mm.phase == Running || Stuck(Caps(p), g)
    ensures var hw' := StoreItems(m, hw, items);
            Tracks(m, p, hw', TakeAll(Caps(p), g, items)) && |hw'.rx| == |hw.rx|
    decreases |items|
  {
    hide Tracks, Cut, StoreItem, Take, Caps, SinkPlan, Stuck;
    if items != [] {
      TakeCuts(Caps(p), g, all, items[0]);
      if hw.s2mm.phase == Running {
        StoreTracks(m, p, hw, g, all, items[0]);
        StoreAllTracks(m, p, StoreItem(m, hw, items[0]), Take(Caps(p), g, items[0]), all + [items[0]], items[1..]);
      } else {
        StoppedStays(m, hw, items);
        StuckStays(Caps(p), g, items);
      }
    }
  }

  lemma {:induction false} StoppedStays(m: Map, hw: Hw, items: seq<Item>)
    requires hw.s2mm.phase != Running
    ensures StoreItems(m, hw, items) == hw
    decreases |items|
  {
    if items != [] {
      StoppedStays(m, hw, items[1..]);
    }
  }

  lemma {:induction false} StuckStays(caps: seq<nat>, g: Seg, items: seq<Item>)
    requires Stuck(caps, g)
    ensures TakeAll(caps, g, items) == g
    decreases |items|
  {
    if items != [] {
      StuckStays(caps, g, items[1..]);
    }
  }

  /** No fault: the engine runs, or it has closed its whole ring. */
  ghost predicate Healthy(p: Plan, hw: Hw, g: Seg) {
    hw.s2mm.phase == Running || (hw.s2mm.phase == Idle && |g.done| == p.count)
  }

  /** Every descriptor has room for a byte, its length masked or not. */
  ghost predicate Roomy(p: Plan) {
    forall i | 0 <= i < p.count :: Cap(p, i) > 0
  }

  lemma ShortIsRoomy(p: Plan)
    requires p.Valid() && p.chunk < LEN_SPAN
    ensures Roomy(p)
  {
    hide Cap, Piece, Plan.Valid;
    forall i | 0 <= i < p.count
      ensures Cap(p, i) > 0
    {
      LastPiece(p, i);
      CapMasks(p, i);
    }
  }

  lemma StuckIsFull(p: Plan, g: Seg)
    requires Roomy(p) && |g.done| <= p.count
    ensures Stuck(Caps(p), g) <==> |g.done| == p.count
  {
    hide Cap;
    if |g.done| < p.count {
      assert Caps(p)[|g.done|] == Cap(p, |g.done|);
    }
  }

  /** Only a bus error stops the engine early, as long as every descriptor has room. */
  lemma {:induction false} StoreAllHealthy(m: Map, p: Plan, hw: Hw, g: Seg, all: seq<Item>, items: seq<Item>)
    requires SinkPlan(m, p, |hw.rx|) && Roomy(p)
    requires Tracks(m, p, hw, g) && Cut(Caps(p), g, all) && Healthy(p, hw, g)
    ensures Healthy(p, StoreItems(m, hw, items), TakeAll(Caps(p), g, items))
    decreases |items|
  {
    hide Tracks, Cut, StoreItem, Take, Caps, Stuck, Plan.Valid, Roomy;
    if items != [] {
      AtMostAll(m, p, hw, g);
      StuckIsFull(p, g);
      if hw.s2mm.phase == Running {
        StillRoom(m, p, hw, g);
        TakeCuts(Caps(p), g, all, items[0]);
        StoreTracks(m, p, hw, g, all, items[0]);
        var hw', g' := StoreItem(m, hw, items[0]), Take(Caps(p), g, items[0]);
        AtMostAll(m, p, hw', g');
        StuckIsFull(p, g');
        StoreAllHealthy(m, p, hw', g', all + [items[0]], items[1..]);
      } else {
        StoppedStays(m, hw, items);
        StuckStays(Caps(p), g, items);
      }
    }
  }

  lemma AtMostAll(m: Map, p: Plan, hw: Hw, g: Seg)
    requires Tracks(m, p, hw, g)
    ensures |g.done| <= p.count
  {
  }

  lemma StillRoom(m: Map, p: Plan, hw: Hw, g: Seg)
    requires Tracks(m, p, hw, g) && hw.s2mm.phase == Running
    ensures |g.done| < p.count
  {
  }
}
