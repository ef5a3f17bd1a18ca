// What the status words of a receive ring prove about the bytes in DRAM, at any moment of any run.
module Evidence {
  import opened Bytes
  import opened Ring
  import opened Encoder
  import opened Segment
  import opened Fabric
  import opened Sink
  import opened Run
  import Gate

  /** The receive side of a run, alone: true throughout it, and after the DMA was reset. */
  ghost predicate Told(j: Job, hw: Hw) {
    && JobOk(j, hw)
    && Tracks(j.m, j.sink, hw, Cutting(j, hw))
    && hw.delivered <= Avail(j.e, j.d, j.pixels)
  }

  lemma GoodTold(j: Job, hw: Hw)
    requires Good(j, hw)
    ensures Told(j, hw)
  {
    hide Tracks, Avail, Causal, Cutting;
    AvailMonotone(j.e, j.d, hw.core.fed, j.pixels);
    var avail := Avail(j.e, j.d, hw.core.fed);
    assert hw.delivered <= hw.delivered + Gate.Held(hw.gate) == avail[..hw.core.emitted] <= avail;
  }
  /** The status words of the ring, in order. */
  function Statuses(p: Plan, descs: seq<Desc>): (sts: seq<U32>)
    requires p.first + p.count <= |descs|
    ensures |sts| == p.count
    ensures forall i | 0 <= i < p.count :: sts[i] == descs[p.first + i].status
  {
    seq<U32>(p.count, i requires 0 <= i < p.count => descs[p.first + i].status)
  }

  /** How many descriptors, from the first on, report a TLAST: the server's `closed`. */
  function LeadEof(sts: seq<U32>): nat {
    if sts == [] || !IsEof(sts[0]) then 0 else 1 + LeadEof(sts[1..])
  }

  lemma {:induction false} LeadEofIs(sts: seq<U32>, n: nat)
    requires n <= |sts|
    requires forall i | 0 <= i < n :: IsEof(sts[i])
    requires n < |sts| ==> !IsEof(sts[n])
    ensures LeadEof(sts) == n
  {
    hide IsEof;
    if n > 0 {
      LeadEofIs(sts[1..], n - 1);
    }
  }

  ghost predicate FirstEofAt(sts: seq<U32>, i: nat) {
    i < |sts| && IsEof(sts[i]) && forall k | 0 <= k < i :: !IsEof(sts[k])
  }

  /** A status word reports a TLAST exactly if its segment ended in one. */
  lemma EofMeans(m: Map, p: Plan, hw: Hw, g: Seg, i: nat)
    requires Tracks(m, p, hw, g) && i < p.count
    ensures IsEof(StatusOf(p, hw, i)) <==> i < |g.done| && EndsLast(g.done[i])
    ensures i < |g.done| ==> CountOf(StatusOf(p, hw, i)) == |g.done[i]| && IsCmplt(StatusOf(p, hw, i))
                             && BytesAt(p, hw.rx, i, g.done[i])
    ensures i >= |g.done| ==> !IsEof(StatusOf(p, hw, i)) && (IsErr(StatusOf(p, hw, i)) || !IsCmplt(StatusOf(p, hw, i)))
  {
    hide RingAt, BytesAt, DoneStatus;
    if i < |g.done| {
      assert Landed(p, hw, i, g.done[i]);
    } else {
      assert Unfinished(StatusOf(p, hw, i), i == |g.done| && hw.s2mm.phase != Running);
    }
  }

  lemma LeadsAgree(m: Map, p: Plan, hw: Hw, g: Seg)
    requires Tracks(m, p, hw, g)
    ensures LeadEof(Statuses(p, hw.descs)) == Lead(g.done)
  {
    hide Tracks, IsEof, Lead, LeadEof;
    InRing(m, p, hw, g);
    var sts := Statuses(p, hw.descs);
    var n := Lead(g.done);
    forall i | 0 <= i < n
      ensures IsEof(sts[i])
    {
      EofMeans(m, p, hw, g, i);
    }
    if n < p.count {
      EofMeans(m, p, hw, g, n);
    }
    LeadEofIs(sts, n);
  }

  lemma InRing(m: Map, p: Plan, hw: Hw, g: Seg)
    requires Tracks(m, p, hw, g)
    ensures |g.done| <= p.count && p.first + p.count <= |hw.descs|
  {
  }

  /** The stream cut so far is the start of packets followed by an unfinished one. */
  lemma CutOfPackets(j: Job, hw: Hw, fed: seq<Byte>)
    requires Causal(j.e) && hw.delivered <= Avail(j.e, j.d, fed)
    ensures Cut(Caps(j.sink), Cutting(j, hw), Items(hw.delivered))
    ensures Items(hw.delivered) <= Flat(Packets(j.e, j.d, fed)) + Partial(j.e, j.d, fed)
    ensures forall k | 0 <= k < |Packets(j.e, j.d, fed)| :: Framed(Packets(j.e, j.d, fed)[k])
    ensures NoLast(Partial(j.e, j.d, fed))
  {
    hide Cut, Cutting, Items, Avail, Packets, Partial, Causal;
    CuttingCuts(j, hw);
    ItemsPrefix(hw.delivered, Avail(j.e, j.d, fed));
    AvailItems(j.e, j.d, fed);
  }

  ghost predicate HoldsPacket(p: Plan, rx: seq<Byte>, i: nat, st: U32, packet: seq<Item>) {
    CountOf(st) == |packet| && BytesAt(p, rx, i, packet)
  }

  /** One packet per descriptor: whatever the moment, and whether the run completed, timed out,
      faulted or a packet outgrew its slot, the leading descriptors that report a TLAST hold
      exactly the first packets, whole, in order, with their exact lengths. */
  lemma StreamTold(j: Job, hw: Hw)
    requires Told(j, hw)
    ensures var pkts := Packets(j.e, j.d, j.pixels);
            var sts := Statuses(j.sink, hw.descs);
            LeadEof(sts) <= |pkts|
            && forall k | 0 <= k < LeadEof(sts) && k < |sts| :: HoldsPacket(j.sink, hw.rx, k, sts[k], pkts[k])
  {
    hide Tracks, Cut, Cutting, Items, Avail, Packets, Partial, Causal, Flat, NoLast, LeadEof;
    var g := Cutting(j, hw);
    var pkts, rest := Packets(j.e, j.d, j.pixels), Partial(j.e, j.d, j.pixels);
    var n := Lead(g.done);
    InRing(j.m, j.sink, hw, g);
    CutOfPackets(j, hw, j.pixels);
    LeadIsExact(Caps(j.sink), g, Items(hw.delivered), pkts, rest, n);
    LeadsAgree(j.m, j.sink, hw, g);
    var sts := Statuses(j.sink, hw.descs);
    forall k | 0 <= k < n
      ensures HoldsPacket(j.sink, hw.rx, k, sts[k], pkts[k])
    {
      EofMeans(j.m, j.sink, hw, g, k);
      assert g.done[k] == g.done[..n][k] == pkts[..n][k] == pkts[k];
    }
  }

  /** A packet that closed its descriptor fits the 26-bit length of that. */
  lemma LeadFits(j: Job, hw: Hw, k: nat)
    requires Told(j, hw) && j.sink.first + j.sink.count <= |hw.descs| && k < LeadEof(Statuses(j.sink, hw.descs))
    ensures var pkts := Packets(j.e, j.d, j.pixels); k < |pkts| && |pkts[k]| <= Cap(j.sink, k)
  {
    hide Tracks, Cut, Cutting, Items, Avail, Packets, Partial, Causal, Flat, NoLast, LeadEof, Cap;
    var g := Cutting(j, hw);
    var pkts := Packets(j.e, j.d, j.pixels);
    InRing(j.m, j.sink, hw, g);
    CutOfPackets(j, hw, j.pixels);
    LeadsAgree(j.m, j.sink, hw, g);
    var n := Lead(g.done);
    LeadIsExact(Caps(j.sink), g, Items(hw.delivered), pkts, Partial(j.e, j.d, j.pixels), n);
    assert g.done[k] == g.done[..n][k] == pkts[..n][k] == pkts[k];
    ClosedFits(j.sink, g, Items(hw.delivered), k);
  }

  lemma ClosedFits(p: Plan, g: Seg, all: seq<Item>, k: nat)
    requires Cut(Caps(p), g, all) && k < |g.done|
    ensures k < p.count && |g.done[k]| <= Cap(p, k)
  {
    hide Cap, Flat, NoLast;
    assert Closed(g.done[k], Caps(p)[k]);
  }

  // --- one packet across descriptors ---

  function SumCounts(sts: seq<U32>): nat {
    if sts == [] then 0 else SumCounts(sts[..|sts| - 1]) + CountOf(sts[|sts| - 1])
  }

  /** Full descriptors in front of the first TLAST lie back to back. */
  lemma {:induction false} BackToBack(m: Map, p: Plan, hw: Hw, g: Seg, all: seq<Item>, i: nat, n: nat)
    requires SinkPlan(m, p, |hw.rx|) && p.chunk < LEN_SPAN
    requires Tracks(m, p, hw, g) && Cut(Caps(p), g, all)
    requires i < |g.done| && forall k | 0 <= k < i :: !EndsLast(g.done[k])
    requires n <= i + 1
    ensures var whole := Flat(g.done[..n]);
            && SumCounts(Statuses(p, hw.descs)[..n]) == |whole| <= |hw.rx|
            && hw.rx[..|whole|] == Untag(whole)
            && (n <= i ==> |whole| == Off(p, n))
  {
    hide Tracks, SinkPlan, Flat, Cut, IsEof, IsErr, IsCmplt, CountOf, Off;
    InRing(m, p, hw, g);
    var sts := Statuses(p, hw.descs);
    if n == 0 {
      assert g.done[..0] == [];
      EmptyFlat<Item>();
      OffZero(p);
    } else {
      hide BytesAt, SumCounts;
      BackToBack(m, p, hw, g, all, i, n - 1);
      var before := Flat(g.done[..n - 1]);
      var s := g.done[n - 1];
      FlatAt(g.done, n - 1);
      EofMeans(m, p, hw, g, n - 1);
      OneMoreCount(sts, n - 1);
      BytesBehind(p, hw.rx, before, s, n - 1);
      if n <= i {
        FullIsChunk(m, p, |hw.rx|, g, all, n - 1);
      }
    }
  }

  lemma OneMoreCount(sts: seq<U32>, n: nat)
    requires n < |sts|
    ensures SumCounts(sts[..n + 1]) == SumCounts(sts[..n]) + CountOf(sts[n])
  {
    hide CountOf;
    assert sts[..n + 1][..n] == sts[..n];
  }

  /** The segment of the next descriptor continues the bytes before it. */
  lemma BytesBehind(p: Plan, rx: seq<Byte>, before: seq<Item>, s: seq<Item>, i: nat)
    requires |before| == Off(p, i) && |before| <= |rx| && rx[..|before|] == Untag(before) && BytesAt(p, rx, i, s)
    ensures |before + s| <= |rx| && rx[..|before + s|] == Untag(before + s)
  {
    hide Off, Untag;
    AppendUntagged(rx, before, s);
  }

  lemma AppendUntagged(rx: seq<Byte>, a: seq<Item>, b: seq<Item>)
    requires |a| + |b| <= |rx| && rx[..|a|] == Untag(a) && rx[|a|..|a| + |b|] == Untag(b)
    ensures rx[..|a + b|] == Untag(a + b)
  {
    assert rx[..|a| + |b|] == rx[..|a|] + rx[|a|..|a| + |b|];
  }

  lemma EmptyFlat<T>()
    ensures Flat<T>([]) == []
  {
  }

  lemma OffZero(p: Plan)
    ensures Off(p, 0) == 0
  {
    assert Off(p, 0) == 0 * p.chunk;
  }

  lemma FullIsChunk(m: Map, p: Plan, rxSize: nat, g: Seg, all: seq<Item>, k: nat)
    requires SinkPlan(m, p, rxSize) && p.chunk < LEN_SPAN && Cut(Caps(p), g, all)
    requires k + 1 < |g.done| && !EndsLast(g.done[k])
    ensures Off(p, k) + |g.done[k]| == Off(p, k + 1)
  {
    hide Piece, Cap, Flat;
    assert Closed(g.done[k], Caps(p)[k]);
    LastPiece(p, k);
    CapMasks(p, k);
  }

  /** One packet over a whole buffer: at the first TLAST, the counts up to it add up to the packet's
      length and the buffer starts with exactly the packet, across descriptor boundaries. */
  lemma SingleTold(j: Job, hw: Hw, i: nat)
    requires Told(j, hw) && j.sink.chunk < LEN_SPAN
    requires FirstEofAt(Statuses(j.sink, hw.descs), i)
    ensures var pkts := Packets(j.e, j.d, j.pixels);
            && |pkts| > 0
            && SumCounts(Statuses(j.sink, hw.descs)[..i + 1]) == |pkts[0]| <= |hw.rx|
            && hw.rx[..|pkts[0]|] == Untag(pkts[0])
  {
    hide Tracks, Cut, Cutting, Items, Avail, Packets, Partial, Causal, Flat, NoLast, SinkPlan, SourcePlan, IsEof;
    var g := Cutting(j, hw);
    CutOfPackets(j, hw, j.pixels);
    FirstEofSegment(j, hw, g, i);
    FirstEof(Caps(j.sink), g, Items(hw.delivered), Packets(j.e, j.d, j.pixels), Partial(j.e, j.d, j.pixels), i);
    BackToBack(j.m, j.sink, hw, g, Items(hw.delivered), i, i + 1);
  }

  lemma FirstEofSegment(j: Job, hw: Hw, g: Seg, i: nat)
    requires Tracks(j.m, j.sink, hw, g) && FirstEofAt(Statuses(j.sink, hw.descs), i)
    ensures i < |g.done| && EndsLast(g.done[i]) && forall k | 0 <= k < i :: !EndsLast(g.done[k])
  {
    hide Tracks, IsEof, IsErr, IsCmplt, CountOf, BytesAt, EndsLast;
    InRing(j.m, j.sink, hw, g);
    EofMeans(j.m, j.sink, hw, g, i);
    var sts := Statuses(j.sink, hw.descs);
    forall k | 0 <= k < i
      ensures !EndsLast(g.done[k])
    {
      assert !IsEof(sts[k]);
      EofMeans(j.m, j.sink, hw, g, k);
    }
  }

  // --- MM2S is done once the last packet is ---

  /** When as many packets have closed as the pixels hold images, MM2S has nothing left to move. */
  lemma DoneIsQuiet(j: Job, hw: Hw, n: nat)
    requires Good(j, hw) && ImageBytes(j.d) > 0
    requires 0 < n <= LeadEof(Statuses(j.sink, hw.descs)) && |j.pixels| <= n * ImageBytes(j.d)
    ensures Quiet(hw)
  {
    hide Tracks, Cut, Cutting, Items, Avail, Packets, Partial, Causal, Flat, NoLast, SinkPlan, SourcePlan, LeadEof,
         ImageBytes;
    var g := Cutting(j, hw);
    var fed := hw.core.fed;
    assert hw.delivered <= Avail(j.e, j.d, fed);
    CutOfPackets(j, hw, fed);
    LeadsAgree(j.m, j.sink, hw, g);
    LeadIsExact(Caps(j.sink), g, Items(hw.delivered), Packets(j.e, j.d, fed), Partial(j.e, j.d, fed), n);
    PacketsAre(j.e, j.d, fed, n - 1);
  }

  lemma FirstEofIsQuiet(j: Job, hw: Hw, i: nat)
    requires Good(j, hw) && ImageBytes(j.d) > 0
    requires FirstEofAt(Statuses(j.sink, hw.descs), i) && |j.pixels| <= ImageBytes(j.d)
    ensures Quiet(hw)
  {
    hide Tracks, Cut, Cutting, Items, Avail, Packets, Partial, Causal, Flat, NoLast, SinkPlan, SourcePlan, ImageBytes,
         FirstEofAt;
    var g := Cutting(j, hw);
    var fed := hw.core.fed;
    assert hw.delivered <= Avail(j.e, j.d, fed);
    CutOfPackets(j, hw, fed);
    FirstEofSegment(j, hw, g, i);
    FirstEof(Caps(j.sink), g, Items(hw.delivered), Packets(j.e, j.d, fed), Partial(j.e, j.d, fed), i);
    PacketsAre(j.e, j.d, fed, 0);
    assert (0 + 1) * ImageBytes(j.d) == ImageBytes(j.d);
  }

  // --- later looks only confirm ---

  /** A TLAST once reported is reported by every later look, with the same count. */
  lemma EofPersists(j: Job, early: Hw, late: Hw, i: nat)
    requires Tracks(j.m, j.sink, early, Cutting(j, early)) && Tracks(j.m, j.sink, late, Cutting(j, late))
    requires early.delivered <= late.delivered && i < j.sink.count
    requires i < |Cutting(j, early).done|
    ensures StatusOf(j.sink, late, i) == StatusOf(j.sink, early, i)
  {
    hide Tracks, Cut, TakeAll, Items;
    var more := late.delivered[|early.delivered|..];
    assert late.delivered == early.delivered + more;
    ItemsConcat(early.delivered, more);
    TakeAllConcat(Caps(j.sink), START, Items(early.delivered), Items(more));
    CuttingCuts(j, early);
    TakeAllCuts(Caps(j.sink), Cutting(j, early), Items(early.delivered), Items(more));
    var a, b := Cutting(j, early).done, Cutting(j, late).done;
    assert a[i] == b[i];
    LandedStatus(j, early, Cutting(j, early), i);
    LandedStatus(j, late, Cutting(j, late), i);
  }

  lemma LandedStatus(j: Job, hw: Hw, g: Seg, i: nat)
    requires Tracks(j.m, j.sink, hw, g) && i < |g.done|
    ensures i < j.sink.count && |g.done[i]| < LEN_SPAN
    ensures StatusOf(j.sink, hw, i) == DoneStatus(|g.done[i]|, EndsLast(g.done[i]))
    ensures BytesAt(j.sink, hw.rx, i, g.done[i])
  {
    hide RingAt;
    assert Landed(j.sink, hw, i, g.done[i]);
  }

  /** The rx bytes and status words depend on the encoder's beats only: two runs of the same job,
      with any thresholds, any ready schedules and any interleaving, that both delivered everything
      without a fault end with the same status words and the same bytes under them. */
  lemma ThrottleIndependent(j: Job, a: Hw, b: Hw, evsA: seq<Event>, evsB: seq<Event>, i: nat)
    requires Good(j, a) && Good(j, b) && i < j.sink.count
    requires var a', b' := Steps(j.e, j.m, a, evsA), Steps(j.e, j.m, b, evsB);
             && a'.delivered == b'.delivered == Avail(j.e, j.d, j.pixels)
             && !IsErr(StatusOfRun(j, a')[i]) && !IsErr(StatusOfRun(j, b')[i])
    ensures var a', b' := Steps(j.e, j.m, a, evsA), Steps(j.e, j.m, b, evsB);
            var st := StatusOfRun(j, a')[i];
            && st == StatusOfRun(j, b')[i]
            && Off(j.sink, i) + CountOf(st) <= |a'.rx| && Off(j.sink, i) + CountOf(st) <= |b'.rx|
            && a'.rx[Off(j.sink, i)..Off(j.sink, i) + CountOf(st)]
               == b'.rx[Off(j.sink, i)..Off(j.sink, i) + CountOf(st)]
  {
    hide Steps, Tracks, Cutting, Avail, SinkPlan, Causal, Feeds, Flows, Off, IsErr;
    StepsKeep(j, a, evsA);
    StepsKeep(j, b, evsB);
    SameOutcome(j, Steps(j.e, j.m, a, evsA), Steps(j.e, j.m, b, evsB), i);
  }

  function StatusOfRun(j: Job, hw: Hw): (sts: seq<U32>)
    ensures |sts| == j.sink.count
  {
    if j.sink.first + j.sink.count <= |hw.descs| then Statuses(j.sink, hw.descs) else seq(j.sink.count, _ => 0)
  }

  lemma SameOutcome(j: Job, a: Hw, b: Hw, i: nat)
    requires JobOk(j, a) && JobOk(j, b) && a.delivered == b.delivered && i < j.sink.count
    requires Tracks(j.m, j.sink, a, Cutting(j, a)) && Tracks(j.m, j.sink, b, Cutting(j, b))
    requires !IsErr(StatusOfRun(j, a)[i]) && !IsErr(StatusOfRun(j, b)[i])
    ensures var st := StatusOfRun(j, a)[i];
            && st == StatusOfRun(j, b)[i]
            && Off(j.sink, i) + CountOf(st) <= |a.rx| && Off(j.sink, i) + CountOf(st) <= |b.rx|
            && a.rx[Off(j.sink, i)..Off(j.sink, i) + CountOf(st)] == b.rx[Off(j.sink, i)..Off(j.sink, i) + CountOf(st)]
  {
    hide RingAt, Cap, Piece, TakeAll, Items;
    var g := Cutting(j, a);
    Room(j.m, j.sink, |a.rx|, i);
    Room(j.m, j.sink, |b.rx|, i);
    if i < |g.done| {
      LandedStatus(j, a, g, i);
      LandedStatus(j, b, g, i);
    } else {
      assert Unfinished(StatusOf(j.sink, a, i), i == |g.done| && a.s2mm.phase != Running);
      assert Unfinished(StatusOf(j.sink, b, i), i == |g.done| && b.s2mm.phase != Running);
    }
  }

  // --- after the DMA was reset ---

  /** Once both channels are stopped, nothing the core or gate does reaches the evidence. */
  lemma StoppedTold(j: Job, hw: Hw, hw': Hw)
    requires Told(j, hw) && hw'.rx == hw.rx && hw'.descs == hw.descs && hw'.delivered == hw.delivered
    requires hw'.s2mm == hw.s2mm && |hw'.tx| == |hw.tx|
    ensures Told(j, hw')
  {
    hide Tracks, Avail, TakeAll, Items, Causal;
    TracksSame(j.m, j.sink, hw, hw', Cutting(j, hw));
  }
}
