// When nothing fails, nothing is reported as failed: without a bus error on the receive side the
// engine never stops early, no descriptor carries an error, and a descriptor completes without its
// TLAST only if a packet did not fit.
module Health {
  import opened Bytes
  import opened Ring
  import opened Encoder
  import opened Segment
  import opened Fabric
  import opened Sink
  import opened Run
  import opened Evidence
  import Gate

  ghost predicate NoSinkFault(evs: seq<Event>) {
    forall k | 0 <= k < |evs| :: !evs[k].SinkFault?
  }

  ghost predicate Sane(j: Job, hw: Hw) {
    Healthy(j.sink, hw, Cutting(j, hw))
  }

  lemma StepSane(j: Job, hw: Hw, ev: Event)
    requires Good(j, hw) && Sane(j, hw) && Roomy(j.sink) && !ev.SinkFault?
    ensures Sane(j, Step(j.e, j.m, hw, ev))
  {
    hide Roomy, Tracks, Avail, Causal, SinkPlan, SourcePlan, TakeAll, DescIndex, Mark, FinishDesc, RingAt, StoreItems,
         Items, Gate.Step;
    match ev
    case Clock(svalid, mready) => EdgeSane(j, hw, svalid, mready);
    case MoveByte =>
    case SourceFault(c) =>
    case SinkFault(c) => assert false;
  }

  lemma EdgeSane(j: Job, hw: Hw, svalid: bool, mready: bool)
    requires Good(j, hw) && Sane(j, hw) && Roomy(j.sink)
    ensures Sane(j, Edge(j.e, j.m, hw, svalid, mready, false, 0))
  {
    hide Roomy, Tracks, Avail, Causal, TakeAll, StoreItems, Items, Gate.Step, Cut, Healthy, Feeds, Flows, SourcePlan,
         Plan.Valid, Caps;
    var out := Gate.Given1(hw.gate, Pins(j.e, hw, svalid, mready, false, 0));
    var hw' := Edge(j.e, j.m, hw, svalid, mready, false, 0);
    CuttingCuts(j, hw);
    StoreAllHealthy(j.m, j.sink, hw, Cutting(j, hw), Items(hw.delivered), Items(out));
    ItemsConcat(hw.delivered, out);
    TakeAllConcat(Caps(j.sink), START, Items(hw.delivered), Items(out));
    SameHealth(j.sink, StoreItems(j.m, hw, Items(out)), hw', Cutting(j, hw'));
  }

  lemma SameHealth(p: Plan, a: Hw, b: Hw, g: Seg)
    requires Healthy(p, a, g) && b.s2mm == a.s2mm
    ensures Healthy(p, b, g)
  {
  }

  lemma {:induction false} StepsSane(j: Job, hw: Hw, evs: seq<Event>)
    requires Good(j, hw) && Sane(j, hw) && Roomy(j.sink) && NoSinkFault(evs)
    ensures Sane(j, Steps(j.e, j.m, hw, evs))
    decreases |evs|
  {
    hide Good, Sane, Step, Roomy;
    if evs != [] {
      StepSane(j, hw, evs[0]);
      StepKeeps(j, hw, evs[0]);
      StepsSane(j, Step(j.e, j.m, hw, evs[0]), evs[1..]);
    }
  }

  /** A sane engine has not faulted and has marked no error. */
  lemma SaneNoErr(j: Job, hw: Hw)
    requires Told(j, hw) && Sane(j, hw)
    ensures hw.s2mm.phase != Faulted && j.sink.first + j.sink.count <= |hw.descs|
    ensures forall i | 0 <= i < j.sink.count :: !IsErr(StatusOf(j.sink, hw, i))
  {
    hide TakeAll, Items, Avail, Causal, SinkPlan, SourcePlan, RingAt, BytesAt, IsErr, IsEof, Cutting, DoneStatus;
    var g := Cutting(j, hw);
    forall i | 0 <= i < j.sink.count
      ensures !IsErr(StatusOf(j.sink, hw, i))
    {
      if i < |g.done| {
        assert Landed(j.sink, hw, i, g.done[i]);
        DoneNoErr(|g.done[i]|, EndsLast(g.done[i]));
      } else {
        assert Unfinished(StatusOf(j.sink, hw, i), i == |g.done| && hw.s2mm.phase != Running);
        ZeroNoErr();
      }
    }
  }

  lemma DoneNoErr(n: nat, last: bool)
    requires n < LEN_SPAN
    ensures !IsErr(DoneStatus(n, last))
  {
  }

  lemma ZeroNoErr()
    ensures !IsErr(0)
  {
  }

  /** A stretch of a packet stream without a TLAST in it falls short of the first packet. */
  lemma Shorter(s: seq<Item>, pkts: seq<seq<Item>>, rest: seq<Item>)
    requires s <= Flat(pkts) + rest && NoLast(s)
    requires forall k | 0 <= k < |pkts| :: Framed(pkts[k])
    ensures if pkts == [] then |s| <= |rest| else |s| < |pkts[0]|
  {
    hide Flat;
    if pkts == [] {
      FlatEmpty(pkts, rest);
    } else {
      FlatHead(pkts, rest);
      if |pkts[0]| <= |s| {
        TlastWithin(s, pkts[0], Flat(pkts[1..]) + rest);
      }
    }
  }

  lemma TlastWithin(s: seq<Item>, p: seq<Item>, after: seq<Item>)
    requires Framed(p) && s <= p + after && |p| <= |s|
    ensures s[|p| - 1].last
  {
    assert s[|p| - 1] == (p + after)[|p| - 1] == p[|p| - 1];
  }

  lemma FullSegment(s: seq<Item>, cap: nat)
    requires Closed(s, cap) && !EndsLast(s)
    ensures NoLast(s) && |s| == cap
  {
    assert s == s[..|s| - 1] + [s[|s| - 1]];
  }

  /** The first descriptor that filled up without a TLAST was outgrown by its packet. */
  lemma Outgrown(j: Job, hw: Hw, k: nat)
    requires Told(j, hw) && k < j.sink.count && j.sink.first + j.sink.count <= |hw.descs|
    requires IsCmplt(StatusOf(j.sink, hw, k)) && !IsEof(StatusOf(j.sink, hw, k)) && !IsErr(StatusOf(j.sink, hw, k))
    requires forall i | 0 <= i < k :: IsEof(StatusOf(j.sink, hw, i))
    ensures var pkts := Packets(j.e, j.d, j.pixels);
            k <= |pkts| && Cap(j.sink, k) <= if k < |pkts| then |pkts[k]| - 1 else |Partial(j.e, j.d, j.pixels)|
  {
    hide Tracks, Cut, Cutting, Items, Avail, Packets, Partial, Causal, Flat, NoLast, IsEof, IsErr, IsCmplt, Framed,
         Cap, Lead, SinkPlan, SourcePlan;
    var g := Cutting(j, hw);
    var pkts, rest := Packets(j.e, j.d, j.pixels), Partial(j.e, j.d, j.pixels);
    EofMeans(j.m, j.sink, hw, g, k);
    forall i | 0 <= i < k
      ensures i < |g.done| && EndsLast(g.done[i])
    {
      EofMeans(j.m, j.sink, hw, g, i);
    }
    LeadIs(g.done, k);
    CutOfPackets(j, hw, j.pixels);
    LeadIsExact(Caps(j.sink), g, Items(hw.delivered), pkts, rest, k);
    NextStretch(j.sink, g, Items(hw.delivered), pkts, rest, k);
    Shorter(g.done[k], pkts[k..], rest);
  }

  lemma NextStretch(p: Plan, g: Seg, all: seq<Item>, pkts: seq<seq<Item>>, rest: seq<Item>, k: nat)
    requires Cut(Caps(p), g, all) && all <= Flat(pkts) + rest
    requires k < |g.done| && k <= |pkts| && g.done[..k] == pkts[..k] && !EndsLast(g.done[k])
    ensures g.done[k] <= Flat(pkts[k..]) + rest && NoLast(g.done[k]) && |g.done[k]| == Cap(p, k)
  {
    hide Flat, NoLast, Cap, EndsLast, Cut;
    CutClosed(Caps(p), g, all, k);
    FullSegment(g.done[k], Caps(p)[k]);
    FlatAt(g.done, k);
    FlatSplit(pkts, k);
    Associate(Flat(pkts[..k]), Flat(pkts[k..]), rest);
    Prefixes(Flat(pkts[..k]) + g.done[k], Flat(g.done), all, Flat(pkts[..k]) + (Flat(pkts[k..]) + rest));
    PrefixAfter(Flat(pkts[..k]), g.done[k], Flat(pkts[k..]) + rest);
  }

  lemma Prefixes<T>(a: seq<T>, b: seq<T>, c: seq<T>, d: seq<T>)
    requires a <= b <= c <= d
    ensures a <= d
  {
  }

  lemma CutClosed(caps: seq<nat>, g: Seg, all: seq<Item>, k: nat)
    requires Cut(caps, g, all) && k < |g.done|
    ensures k < |caps| && Closed(g.done[k], caps[k]) && Flat(g.done) <= all
  {
    hide Flat;
  }

  /** A ring filled to the end without any TLAST was outgrown by its one packet. */
  lemma OutgrownRing(j: Job, hw: Hw)
    requires Told(j, hw) && j.sink.chunk < LEN_SPAN && j.sink.count > 0 && j.sink.first + j.sink.count <= |hw.descs|
    requires IsCmplt(StatusOf(j.sink, hw, j.sink.count - 1))
    requires forall i | 0 <= i < j.sink.count :: !IsEof(StatusOf(j.sink, hw, i)) && !IsErr(StatusOf(j.sink, hw, i))
    ensures var pkts := Packets(j.e, j.d, j.pixels);
            j.sink.len <= if |pkts| > 0 then |pkts[0]| - 1 else |Partial(j.e, j.d, j.pixels)|
  {
    hide Tracks, Cut, Cutting, Items, Avail, Packets, Partial, Causal, Flat, NoLast, IsEof, IsErr, IsCmplt, Framed,
         SourcePlan, Off, Plan.Valid;
    var g, n := Cutting(j, hw), j.sink.count;
    InRing(j.m, j.sink, hw, g);
    EofMeans(j.m, j.sink, hw, g, n - 1);
    forall i | 0 <= i < n
      ensures !EndsLast(g.done[i])
    {
      EofMeans(j.m, j.sink, hw, g, i);
    }
    CutOfPackets(j, hw, j.pixels);
    BackToBack(j.m, j.sink, hw, g, Items(hw.delivered), n - 1, n - 1);
    WholeRing(j.m, j.sink, |hw.rx|, g, Items(hw.delivered));
    Shorter(Flat(g.done), Packets(j.e, j.d, j.pixels), Partial(j.e, j.d, j.pixels));
  }

  lemma WholeRing(m: Map, p: Plan, rxSize: nat, g: Seg, all: seq<Item>)
    requires SinkPlan(m, p, rxSize) && p.chunk < LEN_SPAN && p.count > 0 && |g.done| == p.count && Cut(Caps(p), g, all)
    requires forall i | 0 <= i < p.count :: !EndsLast(g.done[i])
    requires |Flat(g.done[..p.count - 1])| == Off(p, p.count - 1)
    ensures |Flat(g.done)| == p.len && NoLast(Flat(g.done)) && Flat(g.done) <= all
  {
    hide Flat, NoLast, EndsLast, Cap, Piece;
    var n := p.count;
    forall i | 0 <= i < n
      ensures Closed(g.done[i], Caps(p)[i])
    {
    }
    FullHasNoLast(g.done, Caps(p));
    FullSegment(g.done[n - 1], Caps(p)[n - 1]);
    FlatAt(g.done, n - 1);
    assert g.done[..n] == g.done;
    LastPiece(p, n - 1);
    CapMasks(p, n - 1);
  }
}
