// No run gets stuck: as long as nothing fails, every fair schedule finishes every run that the server
// starts, through any throttle setting it uses, to the verdict that lets the reply be OK.
module Progress {
  import opened Bytes
  import opened Ring
  import opened Encoder
  import opened Segment
  import opened Fabric
  import opened Sink
  import opened Run
  import opened Evidence
  import opened Health
  import opened Prepare
  import opened Driver
  import opened Launch
  import opened Serve
  import opened Xorshift
  import Admission
  import Gate
  import Proto

  /** A run and everything that will happen to it. */
  datatype Course = Course(j: Job, hw: Hw, pct: nat, sched: nat -> Event)

  /** The state after the first n events. */
  function At(c: Course, n: nat): Hw {
    if n == 0 then c.hw else Step(c.j.e, c.j.m, At(c, n - 1), c.sched(n - 1))
  }

  predicate IsFault(ev: Event) {
    ev.SourceFault? || ev.SinkFault?
  }

  ghost predicate MovesAfter(c: Course, n: nat) {
    exists k: nat :: k >= n && c.sched(k) == MoveByte
  }

  ghost predicate OffersAfter(c: Course, n: nat) {
    exists k: nat :: k >= n && c.sched(k).Clock? && c.sched(k).svalid
  }

  ghost predicate TakesAfter(c: Course, n: nat) {
    exists k: nat :: k >= n && c.sched(k).Clock? && c.sched(k).mready
  }

  /** The core shows a beat at this edge. */
  predicate Shows(e: Encoder, hw: Hw, ev: Event) {
    ev.Clock? && ev.svalid && hw.core.emitted < |Avail(e, hw.core.dims, hw.core.fed)|
  }

  /** The gate takes it. */
  predicate Accepted(e: Encoder, hw: Hw, ev: Event) {
    ev.Clock? && Gate.Accepts(hw.gate, Pins(e, hw, ev.svalid, ev.mready, false, 0))
  }

  /** A beat shown at event n has not been taken when event k comes. */
  ghost predicate Pending(c: Course, n: nat, k: nat) {
    && Shows(c.j.e, At(c, n), c.sched(n))
    && forall i: nat | n <= i < k :: !Accepted(c.j.e, At(c, i), c.sched(i))
  }

  /** No bus error; MM2S moves, the core shows its output and S2MM is ready again and again, however
      rarely; and a beat once shown stays up until it is taken (section 2.2 of ARM IHI 0051A). */
  ghost predicate Fair(c: Course) {
    && (forall n: nat :: !IsFault(c.sched(n)))
    && (forall n: nat :: MovesAfter(c, n))
    && (forall n: nat :: OffersAfter(c, n))
    && (forall n: nat :: TakesAfter(c, n))
    && (forall n: nat, k: nat :: n < k && Pending(c, n, k) && c.sched(k).Clock? ==> c.sched(k).svalid)
  }

  /** Fairness asks nothing impossible: taking turns is fair to every run. */
  lemma TurnsAreFair(j: Job, hw: Hw, pct: nat)
    ensures Fair(Course(j, hw, pct, n => if n % 2 == 0 then MoveByte else Clock(true, true)))
  {
    hide At, Step, Shows, Accepted;
    var c := Course(j, hw, pct, n => if n % 2 == 0 then MoveByte else Clock(true, true));
    forall n: nat
      ensures MovesAfter(c, n) && OffersAfter(c, n) && TakesAfter(c, n)
    {
      assert c.sched(2 * n) == MoveByte && c.sched(2 * n + 1) == Clock(true, true);
    }
  }

  // --- every moment of a fair run ---

  lemma StepLive(j: Job, hw: Hw, pct: nat, ev: Event)
    requires Live(j, hw, pct) && !IsFault(ev)
    ensures Live(j, Step(j.e, j.m, hw, ev), pct)
    ensures |Step(j.e, j.m, hw, ev).core.fed| >= |hw.core.fed|
    ensures hw.mm2s.phase == Idle ==> Step(j.e, j.m, hw, ev).mm2s.phase == Idle
    ensures hw.mm2s.phase == Running && ev == MoveByte ==> |Step(j.e, j.m, hw, ev).core.fed| > |hw.core.fed|
  {
    StepKeeps(j, hw, ev);
    StepSane(j, hw, ev);
    StepSeeded(j.e, j.m, hw, ev, pct);
    StepSizes(j.e, j.m, hw, ev);
    hide Good, Sane, Seeded, Roomy, Edge;
    if ev == MoveByte && hw.mm2s.phase == Running {
      FedRuns(j, hw);
    } else if ev.Clock? {
      EdgeFeeds(j.e, j.m, hw, ev.svalid, ev.mready);
    }
  }

  lemma EdgeFeeds(e: Encoder, m: Map, hw: Hw, svalid: bool, mready: bool)
    ensures Edge(e, m, hw, svalid, mready, false, 0).core.fed == hw.core.fed
  {
    hide StoreItems, Items, Avail, Gate.Step;
  }

  lemma FedRuns(j: Job, hw: Hw)
    requires Good(j, hw) && hw.mm2s.phase == Running
    ensures var hw' := FeedByte(j.m, hw);
            && (hw'.mm2s.phase == Running || hw'.mm2s.phase == Idle)
            && |hw'.core.fed| == |hw.core.fed| + 1 && |hw.core.fed| < |j.pixels|
  {
    hide Causal, DescIndex, FinishDesc, BufOf, LenOf, DoneStatus, RingAt, SinkPlan, SourcePlan, Tracks, Flows;
    FeedIs(j, hw);
  }

  /** No fault, so the run stays live, and pixels once fed stay fed. */
  lemma {:induction false} LaterLive(c: Course, n: nat, k: nat)
    requires Live(c.j, At(c, n), c.pct) && Fair(c) && n <= k
    ensures Live(c.j, At(c, k), c.pct) && |At(c, k).core.fed| >= |At(c, n).core.fed|
    ensures At(c, n).mm2s.phase == Idle ==> At(c, k).mm2s.phase == Idle
    decreases k
  {
    hide Live, Step;
    if n < k {
      LaterLive(c, n, k - 1);
      StepLive(c.j, At(c, k - 1), c.pct, c.sched(k - 1));
    }
  }

  // --- all pixels into the core ---

  lemma AllFed(c: Course, n: nat) returns (k: nat)
    requires Live(c.j, At(c, n), c.pct) && Fair(c)
    ensures k >= n && Live(c.j, At(c, k), c.pct) && At(c, k).mm2s.phase == Idle
    decreases |c.j.pixels| - |At(c, n).core.fed|
  {
    hide Good, Sane, Seeded, Roomy, Step, At;
    if At(c, n).mm2s.phase == Idle {
      k := n;
    } else {
      assert MovesAfter(c, n);
      var m: nat :| m >= n && c.sched(m) == MoveByte;
      LaterLive(c, n, m);
      if At(c, m).mm2s.phase == Idle {
        k := m;
      } else {
        StepLive(c.j, At(c, m), c.pct, MoveByte);
        AfterOne(c, m);
        FedWithin(c.j, At(c, n));
        FedWithin(c.j, At(c, m + 1));
        k := AllFed(c, m + 1);
      }
    }
  }

  lemma AfterOne(c: Course, n: nat)
    ensures At(c, n + 1) == Step(c.j.e, c.j.m, At(c, n), c.sched(n))
  {
  }

  lemma FedWithin(j: Job, hw: Hw)
    requires Good(j, hw)
    ensures |hw.core.fed| <= |j.pixels|
  {
    hide Causal, SinkPlan, SourcePlan, Tracks, Flows, RingAt;
  }

  // --- through the gate ---

  /** Work left: two per beat not delivered, less one for a beat already in the gate. */
  function Left(j: Job, hw: Hw): int {
    2 * (|Avail(j.e, j.d, j.pixels)| - |hw.delivered|) - |Gate.Held(hw.gate)|
  }

  ghost predicate Fed(j: Job, hw: Hw) {
    Flows(j, hw) && hw.core.dims == j.d && hw.core.fed == j.pixels
  }

  lemma FedWhole(j: Job, hw: Hw)
    requires Good(j, hw) && hw.mm2s.phase == Idle
    ensures Fed(j, hw)
  {
    hide Causal, SinkPlan, SourcePlan, Tracks, Flows, RingAt;
  }

  lemma LeftIsNone(j: Job, hw: Hw)
    requires Fed(j, hw)
    ensures Left(j, hw) >= 0
    ensures Left(j, hw) == 0 ==> hw.delivered == Avail(j.e, j.d, j.pixels)
    ensures Left(j, hw) > 0 && !hw.gate.valid ==> hw.core.emitted < |Avail(j.e, hw.core.dims, hw.core.fed)|
  {
    hide Avail;
    var avail := Avail(j.e, j.d, j.pixels);
    assert |hw.delivered + Gate.Held(hw.gate)| == hw.core.emitted;
  }

  /** Nothing moved between core, gate and S2MM. */
  ghost predicate SameFlow(a: Hw, b: Hw) {
    b.delivered == a.delivered && b.gate.valid == a.gate.valid && b.core == a.core
  }

  /** An event never adds work. It does some whenever the gate takes a beat or hands one over. */
  lemma StepLeft(j: Job, hw: Hw, ev: Event)
    requires Fed(j, hw) && !IsFault(ev) && hw.mm2s.phase == Idle
    ensures var hw' := Step(j.e, j.m, hw, ev);
            && Left(j, hw') <= Left(j, hw)
            && (Left(j, hw') == Left(j, hw) ==> SameFlow(hw, hw'))
            && (Accepted(j.e, hw, ev) ==> Left(j, hw') < Left(j, hw))
            && (ev.Clock? && ev.mready && hw.gate.valid && hw.s2mm.phase == Running ==> Left(j, hw') < Left(j, hw))
            && (hw.s2mm.phase != Running ==> hw'.s2mm.phase != Running)
  {
    hide Avail, StoreItems, Items, Next, Draw;
    if ev.Clock? {
      var out := Gate.Given1(hw.gate, Pins(j.e, hw, ev.svalid, ev.mready, false, 0));
      StoreTouches(j.m, hw, Items(out));
      if hw.s2mm.phase != Running {
        DeliverNothing(j.m, hw);
      }
    }
  }

  lemma {:induction false} LaterLeft(c: Course, n: nat, k: nat)
    requires Live(c.j, At(c, n), c.pct) && Fair(c) && n <= k && At(c, n).mm2s.phase == Idle
    ensures Left(c.j, At(c, k)) <= Left(c.j, At(c, n))
    ensures Left(c.j, At(c, k)) == Left(c.j, At(c, n)) ==> SameFlow(At(c, n), At(c, k))
    ensures At(c, n).s2mm.phase != Running ==> At(c, k).s2mm.phase != Running
    decreases k
  {
    hide Good, Sane, Seeded, Roomy, Step, Left, Fed;
    if n < k {
      LaterLeft(c, n, k - 1);
      LaterLive(c, n, k - 1);
      FedWhole(c.j, At(c, k - 1));
      StepLeft(c.j, At(c, k - 1), c.sched(k - 1));
    }
  }

  /** An edge turns the generator; nothing else touches the gate's pace. */
  lemma StepDraws(e: Encoder, m: Map, hw: Hw, ev: Event)
    requires !IsFault(ev)
    ensures var g, g' := hw.gate, Step(e, m, hw, ev).gate;
            && g'.thresh == g.thresh
            && (if ev.Clock? then g'.random == Next(g.random) && (g'.open <==> Draw(g.random) < g.thresh) else g' == g)
  {
    hide StoreItems, Items, Avail, Next, Draw, DescIndex, Gate.Step;
    if ev.Clock? {
      Gate.UndisturbedEdge(hw.gate, Pins(e, hw, ev.svalid, ev.mready, false, 0));
    }
  }

  /** The next edge of the stream clock. */
  lemma {:induction false} NextEdge(c: Course, n: nat, bound: nat) returns (k: nat)
    requires (forall i: nat :: !IsFault(c.sched(i))) && n <= bound && c.sched(bound).Clock?
    ensures n <= k <= bound && c.sched(k).Clock? && At(c, k).gate == At(c, n).gate
    decreases bound - n
  {
    hide Step;
    if c.sched(n).Clock? {
      k := n;
    } else {
      StepDraws(c.j.e, c.j.m, At(c, n), c.sched(n));
      AfterOne(c, n);
      k := NextEdge(c, n + 1, bound);
    }
  }

  lemma EdgeAfter(c: Course, n: nat) returns (k: nat)
    requires Fair(c)
    ensures k >= n && c.sched(k).Clock? && At(c, k).gate == At(c, n).gate
  {
    hide At;
    assert TakesAfter(c, n);
    var bound: nat :| bound >= n && c.sched(bound).Clock? && c.sched(bound).mready;
    k := NextEdge(c, n, bound);
  }

  /** From one percent up there is always another edge at which the gate is open. */
  lemma OpensAgain(c: Course, n: nat) returns (k: nat)
    requires Fair(c) && Seeded(At(c, n).gate, c.pct) && 1 <= c.pct <= 100
    ensures k >= n && c.sched(k).Clock? && At(c, k).gate.open
  {
    hide At, Next, Draw, Orbit, Fair;
    var i: nat :| At(c, n).gate.random == Orbit(SEED, i);
    var target := Recurs(SEED, 4, i);
    FifthDraw();
    k := OpensAt(c, n, i, target);
  }

  lemma {:induction false} OpensAt(c: Course, n: nat, i: nat, target: nat) returns (k: nat)
    requires Fair(c) && At(c, n).gate.random == Orbit(SEED, i) && i <= target
    requires Draw(Orbit(SEED, target)) < At(c, n).gate.thresh
    ensures k >= n && c.sched(k).Clock? && At(c, k).gate.open
    decreases target - i
  {
    hide At, Next, Draw, Step;
    var edge := EdgeAfter(c, n);
    StepDraws(c.j.e, c.j.m, At(c, edge), c.sched(edge));
    AfterOne(c, edge);
    if i == target {
      k := EdgeAfter(c, edge + 1);
    } else {
      k := OpensAt(c, edge + 1, i + 1, target);
    }
  }

  /** The receive ring has stopped, or there is less left to do. */
  ghost predicate Ahead(j: Job, hw: Hw, late: Hw) {
    late.s2mm.phase != Running || Left(j, late) < Left(j, hw)
  }

  /** A held beat is handed over sooner or later. */
  lemma HandsOver(c: Course, n: nat) returns (k: nat)
    requires Live(c.j, At(c, n), c.pct) && Fair(c) && At(c, n).mm2s.phase == Idle && At(c, n).gate.valid
    ensures k >= n && Ahead(c.j, At(c, n), At(c, k))
  {
    hide Good, Sane, Seeded, Roomy, Step, Left, Fed, At;
    assert TakesAfter(c, n);
    var edge: nat :| edge >= n && c.sched(edge).Clock? && c.sched(edge).mready;
    LaterLive(c, n, edge);
    LaterLeft(c, n, edge);
    FedWhole(c.j, At(c, edge));
    StepLeft(c.j, At(c, edge), c.sched(edge));
    AfterOne(c, edge);
    k := if Ahead(c.j, At(c, n), At(c, edge)) then edge else edge + 1;
  }

  /** With beats to come and none held, one is taken sooner or later. */
  lemma TakesIn(c: Course, n: nat) returns (k: nat)
    requires Live(c.j, At(c, n), c.pct) && Fair(c) && At(c, n).mm2s.phase == Idle && 1 <= c.pct <= 100
    requires !At(c, n).gate.valid && Left(c.j, At(c, n)) > 0
    ensures k >= n && Left(c.j, At(c, k)) < Left(c.j, At(c, n))
  {
    hide Good, Sane, Seeded, Roomy, Step, Left, Fed, At, Avail;
    assert OffersAfter(c, n);
    var show: nat :| show >= n && c.sched(show).Clock? && c.sched(show).svalid;
    LaterLive(c, n, show);
    LaterLeft(c, n, show);
    var open := OpensAgain(c, show);
    LaterLive(c, n, open);
    LaterLeft(c, n, open);
    LaterLeft(c, show, open);
    AfterOne(c, open);
    FedWhole(c.j, At(c, n));
    LeftIsNone(c.j, At(c, n));
    if Left(c.j, At(c, open)) < Left(c.j, At(c, n)) {
      k := open;
    } else {
      NoneAccepted(c, n, open);
      assert Pending(c, show, open);
      assert c.sched(open).svalid;
      FedWhole(c.j, At(c, open));
      AcceptsNow(c.j.e, At(c, open), c.sched(open));
      StepLeft(c.j, At(c, open), c.sched(open));
      k := open + 1;
    }
  }

  lemma AcceptsNow(e: Encoder, hw: Hw, ev: Event)
    requires Shows(e, hw, ev) && hw.gate.open && !hw.gate.valid
    ensures Accepted(e, hw, ev)
  {
    hide Avail;
  }

  lemma NoneAccepted(c: Course, n: nat, k: nat)
    requires Live(c.j, At(c, n), c.pct) && Fair(c) && n <= k && At(c, n).mm2s.phase == Idle
    requires Left(c.j, At(c, k)) >= Left(c.j, At(c, n))
    ensures forall i: nat | n <= i < k :: !Accepted(c.j.e, At(c, i), c.sched(i))
  {
    hide Good, Sane, Seeded, Roomy, Step, Left, Fed, At, Accepted;
    forall i: nat | n <= i < k
      ensures !Accepted(c.j.e, At(c, i), c.sched(i))
    {
      LaterLive(c, n, i);
      LaterLeft(c, n, i);
      FedWhole(c.j, At(c, i));
      StepLeft(c.j, At(c, i), c.sched(i));
      AfterOne(c, i);
      LaterLive(c, n, i + 1);
      LaterLeft(c, i + 1, k);
    }
  }

  /** Both ends of the stream: everything delivered, or the receive ring closed. */
  ghost predicate Over(j: Job, hw: Hw) {
    hw.delivered == Avail(j.e, j.d, j.pixels) || hw.s2mm.phase != Running
  }

  lemma Drained(c: Course, n: nat) returns (k: nat)
    requires Live(c.j, At(c, n), c.pct) && Fair(c) && At(c, n).mm2s.phase == Idle && 1 <= c.pct <= 100
    ensures k >= n && Live(c.j, At(c, k), c.pct) && At(c, k).mm2s.phase == Idle && Over(c.j, At(c, k))
    decreases Left(c.j, At(c, n))
  {
    hide Live, Good, Left, Fed, At, Avail, Fair;
    LiveParts(c.j, At(c, n), c.pct);
    FedWhole(c.j, At(c, n));
    LeftIsNone(c.j, At(c, n));
    if Left(c.j, At(c, n)) == 0 || At(c, n).s2mm.phase != Running {
      k := n;
    } else {
      var next;
      if At(c, n).gate.valid {
        next := HandsOver(c, n);
      } else {
        next := TakesIn(c, n);
      }
      LaterLive(c, n, next);
      if At(c, next).s2mm.phase != Running {
        k := next;
      } else {
        LiveParts(c.j, At(c, next), c.pct);
        FedWhole(c.j, At(c, next));
        LeftIsNone(c.j, At(c, next));
        k := Drained(c, next);
      }
    }
  }

  /** What is over stays over. */
  lemma StaysOver(c: Course, n: nat, k: nat)
    requires Live(c.j, At(c, n), c.pct) && Fair(c) && n <= k && At(c, n).mm2s.phase == Idle && Over(c.j, At(c, n))
    ensures Live(c.j, At(c, k), c.pct) && Over(c.j, At(c, k))
  {
    hide Good, Sane, Seeded, Roomy, Fed, At, Avail, Fair;
    LaterLive(c, n, k);
    LaterLeft(c, n, k);
    FedWhole(c.j, At(c, n));
    FedWhole(c.j, At(c, k));
    if At(c, n).s2mm.phase == Running {
      DeliveredAll(c.j, At(c, n), At(c, k));
    }
  }

  lemma DeliveredAll(j: Job, hw: Hw, late: Hw)
    requires Fed(j, hw) && Fed(j, late) && hw.delivered == Avail(j.e, j.d, j.pixels) && Left(j, late) <= Left(j, hw)
    ensures late.delivered == Avail(j.e, j.d, j.pixels)
  {
    hide Avail;
    LeftIsNone(j, hw);
    LeftIsNone(j, late);
    assert hw.delivered + Gate.Held(hw.gate) == Avail(j.e, j.d, j.pixels)[..hw.core.emitted];
  }

  // --- to a verdict ---

  /** The end of a fair run: from some moment on it is over, and stays so. */
  lemma Ends(c: Course) returns (n: nat)
    requires Live(c.j, c.hw, c.pct) && Fair(c) && 1 <= c.pct <= 100
    ensures forall k: nat | k >= n :: Live(c.j, At(c, k), c.pct) && Over(c.j, At(c, k))
  {
    hide Live, Over, Fair, Step;
    assert At(c, 0) == c.hw;
    var fed := AllFed(c, 0);
    n := Drained(c, fed);
    forall k: nat | k >= n
      ensures Live(c.j, At(c, k), c.pct) && Over(c.j, At(c, k))
    {
      StaysOver(c, n, k);
    }
  }

  /** Every fair stream run, at any percentage from one up, reaches a moment from which on every look at it
      is one that axidma_wait_packets accepts, if each packet fits its slot. */
  lemma StreamFinishes(c: Course) returns (n: nat)
    requires Live(c.j, c.hw, c.pct) && Fair(c) && 1 <= c.pct <= 100 && PacketsFit(c.j) && c.j.sink.count > 0
    ensures forall k: nat | k >= n :: AllOnTlast(c.j.sink, At(c, k))
  {
    hide Live, Fair, PacketsFit, AllOnTlast, Over, At;
    n := Ends(c);
    forall k: nat | k >= n
      ensures AllOnTlast(c.j.sink, At(c, k))
    {
      LiveParts(c.j, At(c, k), c.pct);
      OverIsDone(c.j, At(c, k));
    }
  }

  /** Once the stream is over, every packet that fits has closed its descriptor. */
  lemma OverIsDone(j: Job, hw: Hw)
    requires Good(j, hw) && Sane(j, hw) && PacketsFit(j) && Over(j, hw) && j.sink.count > 0
    ensures AllOnTlast(j.sink, hw)
  {
    hide Good, Told, Sane, IsErr, IsEof, IsCmplt, Over, PacketsFit, Tracks, Cutting;
    GoodTold(j, hw);
    SaneNoErr(j, hw);
    NothingWrongStream(j, hw);
    var sts := Statuses(j.sink, hw.descs);
    AllClose(j, hw);
    TracksOf(j, hw);
    var g := Cutting(j, hw);
    forall i | 0 <= i < j.sink.count
      ensures IsCmplt(sts[i]) && !IsErr(sts[i])
    {
      EofMeans(j.m, j.sink, hw, g, i);
      assert sts[i] == StatusOf(j.sink, hw, i);
    }
    NoneBad(sts, j.sink.count);
  }

  lemma {:induction false} NoneBad(sts: seq<U32>, n: nat)
    requires n <= |sts| && !(exists i :: BadAt(sts, i))
    ensures EachOnTlast(sts, n)
  {
    hide IsErr, IsEof, IsCmplt;
    if n > 0 {
      NoneBad(sts, n - 1);
      assert !BadAt(sts, n - 1);
    }
  }

  lemma AllClose(j: Job, hw: Hw)
    requires Good(j, hw) && Sane(j, hw) && PacketsFit(j) && Over(j, hw)
    ensures |Cutting(j, hw).done| == j.sink.count
  {
    hide Tracks, Avail, Causal, SinkPlan, SourcePlan, TakeAll, Items, Flows, Feeds, Packets, ImageBytes, Plan.Valid;
    if hw.s2mm.phase == Running {
      AllInRing(j, hw);
    }
  }

  /** An engine that has stored the whole stream has closed a descriptor for each packet. */
  lemma AllInRing(j: Job, hw: Hw)
    requires Good(j, hw) && Sane(j, hw) && PacketsFit(j) && hw.delivered == Avail(j.e, j.d, j.pixels)
    ensures |Cutting(j, hw).done| == j.sink.count
  {
    hide Good, Told, Sane, Avail, Causal, Cutting, Items, Packets, Partial, ImageBytes, Flat, Cut, Stuck, Tracks,
         PacketsFit, Framed, NoLast, Roomy;
    var g := Cutting(j, hw);
    var pkts := Packets(j.e, j.d, j.pixels);
    GoodTold(j, hw);
    FitParts(j, hw);
    AvailItems(j.e, j.d, j.pixels);
    WholeImages(j.e, j.d, j.pixels, j.sink.count);
    CuttingCuts(j, hw);
    StuckIsFull(j.sink, g);
    DoneEnds(j, hw);
    LeadIs(g.done, |g.done|);
    CutOfPackets(j, hw, j.pixels);
    LeadIsExact(Caps(j.sink), g, Items(hw.delivered), pkts, [], |g.done|);
    assert g.done[..|g.done|] == g.done;
    OpenRest(Caps(j.sink), g, Items(hw.delivered), pkts);
  }

  lemma FitParts(j: Job, hw: Hw)
    requires Told(j, hw) && PacketsFit(j)
    ensures Causal(j.e) && j.sink.Valid() && Roomy(j.sink) && ImageBytes(j.d) > 0
    ensures |j.pixels| == j.sink.count * ImageBytes(j.d)
    ensures |Cutting(j, hw).done| <= j.sink.count
  {
    hide Causal, Plan.Valid, Cutting, Packets, ImageBytes, Roomy;
    WholeRoomy(j.sink);
  }

  /** No descriptor of a sane run closes without its TLAST. */
  lemma DoneEnds(j: Job, hw: Hw)
    requires Good(j, hw) && Sane(j, hw) && PacketsFit(j)
    ensures var g := Cutting(j, hw); forall i | 0 <= i < |g.done| :: EndsLast(g.done[i])
  {
    hide Good, Told, Sane, IsErr, IsEof, IsCmplt, PacketsFit, Tracks, Cutting, EndsLast;
    var g := Cutting(j, hw);
    GoodTold(j, hw);
    SaneNoErr(j, hw);
    NothingWrongStream(j, hw);
    TracksOf(j, hw);
    var sts := Statuses(j.sink, hw.descs);
    NoneBad(sts, j.sink.count);
    forall i | 0 <= i < |g.done|
      ensures EndsLast(g.done[i])
    {
      EofMeans(j.m, j.sink, hw, g, i);
      assert sts[i] == StatusOf(j.sink, hw, i);
    }
  }

  lemma OpenRest(caps: seq<nat>, g: Seg, all: seq<Item>, pkts: seq<seq<Item>>)
    requires Cut(caps, g, all) && all == Flat(pkts) + []
    requires |g.done| <= |pkts| && g.done == pkts[..|g.done|]
    requires forall k | 0 <= k < |pkts| :: Framed(pkts[k])
    ensures Stuck(caps, g) || |g.done| == |pkts|
  {
    hide Flat, NoLast, Framed;
    var n := |g.done|;
    if !Stuck(caps, g) && n < |pkts| {
      FlatSplit(pkts, n);
      assert Flat(pkts) + [] == Flat(pkts);
      SameTail(Flat(g.done), g.cur, Flat(pkts[n..]));
      FlatHead(pkts[n..], []);
      assert Flat(pkts[n..]) + [] == Flat(pkts[n..]);
      Shorter(g.cur, pkts[n..], []);
    }
  }

  lemma SameTail<T>(a: seq<T>, b: seq<T>, c: seq<T>)
    requires a + b == a + c
    ensures b == c
  {
    assert b == (a + b)[|a|..];
  }

  // --- one image ---

  /** The same for one image over the whole buffer, and what axidma_wait accepts. */
  lemma SingleFinishes(c: Course) returns (n: nat)
    requires Live(c.j, c.hw, c.pct) && Fair(c) && 1 <= c.pct <= 100 && PacketFits(c.j) && c.j.sink.count > 0
    requires c.j.sink.chunk < LEN_SPAN
    ensures forall k: nat | k >= n :: SomeTlast(c.j.sink, At(c, k))
  {
    hide Live, Fair, PacketFits, SomeTlast, Over, At;
    n := Ends(c);
    forall k: nat | k >= n
      ensures SomeTlast(c.j.sink, At(c, k))
    {
      LiveParts(c.j, At(c, k), c.pct);
      OverHasTlast(c.j, At(c, k));
    }
  }

  lemma OverHasTlast(j: Job, hw: Hw)
    requires Good(j, hw) && Sane(j, hw) && PacketFits(j) && Over(j, hw) && j.sink.count > 0 && j.sink.chunk < LEN_SPAN
    ensures SomeTlast(j.sink, hw)
  {
    hide Good, Told, Sane, IsErr, IsEof, IsCmplt, Over, PacketFits, Tracks, Cutting, FirstEofAt;
    GoodTold(j, hw);
    SaneNoErr(j, hw);
    NothingWrongSingle(j, hw);
    var sts := Statuses(j.sink, hw.descs);
    forall i | 0 <= i < j.sink.count
      ensures !IsErr(sts[i])
    {
      assert sts[i] == StatusOf(j.sink, hw, i);
    }
    TlastOrNone(sts, j.sink.count);
    if NoneSpoke(sts, j.sink.count) {
      SilentIsFull(j, hw);
      EofMeans(j.m, j.sink, hw, Cutting(j, hw), j.sink.count - 1);
    }
  }

  lemma {:induction false} TlastOrNone(sts: seq<U32>, n: nat)
    requires n <= |sts| && forall i | 0 <= i < |sts| :: !IsErr(sts[i])
    ensures NoneSpoke(sts, n) || exists i :: FirstEofAt(sts, i)
  {
    hide IsErr, IsEof;
    if n > 0 {
      TlastOrNone(sts, n - 1);
      if NoneSpoke(sts, n - 1) && IsEof(sts[n - 1]) {
        assert FirstEofAt(sts, n - 1);
      }
    }
  }

  /** If the stream is over and no descriptor reports a TLAST, the whole ring is full. */
  lemma SilentIsFull(j: Job, hw: Hw)
    requires Good(j, hw) && Sane(j, hw) && PacketFits(j) && Over(j, hw) && j.sink.chunk < LEN_SPAN
    requires j.sink.first + j.sink.count <= |hw.descs| && NoneSpoke(Statuses(j.sink, hw.descs), j.sink.count)
    ensures |Cutting(j, hw).done| == j.sink.count
    ensures Tracks(j.m, j.sink, hw, Cutting(j, hw))
  {
    hide Good, Told, IsErr, IsEof, IsCmplt, PacketFits, Tracks, Cutting, Items, Avail, Packets, Partial, Causal,
         ImageBytes, Flat, Cut, Stuck, NoLast, EndsLast, Framed, Roomy;
    var g := Cutting(j, hw);
    GoodTold(j, hw);
    TracksOf(j, hw);
    if hw.s2mm.phase == Running {
      forall i | 0 <= i < |g.done|
        ensures !EndsLast(g.done[i])
      {
        assert !IsEof(Statuses(j.sink, hw.descs)[i]);
        EofMeans(j.m, j.sink, hw, g, i);
      }
      OnePacket(j, hw);
      CutOfPackets(j, hw, j.pixels);
      ShortIsRoomy(j.sink);
      StuckIsFull(j.sink, g);
      OpenIsShort(j.sink, g, Items(hw.delivered), Packets(j.e, j.d, j.pixels)[0]);
    }
  }

  lemma OnePacket(j: Job, hw: Hw)
    requires Told(j, hw) && PacketFits(j) && hw.delivered == Avail(j.e, j.d, j.pixels)
    ensures |Packets(j.e, j.d, j.pixels)| > 0 && Framed(Packets(j.e, j.d, j.pixels)[0])
    ensures Items(hw.delivered) == Packets(j.e, j.d, j.pixels)[0]
    ensures j.sink.Valid() && Causal(j.e)
  {
    hide Tracks, Causal, Avail, Packet, Plan.Valid, SourcePlan, PacketBytes, ImageBytes, Framed;
    AvailItems(j.e, j.d, j.pixels);
    assert |j.pixels| == 1 * ImageBytes(j.d);
    WholeImages(j.e, j.d, j.pixels, 1);
    var pkts := Packets(j.e, j.d, j.pixels);
    FlatHead(pkts, []);
    assert pkts[1..] == [];
    FlatEmpty(pkts[1..], []);
    assert Flat(pkts) + [] == Flat(pkts) && pkts[0] + [] == pkts[0];
  }

  lemma FramedEnds(s: seq<Item>)
    requires Framed(s)
    ensures !NoLast(s)
  {
    assert s[|s| - 1].last;
  }

  lemma OpenIsShort(p: Plan, g: Seg, all: seq<Item>, packet: seq<Item>)
    requires Cut(Caps(p), g, all) && all == packet && Framed(packet)
    requires forall i | 0 <= i < |g.done| :: !EndsLast(g.done[i])
    ensures Stuck(Caps(p), g)
  {
    hide Flat, EndsLast, Cap, Framed, NoLast;
    FramedEnds(packet);
    if !Stuck(Caps(p), g) {
      FullHasNoLast(g.done, Caps(p)[..|g.done|]);
      NoLastConcat(Flat(g.done), g.cur);
    }
  }

  // --- in time ---

  /** Action at + k plays the events of the schedule from number cut(k) on. */
  ghost predicate PlaysAt(script: nat -> Poll, at: nat, sched: nat -> Event, cut: nat -> nat, k: nat) {
    var evs := script(at + k).events;
    cut(k + 1) == cut(k) + |evs| && forall i | 0 <= i < |evs| :: evs[i] == sched(cut(k) + i)
  }

  ghost predicate Reaches(cut: nat -> nat, n: nat) {
    exists k: nat :: cut(k) >= n
  }

  /** From action `at` on, the script plays the whole schedule. */
  ghost predicate Plays(script: nat -> Poll, at: nat, sched: nat -> Event, cut: nat -> nat) {
    cut(0) == 0 && (forall k: nat :: PlaysAt(script, at, sched, cut, k)) && forall n: nat :: Reaches(cut, n)
  }

  lemma {:induction false} StepsAt(c: Course, n: nat, evs: seq<Event>)
    requires forall i | 0 <= i < |evs| :: evs[i] == c.sched(n + i)
    ensures Steps(c.j.e, c.j.m, At(c, n), evs) == At(c, n + |evs|)
    decreases |evs|
  {
    hide Step, At;
    if evs != [] {
      AfterOne(c, n);
      assert evs[0] == c.sched(n + 0);
      forall i | 0 <= i < |evs| - 1
        ensures evs[1..][i] == c.sched(n + 1 + i)
      {
        assert evs[i + 1] == c.sched(n + (i + 1));
      }
      StepsAt(c, n + 1, evs[1..]);
    }
  }

  lemma {:induction false} RanIsAt(c: Course, script: nat -> Poll, at: nat, cut: nat -> nat, k: nat)
    requires Plays(script, at, c.sched, cut)
    ensures Ran(Watch(c.j.e, c.j.m, c.j.sink, c.hw, at), script, at + k) == At(c, cut(k))
  {
    hide Steps, At, Ran;
    var w := Watch(c.j.e, c.j.m, c.j.sink, c.hw, at);
    if k == 0 {
      Beginning(c, w, script);
    } else {
      RanIsAt(c, script, at, cut, k - 1);
      assert PlaysAt(script, at, c.sched, cut, k - 1);
      StepsAt(c, cut(k - 1), script(at + (k - 1)).events);
      OneAction(w, script, at + (k - 1));
    }
  }

  lemma Beginning(c: Course, w: Watch, script: nat -> Poll)
    ensures At(c, 0) == c.hw && Ran(w, script, w.at) == w.hw
  {
  }

  lemma OneAction(w: Watch, script: nat -> Poll, b: nat)
    requires b >= w.at
    ensures Ran(w, script, b + 1) == Steps(w.e, w.m, Ran(w, script, b), script(b).events)
  {
    hide Steps;
  }

  lemma {:induction false} CutGrows(script: nat -> Poll, at: nat, sched: nat -> Event, cut: nat -> nat, i: nat, k: nat)
    requires Plays(script, at, sched, cut) && i <= k
    ensures cut(i) <= cut(k)
    decreases k
  {
    if i < k {
      CutGrows(script, at, sched, cut, i, k - 1);
      assert PlaysAt(script, at, sched, cut, k - 1);
    }
  }

  /** A run that is under way, over a script that plays a fair schedule, is seen to end by every wait that
      is long enough. So on such a board no admitted request that fits is overdue for ever. */
  lemma FairInTime(req: Proto.Hdr, j: Job, hw: Hw, at: nat, script: nat -> Poll, sched: nat -> Event, cut: nat -> nat)
      returns (enough: nat)
    requires UnderWay(req, j, hw) && 1 <= PctOf(req) <= 100
    requires Fair(Course(j, hw, PctOf(req), sched)) && Plays(script, at, sched, cut)
    ensures forall timeout: int :: timeout >= enough ==>
              InTime(GoalOf(req), Watch(j.e, j.m, j.sink, hw, at), script, timeout)
  {
    hide Live, Fair, PacketsFit, PacketFits, At, Meets, Elapsed;
    var c := Course(j, hw, PctOf(req), sched);
    var w := Watch(j.e, j.m, j.sink, hw, at);
    var n := Finishes(req, c);
    assert Reaches(cut, n);
    var k: nat :| cut(k) >= n;
    CutGrows(script, at, sched, cut, k, 2 * k + 2);
    RanIsAt(c, script, at, cut, 2 * k + 2);
    assert at + (2 * k + 2) == w.at + 2 * k + 2;
    enough := Elapsed(script, at, at + 2 * k);
    forall timeout: int | timeout >= enough
      ensures InTime(GoalOf(req), w, script, timeout)
    {
      assert SeenAt(GoalOf(req), w, script, timeout, k);
    }
  }

  lemma Finishes(req: Proto.Hdr, c: Course) returns (n: nat)
    requires UnderWay(req, c.j, c.hw) && c.pct == PctOf(req) && 1 <= c.pct <= 100 && Fair(c)
    ensures forall k: nat | k >= n :: Meets(GoalOf(req), c.j.sink, At(c, k))
  {
    hide Live, Fair, PacketsFit, PacketFits, At, AllOnTlast, SomeTlast;
    if Admission.IsStream(req) {
      n := StreamFinishes(c);
    } else {
      n := SingleFinishes(c);
    }
  }

  /** Such scripts exist for every run: in each action MM2S moves a byte and the stream clock ticks. */
  lemma TurnsInTime(req: Proto.Hdr, j: Job, hw: Hw, at: nat) returns (script: nat -> Poll, enough: nat)
    requires UnderWay(req, j, hw) && 1 <= PctOf(req) <= 100
    ensures Calm(script, 0)
    ensures forall timeout: int :: timeout >= enough ==>
              InTime(GoalOf(req), Watch(j.e, j.m, j.sink, hw, at), script, timeout)
  {
    hide UnderWay, Fair, InTime;
    script := k => Poll([MoveByte, Clock(true, true)], 1, false, false, false, Clock(true, true));
    var sched: nat -> Event := n => if n % 2 == 0 then MoveByte else Clock(true, true);
    var cut: nat -> nat := k => 2 * k;
    TurnsAreFair(j, hw, PctOf(req));
    forall n: nat
      ensures Reaches(cut, n)
    {
      assert cut(n) >= n;
    }
    forall k: nat
      ensures PlaysAt(script, at, sched, cut, k)
    {
    }
    enough := FairInTime(req, j, hw, at, script, sched, cut);
  }
}
