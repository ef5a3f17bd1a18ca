// axidma.c and the register helpers of ojls_server.c, as methods of the board they drive. The CPU
// sees buffers through its own cached views; only the sync calls move bytes between those and DRAM.
// Between any two driver actions the fabric takes whatever events the schedule `script` holds.
module Driver {
  import opened Bytes
  import opened Ring
  import opened Encoder
  import opened Fabric
  import opened Run
  import opened Prepare
  import opened Evidence
  import opened Admission
  import opened Safety
  import opened Health
  import Gate
  import Proto

  /** What happens around one driver action: fabric events, time, and how registers and syncs answer. */
  datatype Poll = Poll(events: seq<Event>, us: nat, busy: bool, resetStuck: bool, syncFails: bool, edge: Event)

  /** Nothing fails around this action; MM2S may still fault, the fabric may still stall. */
  ghost predicate CalmPoll(p: Poll) {
    !p.busy && !p.resetStuck && !p.syncFails && NoSinkFault(p.events)
  }

  /** From action `at` on nothing fails. */
  ghost predicate Calm(script: nat -> Poll, at: nat) {
    forall k: nat | k >= at :: CalmPoll(script(k))
  }

  /** The time that actions i to j take. */
  function Elapsed(script: nat -> Poll, i: nat, j: nat): nat
    decreases j
  {
    if j <= i then 0 else Elapsed(script, i, j - 1) + 1 + script(j - 1).us
  }

  /** From action i to action j the reset bit stays set, for more than 100 ms. */
  ghost predicate HungReset(script: nat -> Poll, i: nat, j: nat) {
    Elapsed(script, i, j) > 100_000 && forall k: nat | i <= k < j :: script(k).resetStuck
  }

  ghost predicate HangsIn(script: nat -> Poll, from: nat, to: nat) {
    exists i: nat, j: nat :: from <= i && j <= to && HungReset(script, i, j)
  }

  lemma HangsWider(script: nat -> Poll, a: nat, b: nat, c: nat, d: nat)
    requires a <= b && c <= d
    ensures HangsIn(script, b, c) ==> HangsIn(script, a, d)
  {
    hide HungReset;
  }

  /** From action `at` on no reset bit stays set for more than 100 ms. */
  ghost predicate ResetsWork(script: nat -> Poll, at: nat) {
    forall i: nat, j: nat :: at <= i ==> !HungReset(script, i, j)
  }

  lemma WorkingNeverHangs(script: nat -> Poll, from: nat)
    ensures ResetsWork(script, from) ==> forall to: nat :: !HangsIn(script, from, to)
  {
    hide HungReset;
  }

  /** No reset hangs where nothing fails. */
  lemma {:induction false} CalmWorks(script: nat -> Poll, at: nat)
    ensures Calm(script, at) ==> ResetsWork(script, at)
  {
    if Calm(script, at) {
      forall i: nat, j: nat | at <= i
        ensures !HungReset(script, i, j)
      {
        if i < j {
          CalmMeans(script(i));
        }
      }
    }
  }

  lemma CalmLater(script: nat -> Poll, from: nat, to: nat)
    requires from <= to
    ensures Calm(script, from) ==> Calm(script, to)
  {
  }

  // --- what a wait can see, and when ---

  /** A wait: the ring that it looks at, and the state and the action with which it begins. */
  datatype Watch = Watch(e: Encoder, m: Map, p: Plan, hw: Hw, at: nat)

  /** The state before action b, if no driver action since the beginning changed it. */
  function Ran(w: Watch, script: nat -> Poll, b: nat): Hw
    decreases b
  {
    if b <= w.at then w.hw else Steps(w.e, w.m, Ran(w, script, b - 1), script(b - 1).events)
  }

  /** What axidma_wait looks for on S2MM, and what axidma_wait_packets does. */
  datatype Goal = OneTlast | EveryTlast

  ghost predicate SomeTlast(p: Plan, hw: Hw) {
    && p.first + p.count <= |hw.descs|
    && exists i :: FirstEofAt(Statuses(p, hw.descs), i)
  }

  ghost predicate AllOnTlast(p: Plan, hw: Hw) {
    && 0 < p.count && p.first + p.count <= |hw.descs|
    && var sts := Statuses(p, hw.descs);
       IsCmplt(sts[p.count - 1]) && EachOnTlast(sts, p.count)
  }

  ghost predicate Meets(goal: Goal, p: Plan, hw: Hw) {
    match goal
    case OneTlast => SomeTlast(p, hw)
    case EveryTlast => AllOnTlast(p, hw)
  }

  /** A look takes two actions. Look n shows what the wait is for, and comes before its time is up. */
  ghost predicate SeenAt(goal: Goal, w: Watch, script: nat -> Poll, timeout: int, n: nat) {
    && Meets(goal, w.p, Ran(w, script, w.at + 2 * n + 2))
    && Elapsed(script, w.at, w.at + 2 * n) <= 1000 * timeout
  }

  ghost predicate InTime(goal: Goal, w: Watch, script: nat -> Poll, timeout: int) {
    exists n: nat :: SeenAt(goal, w, script, timeout, n)
  }

  /** `looks` looks so far, none of which showed it. */
  ghost predicate NotYet(goal: Goal, w: Watch, script: nat -> Poll, looks: nat) {
    forall n: nat | n < looks :: !Meets(goal, w.p, Ran(w, script, w.at + 2 * n + 2))
  }

  /** The state of a wait after that, at the time `now`. */
  ghost predicate Watched(goal: Goal, w: Watch, script: nat -> Poll, looks: nat, hw: Hw, at: nat,
                          start: nat, now: nat) {
    && at == w.at + 2 * looks && hw == Ran(w, script, at) && now == start + Elapsed(script, w.at, at)
    && NotYet(goal, w, script, looks)
  }

  lemma WatchStarts(goal: Goal, w: Watch, script: nat -> Poll, start: nat)
    ensures Watched(goal, w, script, 0, w.hw, w.at, start, start)
  {
  }

  /** Two more actions, and a look at what they left. */
  lemma WatchGoesOn(goal: Goal, w: Watch, script: nat -> Poll, looks: nat, hw: Hw, at: nat, start: nat, now: nat)
    requires Watched(goal, w, script, looks, hw, at, start, now)
    ensures var mid := Steps(w.e, w.m, hw, script(at).events);
            var late := Steps(w.e, w.m, mid, script(at + 1).events);
            var moment := now + 1 + script(at).us + 1 + script(at + 1).us;
            !Meets(goal, w.p, late) ==> Watched(goal, w, script, looks + 1, late, at + 2, start, moment)
  {
    hide Steps, Meets;
    assert Ran(w, script, at + 1) == Steps(w.e, w.m, hw, script(at).events);
    assert Ran(w, script, at + 2) == Steps(w.e, w.m, Ran(w, script, at + 1), script(at + 1).events);
    assert Elapsed(script, w.at, at + 2) == Elapsed(script, w.at, at + 1) + 1 + script(at + 1).us;
  }

  lemma NextRan(goal: Goal, w: Watch, script: nat -> Poll, looks: nat, hw: Hw, at: nat, start: nat, now: nat)
    requires Watched(goal, w, script, looks, hw, at, start, now)
    ensures Ran(w, script, at + 1) == Steps(w.e, w.m, hw, script(at).events)
  {
    hide Steps, NotYet;
  }

  /** A wait that gives up has not seen it in time, nor would have. */
  lemma GaveUp(goal: Goal, w: Watch, script: nat -> Poll, looks: nat, hw: Hw, at: nat, start: nat, now: nat,
               timeout: int)
    requires Watched(goal, w, script, looks, hw, at, start, now) && now / 1000 > start / 1000 + timeout
    ensures !InTime(goal, w, script, timeout)
  {
    hide Meets, Ran;
    forall n: nat
      ensures !SeenAt(goal, w, script, timeout, n)
    {
      if n >= looks {
        ElapsedGrows(script, w.at, w.at + 2 * looks, w.at + 2 * n);
      }
    }
  }

  lemma {:induction false} ElapsedGrows(script: nat -> Poll, a: nat, b: nat, c: nat)
    requires b <= c
    ensures Elapsed(script, a, b) <= Elapsed(script, a, c)
    decreases c
  {
    if b < c {
      ElapsedGrows(script, a, b, c - 1);
    }
  }

  lemma NoSinkFaultConcat(a: seq<Event>, b: seq<Event>)
    ensures NoSinkFault(a) && NoSinkFault(b) ==> NoSinkFault(a + b)
    ensures NoSinkFault([])
  {
  }

  /** What nobody but MM2S, S2MM and the driver changes. */
  ghost predicate Untouched(a: Hw, b: Hw) {
    && b.tx == a.tx && |b.rx| == |a.rx| && |b.descs| == |a.descs|
    && (Quiet(a) ==> b.mm2s == a.mm2s)
    && (Quiet(a) && a.s2mm.phase != Running ==>
          b.s2mm == a.s2mm && b.rx == a.rx && b.descs == a.descs && b.delivered == a.delivered)
  }

  lemma StepsLeave(e: Encoder, m: Map, hw: Hw, evs: seq<Event>)
    ensures Untouched(hw, Steps(e, m, hw, evs))
  {
    QuietSteps(e, m, hw, evs);
  }

  lemma WriteLeaves(e: Encoder, m: Map, hw: Hw, v: U32, ev: Event)
    ensures Untouched(hw, WriteThresh(e, m, hw, v, ev))
  {
    hide StoreItems, Items, Avail, DescIndex, CanFeed;
    var a := if ev.Clock? then ev else Clock(false, false);
    var hw1 := Edge(e, m, hw, a.svalid, a.mready, false, 0);
    EdgeLeaves(e, m, hw, a.svalid, a.mready, false, 0);
    EdgeLeaves(e, m, hw1, a.svalid, a.mready, true, v);
  }

  lemma EdgeLeaves(e: Encoder, m: Map, hw: Hw, svalid: bool, mready: bool, write: bool, v: U32)
    ensures Untouched(hw, Edge(e, m, hw, svalid, mready, write, v))
  {
    hide StoreItems, Items, Avail, DescIndex, CanFeed, Gate.Step;
    EdgeFeedless(e, m, hw, svalid, mready, write, v);
    var out := Gate.Given1(hw.gate, Pins(e, hw, svalid, mready, write, v));
    StoreTouches(m, hw, Items(out));
    if hw.s2mm.phase != Running {
      assert out == [];
      DeliverNothing(m, hw);
    }
  }

  /** What the fabric did around the steps of one hw_recover, and whether hw_configure got to APPLY. */
  datatype Recovery = Recovery(dma: seq<Event>, pre: seq<Event>, applied: bool, post: seq<Event>)

  /** The state hw_recover leaves, after a DMA reset that completed or one that did not. */
  function Recovered(e: Encoder, m: Map, hw: Hw, d: Dims, completed: bool, r: Recovery): Hw {
    var ran := Steps(e, m, hw, r.dma);
    var before := Steps(e, m, if completed then ResetDma(ran) else ran, r.pre);
    if r.applied then Steps(e, m, ResetCore(before, d), r.post) else before
  }

  /** The channel a wait is about: MM2S or S2MM. */
  datatype Side = Sending | Receiving

  function SideOf(side: Side, hw: Hw): Chan {
    if side.Sending? then hw.mm2s else hw.s2mm
  }

  class Driver {
    const e: Encoder
    const m: Map
    const board: Board
    const timeoutMs: int
    const tx: array<Byte>     // the CPU's views of the three buffers
    const rx: array<Byte>
    const desc: array<Desc>
    var hw: Hw                // the fabric and DRAM
    var now: nat              // CLOCK_MONOTONIC, in microseconds
    const script: nat -> Poll // what happens around each action, for ever
    var at: nat               // actions taken so far

    /** How the buffers were set up; nothing here depends on what has run on the board. */
    ghost predicate Valid()
      reads this
    {
      && Causal(e)
      && tx != rx
      && tx.Length == |hw.tx| == board.txSize
      && rx.Length == |hw.rx| == board.rxSize
      && desc.Length == |hw.descs| && board.descSize == DESC_BYTES * desc.Length
      && m.descBase + board.descSize <= TWO_32 * TWO_32
      && m.txBase + board.txSize <= TWO_32 * TWO_32
      && m.rxBase + board.rxSize <= TWO_32 * TWO_32
    }

    /** The buffers are mapped and the board is read out; what the fabric does at that moment, and what
        lies in DRAM, is anybody's guess. */
    constructor (e: Encoder, m: Map, board: Board, timeoutMs: int, hw: Hw, now: nat, script: nat -> Poll)
      requires Causal(e)
      requires |hw.tx| == board.txSize && |hw.rx| == board.rxSize && DESC_BYTES * |hw.descs| == board.descSize
      requires m.descBase + board.descSize <= TWO_32 * TWO_32
      requires m.txBase + board.txSize <= TWO_32 * TWO_32 && m.rxBase + board.rxSize <= TWO_32 * TWO_32
      ensures Valid() && fresh(tx) && fresh(rx) && fresh(desc)
      ensures this.e == e && this.m == m && this.board == board && this.timeoutMs == timeoutMs
      ensures this.hw == hw && this.now == now && this.script == script && at == 0
    {
      this.e, this.m, this.board, this.timeoutMs := e, m, board, timeoutMs;
      this.hw, this.now, this.script, at := hw, now, script, 0;
      tx := new Byte[board.txSize];
      rx := new Byte[board.rxSize];
      desc := new Desc[|hw.descs|];
    }

    /** axidma_open resets the engine, and hw_open succeeds only if that worked: whatever was going on
        before, MM2S is then quiet. */
    method Open() returns (rc: int)
      requires Valid()
      modifies this`hw, this`now, this`at
      ensures Valid()
      ensures rc == 0 || rc == -1
      ensures rc == 0 ==> Quiet(hw) && hw.s2mm.phase == Halted
      ensures rc != 0 ==> HungReset(script, old(at), at)
      ensures at > old(at) && now > old(now)
    {
      hide Steps, Causal, HungReset;
      ghost var evs;
      ghost var start := hw;
      rc, evs := Reset();
      QuietSteps(e, m, start, evs);
    }

    /** Time passes and the fabric runs. */
    method Advance() returns (p: Poll)
      modifies this`hw, this`now, this`at
      ensures p == script(old(at)) && at == old(at) + 1
      ensures hw == Steps(e, m, old(hw), p.events)
      ensures now == old(now) + 1 + p.us
      ensures Untouched(old(hw), hw)
      ensures Calm(script, old(at)) ==> CalmPoll(p) && Calm(script, at)
    {
      hide Steps;
      p := script(at);
      StepsLeave(e, m, hw, p.events);
      hw := Steps(e, m, hw, p.events);
      now, at := now + 1 + p.us, at + 1;
    }

    function Clamp(x: nat, lo: nat, hi: nat): nat {
      if x < lo then lo else if x > hi then hi else x
    }

    function DimsOf(width: nat, height: nat): Dims {
      Dims(width, height, Proto.BytesPerPixel(if board.bitness < 256 then board.bitness else 16))
    }

    predicate DimsFit(width: nat, height: nat) {
      Clamp(width, MIN_WIDTH, board.maxWidth) == width && Clamp(height, MIN_HEIGHT, board.maxHeight) == height
    }

    /** hw_configure: dimensions, read-back, APPLY, wait for BUSY. From a quiet MM2S, success means
        an empty core. */
    method Configure(width: nat, height: nat)
        returns (rc: int, ghost pre: seq<Event>, ghost post: seq<Event>, ghost applied: bool)
      requires Causal(e)
      modifies this`hw, this`now, this`at
      ensures rc == 0 || rc == -1
      ensures rc == 0 ==> applied
      ensures var ran := Steps(e, m, old(hw), pre);
              hw == if applied then Steps(e, m, ResetCore(ran, DimsOf(width, height)), post) else ran
      ensures Untouched(old(hw), hw)
      ensures applied && old(Quiet(hw)) ==> CoreEmpty(m, hw, DimsOf(width, height))
      ensures at > old(at)
      ensures rc == 0 ==> 4 <= width <= board.maxWidth && 1 <= height <= board.maxHeight && !script(at - 1).busy
      ensures rc != 0 ==>
                || !(4 <= width <= board.maxWidth && 1 <= height <= board.maxHeight)
                || (now > old(now) + 100_000 && forall k: nat | old(at) < k < at :: script(k).busy)
      ensures applied <==> 4 <= width <= board.maxWidth && 1 <= height <= board.maxHeight
      ensures Calm(script, old(at)) ==> Calm(script, at) && (rc == 0 <==> DimsFit(width, height))
      ensures Calm(script, old(at)) && rc == 0 ==> at == old(at) + 2
      ensures now > old(now) && at > old(at)
    {
      hide Steps, Causal, CanFeed, Calm, CalmPoll;
      var deadline := now + 100000;
      var p := Advance();
      pre, post, applied := p.events, [], false;
      if Clamp(width, MIN_WIDTH, board.maxWidth) != width || Clamp(height, MIN_HEIGHT, board.maxHeight) != height {
        return -1, pre, post, applied;
      }
      applied := true;
      hw := ResetCore(hw, DimsOf(width, height));
      ghost var start := hw;
      NoSteps(e, m, start);
      assert old(Quiet(hw)) ==> CoreEmpty(m, hw, DimsOf(width, height)) by { QuietCannot(m, hw); }
      while true
        invariant hw == Steps(e, m, start, post)
        invariant Untouched(old(hw), hw)
        invariant old(Quiet(hw)) ==> CoreEmpty(m, hw, DimsOf(width, height))
        invariant Calm(script, old(at)) ==> Calm(script, at) && at == old(at) + 1
        invariant now > old(now) && at > old(at) && forall k: nat | old(at) < k < at :: script(k).busy
        decreases deadline + 1 - now
      {
        ghost var before := hw;
        p := Advance();
        assert Calm(script, old(at)) ==> !p.busy by { CalmMeans(p); }
        StepsConcat(e, m, start, post, p.events);
        post := post + p.events;
        if old(Quiet(hw)) {
          EmptySteps(e, m, before, DimsOf(width, height), p.events);
        }
        if !p.busy {
          return 0, pre, post, applied;
        }
        if now > deadline {
          return -1, pre, post, applied;
        }
      }
    }

    /** gate_set: the write drops a held beat, and the read-back must show it. */
    method GateSet(readyPct: nat, ghost d: Dims) returns (rc: int, ghost evs: seq<Event>, ghost edge: Event)
      requires readyPct <= 255 && Causal(e)
      modifies this`hw, this`now, this`at
      ensures hw == WriteThresh(e, m, Steps(e, m, old(hw), evs), Gate.Threshold(readyPct), edge)
      ensures rc == if readyPct < 200 then 0 else -1
      ensures rc == 0 ==> Seeded(hw.gate, readyPct) && Gate.RunsAt(hw.gate, readyPct)
      ensures Untouched(old(hw), hw)
      ensures old(CoreEmpty(m, hw, d)) ==> CoreEmpty(m, hw, d) && !hw.gate.valid
      ensures Calm(script, old(at)) ==> Calm(script, at)
      ensures now > old(now) && at == old(at) + 1
    {
      hide Steps, Causal, CoreEmpty, WriteThresh, Calm, Seeded;
      var thresh := readyPct * 65536 / 100;
      var p := Advance();
      evs, edge := p.events, p.edge;
      ghost var before := hw;
      if old(CoreEmpty(m, hw, d)) {
        EmptySteps(e, m, old(hw), d, p.events);
        WriteEmpties(e, m, before, d, thresh, p.edge);
      }
      WriteLeaves(e, m, hw, thresh, p.edge);
      WrittenThresh(e, m, hw, thresh, p.edge);
      if thresh < 0x2_0000 {
        WriteSeeds(e, m, hw, readyPct, p.edge);
      }
      hw := WriteThresh(e, m, hw, thresh, p.edge);
      if readyPct < 200 {
        Gate.ThresholdRuns(hw.gate, readyPct);
      }
      rc := if hw.gate.thresh == thresh then 0 else -1;
    }

    /** axidma_reset: both reset bits, then wait for them to clear. Until they do the engine runs on.
        It fails exactly when the bits stayed set at every look, for more than 100 ms. */
    method Reset() returns (rc: int, ghost evs: seq<Event>)
      modifies this`hw, this`now, this`at
      ensures rc == 0 || rc == -1
      ensures hw == (if rc == 0 then ResetDma(Steps(e, m, old(hw), evs)) else Steps(e, m, old(hw), evs))
      ensures at > old(at) && forall k: nat | old(at) <= k < at - 1 :: script(k).resetStuck
      ensures rc == 0 <==> !script(at - 1).resetStuck
      ensures rc != 0 ==> HungReset(script, old(at), at) && now / 1000 > old(now) / 1000 + 100
      ensures Calm(script, old(at)) ==> Calm(script, at) && rc == 0 && at == old(at) + 1
      ensures now > old(now)
    {
      hide Steps, Calm, CalmPoll;
      var deadline := now / 1000 + 100;
      evs := [];
      assert hw == Steps(e, m, old(hw), evs) by { NoSteps(e, m, hw); }
      while true
        invariant hw == Steps(e, m, old(hw), evs)
        invariant Calm(script, old(at)) ==> Calm(script, at) && at == old(at)
        invariant at >= old(at) && now == old(now) + Elapsed(script, old(at), at)
        invariant forall k: nat | old(at) <= k < at :: script(k).resetStuck
        decreases (deadline + 1) * 1000 - now
      {
        var p := Advance();
        assert Calm(script, old(at)) ==> !p.resetStuck by { CalmMeans(p); }
        StepsConcat(e, m, old(hw), evs, p.events);
        evs := evs + p.events;
        if !p.resetStuck {
          hw := ResetDma(hw);
          return 0, evs;
        }
        if now / 1000 > deadline {
          return -1, evs;
        }
      }
    }

    /** udmabuf_sync_for_device on the pixels: DRAM takes the CPU's bytes. */
    method SyncTxForDevice(len: nat) returns (rc: int, ghost evs: seq<Event>)
      requires len <= tx.Length == |hw.tx|
      modifies this`hw, this`now, this`at
      ensures rc == 0 || rc == -1
      ensures var ran := Steps(e, m, old(hw), evs);
              |ran.tx| == |old(hw.tx)| && hw == if rc == 0 then FlushTx(ran, tx[..len]) else ran
      ensures Calm(script, old(at)) ==> Calm(script, at) && rc == 0
      ensures now > old(now) && at == old(at) + 1
    {
      hide Steps, Calm;
      var p := Advance();
      if p.syncFails {
        return -1, p.events;
      }
      hw := FlushTx(hw, tx[..len]);
      return 0, p.events;
    }

    method SyncDescsForDevice() returns (rc: int, ghost evs: seq<Event>)
      modifies this`hw, this`now, this`at
      ensures rc == 0 || rc == -1
      ensures var ran := Steps(e, m, old(hw), evs); hw == if rc == 0 then FlushDescs(ran, desc[..]) else ran
      ensures Calm(script, old(at)) ==> Calm(script, at) && rc == 0
      ensures now > old(now) && at == old(at) + 1
    {
      hide Steps, Calm;
      var p := Advance();
      if p.syncFails {
        return -1, p.events;
      }
      hw := FlushDescs(hw, desc[..]);
      return 0, p.events;
    }

    /** udmabuf_sync_for_cpu on descriptors: a snapshot of DRAM. */
    method SyncDescsForCpu(first: nat, count: nat) returns (rc: int, ghost evs: seq<Event>)
      requires first + count <= desc.Length == |hw.descs|
      modifies this`hw, this`now, this`at, desc
      ensures rc == 0 || rc == -1
      ensures now == old(now) + 1 + script(old(at)).us && at == old(at) + 1 && evs == script(old(at)).events
      ensures hw == Steps(e, m, old(hw), evs) && |hw.descs| == |old(hw.descs)|
      ensures rc == 0 ==> forall k | first <= k < first + count :: desc[k] == hw.descs[k]
      ensures Calm(script, old(at)) ==> Calm(script, at) && rc == 0 && NoSinkFault(evs)
    {
      hide Steps, Calm;
      var p := Advance();
      if p.syncFails {
        return -1, p.events;
      }
      forall k | first <= k < first + count {
        desc[k] := hw.descs[k];
      }
      return 0, p.events;
    }

    /** udmabuf_sync_for_cpu on the bitstream. */
    method SyncRxForCpu(len: nat) returns (rc: int, ghost evs: seq<Event>)
      requires len <= rx.Length == |hw.rx|
      modifies this`hw, this`now, this`at, rx
      ensures rc == 0 || rc == -1
      ensures hw == Steps(e, m, old(hw), evs) && |hw.rx| == |old(hw.rx)|
      ensures rc == 0 ==> rx[..len] == hw.rx[..len]
      ensures Calm(script, old(at)) ==> Calm(script, at) && rc == 0 && NoSinkFault(evs)
      ensures now > old(now) && at > old(at)
    {
      hide Steps, Calm;
      var p := Advance();
      if p.syncFails {
        return -1, p.events;
      }
      forall k | 0 <= k < len {
        rx[k] := hw.rx[k];
      }
      return 0, p.events;
    }

    /** The start of each turn of both waits: the error bits, then a snapshot of the ring. */
    method Look(side: Side, p: Plan, ghost goal: Goal, ghost w: Watch, ghost looks: nat, ghost start: nat)
        returns (rc: int, ghost evs: seq<Event>)
      requires p.first + p.count <= desc.Length == |hw.descs|
      requires w.e == e && w.m == m && w.p == p && Watched(goal, w, script, looks, hw, at, start, now)
      modifies this`hw, this`now, this`at, desc
      ensures rc == 0 || rc == -1
      ensures hw == Steps(e, m, old(hw), evs) && |hw.descs| == |old(hw.descs)|
      ensures rc == 0 ==> forall k | p.first <= k < p.first + p.count :: desc[k] == hw.descs[k]
      ensures rc == 0 && !Meets(goal, p, hw) ==> Watched(goal, w, script, looks + 1, hw, at, start, now)
      ensures at > old(at) && (rc == 0 ==> SideOf(side, Ran(w, script, at - 1)).phase != Faulted)
      ensures Calm(script, old(at)) ==>
                Calm(script, at) && NoSinkFault(evs) && (rc == -1 ==> SideOf(side, hw).phase == Faulted)
      ensures now > old(now) && at > old(at)
    {
      hide Steps, Calm, CalmPoll, NoSinkFault, Watched, Meets;
      WatchGoesOn(goal, w, script, looks, hw, at, start, now);
      NextRan(goal, w, script, looks, hw, at, start, now);
      var q := Advance();
      CalmMeans(q);
      evs := q.events;
      if SideOf(side, hw).phase == Faulted {
        return -1, evs;
      }
      ghost var more;
      rc, more := SyncDescsForCpu(p.first, p.count);
      NoSinkFaultConcat(evs, more);
      StepsConcat(e, m, old(hw), evs, more);
      evs := evs + more;
    }

    /** axidma_wait: poll snapshots until one shows an error, or on S2MM a TLAST or every descriptor done
        without one, or on MM2S the last descriptor done, or time is up. A zero verdict is about the
        snapshot left in `desc`. */
    method Wait(side: Side, p: Plan, timeout: int)
        returns (rc: int, ghost snap: Hw, ghost before: seq<Event>, ghost after: seq<Event>)
      requires 0 < p.count && p.first + p.count <= desc.Length == |hw.descs|
      modifies this`hw, this`now, this`at, desc
      ensures rc == 0 || rc == -1 || rc == -2
      ensures snap == Steps(e, m, old(hw), before) && hw == Steps(e, m, snap, after)
      ensures |hw.descs| == desc.Length && |snap.descs| == desc.Length
      ensures rc == 0 ==> forall k | p.first <= k < p.first + p.count :: desc[k] == snap.descs[k]
      ensures rc == 0 && side.Receiving? ==> exists i :: CleanEofAt(Statuses(p, snap.descs), i)
      ensures rc == 0 && side.Sending? ==>
                var sts := Statuses(p, snap.descs);
                IsCmplt(sts[p.count - 1]) && (NoneSpoke(sts, p.count) || exists i :: CleanEofAt(sts, i))
      ensures at > old(at)
      ensures rc != -1 ==>
                SideOf(side, Ran(Watch(e, m, p, old(hw), old(at)), script, at - 1)).phase != Faulted
      ensures rc == -2 ==>
                var sts := Statuses(p, snap.descs);
                && now / 1000 > old(now) / 1000 + timeout
                && (if side.Receiving? then NoneSpoke(sts, p.count) else !IsCmplt(sts[p.count - 1]))
      ensures Calm(script, old(at)) ==> Calm(script, at) && NoSinkFault(before) && NoSinkFault(after)
      ensures rc == -2 && side.Receiving? ==> !InTime(OneTlast, Watch(e, m, p, old(hw), old(at)), script, timeout)
      ensures rc == -1 && Calm(script, old(at)) ==>
                var sts := Statuses(p, snap.descs);
                || SideOf(side, snap).phase == Faulted
                || (exists i :: ErrAt(sts, i))
                || (side.Receiving? && NoneSpoke(sts, p.count) && IsCmplt(sts[p.count - 1]))
      ensures now > old(now) && at > old(at)
    {
      hide Steps, Calm, CalmPoll, NoSinkFault, IsCmplt, Watched, InTime;
      var deadline := now / 1000 + timeout;
      snap, before, after := hw, [], [];
      ghost var w, looks := Watch(e, m, p, hw, at), 0;
      ghost var goal := if side.Receiving? then OneTlast else EveryTlast;
      WatchStarts(goal, w, script, now);
      NoSteps(e, m, hw);
      NoSinkFaultConcat([], []);
      while true
        invariant hw == snap == Steps(e, m, old(hw), before) && |hw.descs| == desc.Length
        invariant Calm(script, old(at)) ==> Calm(script, at) && NoSinkFault(before)
        invariant now >= old(now) && at >= old(at)
        invariant Watched(goal, w, script, looks, hw, at, old(now), now)
        decreases (deadline + 1) * 1000 - now
      {
        var st;
        ghost var evs;
        st, evs := Look(side, p, goal, w, looks, old(now));
        NoSinkFaultConcat(before, evs);
        StepsConcat(e, m, old(hw), before, evs);
        before, snap := before + evs, hw;
        NoSteps(e, m, hw);
        if st != 0 {
          return -1, snap, before, [];
        }
        var err, eof := ScanSingle(p);
        SameStatuses(p, desc[..], snap.descs);
        if err {
          return -1, snap, before, [];
        }
        var last := desc[p.first + p.count - 1].status;
        if side.Receiving? {
          if eof {
            return 0, snap, before, [];
          }
          if IsCmplt(last) {
            return -1, snap, before, [];
          }
        } else if IsCmplt(last) {
          return 0, snap, before, [];
        }
        looks := looks + 1;
        if now / 1000 > deadline {
          GaveUp(goal, w, script, looks, hw, at, old(now), now, timeout);
          return -2, snap, before, [];
        }
      }
    }

    /** The scan of axidma_wait over the snapshot: errors first, stopping at the first TLAST. */
    method ScanSingle(p: Plan) returns (err: bool, eof: bool)
      requires p.first + p.count <= desc.Length
      ensures eof ==> !err && exists i :: CleanEofAt(Statuses(p, desc[..]), i)
      ensures !err && !eof ==> NoneSpoke(Statuses(p, desc[..]), p.count)
      ensures err ==> exists i :: ErrAt(Statuses(p, desc[..]), i)
    {
      hide IsErr, IsEof;
      ghost var sts := Statuses(p, desc[..]);
      for i := 0 to p.count
        invariant NoneSpoke(sts, i)
      {
        var st := desc[p.first + i].status;
        assert sts[i] == st;
        if IsErr(st) {
          assert ErrAt(sts, i);
          return true, false;
        }
        if IsEof(st) {
          assert CleanEofAt(sts, i);
          return false, true;
        }
      }
      return false, false;
    }

    /** axidma_wait_packets: success means a snapshot in which every descriptor closed on a TLAST. */
    method WaitPackets(p: Plan, timeout: int)
        returns (rc: int, ghost snap: Hw, ghost before: seq<Event>, ghost after: seq<Event>)
      requires 0 < p.count && p.first + p.count <= desc.Length == |hw.descs|
      modifies this`hw, this`now, this`at, desc
      ensures rc == 0 || rc == -1 || rc == -2
      ensures snap == Steps(e, m, old(hw), before) && hw == Steps(e, m, snap, after)
      ensures |hw.descs| == desc.Length && |snap.descs| == desc.Length
      ensures rc == 0 ==>
                var sts := Statuses(p, snap.descs); IsCmplt(sts[p.count - 1]) && EachOnTlast(sts, p.count)
      ensures rc == -2 ==> now / 1000 > old(now) / 1000 + timeout && !IsCmplt(Statuses(p, snap.descs)[p.count - 1])
      ensures Calm(script, old(at)) ==> Calm(script, at) && NoSinkFault(before) && NoSinkFault(after)
      ensures rc == -2 ==> !InTime(EveryTlast, Watch(e, m, p, old(hw), old(at)), script, timeout)
      ensures rc == -1 && Calm(script, old(at)) ==>
                snap.s2mm.phase == Faulted || exists i :: BadAt(Statuses(p, snap.descs), i)
      ensures at > old(at)
      ensures rc != -1 ==> Ran(Watch(e, m, p, old(hw), old(at)), script, at - 1).s2mm.phase != Faulted
      ensures now > old(now) && at > old(at)
    {
      hide Steps, IsErr, IsEof, IsCmplt, Calm, CalmPoll, NoSinkFault, Watched, InTime;
      var deadline := now / 1000 + timeout;
      snap, before, after := hw, [], [];
      ghost var w, looks := Watch(e, m, p, hw, at), 0;
      WatchStarts(EveryTlast, w, script, now);
      NoSteps(e, m, hw);
      NoSinkFaultConcat([], []);
      while true
        invariant hw == snap == Steps(e, m, old(hw), before) && |hw.descs| == desc.Length
        invariant Calm(script, old(at)) ==> Calm(script, at) && NoSinkFault(before)
        invariant now >= old(now) && at >= old(at)
        invariant Watched(EveryTlast, w, script, looks, hw, at, old(now), now)
        decreases (deadline + 1) * 1000 - now
      {
        var st;
        ghost var evs;
        st, evs := Look(Receiving, p, EveryTlast, w, looks, old(now));
        NoSinkFaultConcat(before, evs);
        StepsConcat(e, m, old(hw), before, evs);
        before, snap := before + evs, hw;
        NoSteps(e, m, hw);
        if st != 0 {
          return -1, snap, before, [];
        }
        ghost var sts := Statuses(p, snap.descs);
        SameStatuses(p, desc[..], snap.descs);
        for i := 0 to p.count
          invariant EachOnTlast(sts, i)
        {
          var word := desc[p.first + i].status;
          assert sts[i] == word;
          if IsErr(word) {
            assert BadAt(sts, i);
            return -1, snap, before, [];
          }
          if IsCmplt(word) && !IsEof(word) {
            assert BadAt(sts, i);
            return -1, snap, before, [];
          }
        }
        if IsCmplt(desc[p.first + p.count - 1].status) {
          return 0, snap, before, [];
        }
        looks := looks + 1;
        if now / 1000 > deadline {
          GaveUp(EveryTlast, w, script, looks, hw, at, old(now), now, timeout);
          return -2, snap, before, [];
        }
      }
    }

    /** axidma_ring_bytes, a uint32_t: the counts up to and including the first TLAST. */
    method RingBytes(p: Plan, ghost eof: nat) returns (total: U32)
      requires p.first + p.count <= desc.Length && FirstEofAt(Statuses(p, desc[..]), eof)
      ensures total == Wrap32(SumCounts(Statuses(p, desc[..])[..eof + 1]))
    {
      hide IsEof, CountOf, Statuses, SumCounts;
      total := 0;
      ghost var sts := Statuses(p, desc[..]);
      NoCounts(sts);
      for i := 0 to p.count
        invariant i <= eof && total == Wrap32(SumCounts(sts[..i]))
      {
        var st := desc[p.first + i].status;
        assert sts[i] == st;
        NextCount(sts, i);
        total := Wrap32(total as int + CountOf(st));
        if IsEof(st) {
          return;
        }
      }
    }

    /** hw_recover: DMA reset, then core reset. Both return values are ignored there; here the first
        one reaches the proofs as `clean`. After a clean one the evidence stays as it was; one that is
        not took more than 100 ms of a reset bit that stayed set. */
    method Recover(width: nat, height: nat, ghost j: Job) returns (ghost clean: bool)
      requires Causal(e) && j.e == e && j.m == m && Safe(j, hw)
      modifies this`hw, this`now, this`at
      ensures Safe(j, hw)
      ensures |hw.tx| == |old(hw.tx)| && |hw.rx| == |old(hw.rx)| && |hw.descs| == |old(hw.descs)|
      ensures exists r :: hw == Recovered(e, m, old(hw), DimsOf(width, height), clean, r)
      ensures clean ==> Quiet(hw)
      ensures clean && 4 <= width <= board.maxWidth && 1 <= height <= board.maxHeight ==>
                CoreEmpty(m, hw, DimsOf(width, height))
      ensures !clean ==> HangsIn(script, old(at), at)
      ensures clean && old(Good(j, hw)) ==> Told(j, hw) && hw.s2mm.phase != Running
      ensures Calm(script, old(at)) ==> Calm(script, at) && clean
      ensures now > old(now) && at > old(at)
    {
      hide Steps, Causal, CoreEmpty, Safe, Good, Told, Calm, HungReset;
      var st;
      ghost var evs;
      ghost var start := hw;
      st, evs := Reset();
      clean := st == 0;
      ghost var ran := Steps(e, m, start, evs);
      StepsLeave(e, m, start, evs);
      StepsSafe(j, start, evs);
      ResetsSafe(j, ran, DimsOf(width, height));
      ghost var before := hw;
      var ignored;
      ghost var pre, post, applied;
      ignored, pre, post, applied := Configure(width, height);
      StepsSafe(j, before, pre);
      ResetsSafe(j, Steps(e, m, before, pre), DimsOf(width, height));
      if applied {
        StepsSafe(j, ResetCore(Steps(e, m, before, pre), DimsOf(width, height)), post);
      }
      assert hw == Recovered(e, m, start, DimsOf(width, height), clean, Recovery(evs, pre, applied, post));
      if clean && Good(j, start) {
        StepsKeep(j, start, evs);
        GoodTold(j, ran);
        ResetTold(j, ran);
        StoppedTold(j, before, hw);
      }
    }
  }

  /** Neither an error nor a TLAST among the first n status words. */
  ghost predicate NoneSpoke(sts: seq<U32>, n: nat) {
    n <= |sts| && forall i | 0 <= i < n :: !IsErr(sts[i]) && !IsEof(sts[i])
  }

  /** The first status word with an error, before any TLAST. */
  ghost predicate ErrAt(sts: seq<U32>, i: nat) {
    i < |sts| && IsErr(sts[i]) && NoneSpoke(sts, i)
  }

  /** The first TLAST, with no error up to it. */
  ghost predicate CleanEofAt(sts: seq<U32>, i: nat) {
    FirstEofAt(sts, i) && forall k | 0 <= k <= i :: !IsErr(sts[k])
  }

  /** No error, and no descriptor completed without its TLAST, among the first n. */
  ghost predicate EachOnTlast(sts: seq<U32>, n: nat) {
    n <= |sts| && forall i | 0 <= i < n :: !IsErr(sts[i]) && (IsCmplt(sts[i]) ==> IsEof(sts[i]))
  }

  /** The first status word that is an error, or complete without its TLAST. */
  ghost predicate BadAt(sts: seq<U32>, i: nat) {
    i < |sts| && (IsErr(sts[i]) || (IsCmplt(sts[i]) && !IsEof(sts[i]))) && EachOnTlast(sts, i)
  }

  lemma CalmMeans(p: Poll)
    ensures CalmPoll(p) ==> !p.busy && !p.resetStuck && !p.syncFails && NoSinkFault(p.events)
  {
  }

  lemma NoSteps(e: Encoder, m: Map, hw: Hw)
    ensures Steps(e, m, hw, []) == hw
  {
  }

  lemma NoCounts(sts: seq<U32>)
    ensures SumCounts(sts[..0]) == 0
  {
  }

  lemma NextCount(sts: seq<U32>, i: nat)
    requires i < |sts|
    ensures Wrap32(Wrap32(SumCounts(sts[..i])) as int + CountOf(sts[i])) == Wrap32(SumCounts(sts[..i + 1]))
  {
    hide CountOf;
    assert sts[..i + 1][..i] == sts[..i];
  }

  lemma QuietCannot(m: Map, hw: Hw)
    ensures Quiet(hw) ==> !CanFeed(m, hw)
  {
  }

  lemma WrittenThresh(e: Encoder, m: Map, hw: Hw, v: U32, ev: Event)
    ensures WriteThresh(e, m, hw, v, ev).gate.thresh == v % 0x2_0000
  {
    hide StoreItems, Items, Avail;
    var a := if ev.Clock? then ev else Clock(false, false);
    var hw1 := Edge(e, m, hw, a.svalid, a.mready, false, 0);
    StoreTouches(m, hw, Items(Gate.Given1(hw.gate, Pins(e, hw, a.svalid, a.mready, false, 0))));
    StoreTouches(m, hw1, Items(Gate.Given1(hw1.gate, Pins(e, hw1, a.svalid, a.mready, true, v))));
  }

  lemma SameStatuses(p: Plan, a: seq<Desc>, b: seq<Desc>)
    requires p.first + p.count <= |a| && |a| == |b|
    requires forall k | p.first <= k < p.first + p.count :: a[k] == b[k]
    ensures Statuses(p, a) == Statuses(p, b)
  {
  }
}
