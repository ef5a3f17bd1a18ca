// axis_ready_gate.vhd: a one-beat register slice behind a pseudo-random ready, steered over AXI4-Lite.
// One rising clock edge is one step; every input is arbitrary at every edge.
module Gate {
  import opened Bytes
  import opened Xorshift

  const FULL_RATE: nat := 65536

  datatype Beat = Beat(lanes: seq<Byte>, keep: seq<bool>, last: bool)

  /** The registers of the entity. */
  datatype State = State(
    thresh: nat, random: bv32, open: bool, valid: bool, beat: Beat, bvalid: bool, rvalid: bool)

  /** The input ports as an edge samples them. */
  datatype In = In(
    aresetn: bool,
    awvalid: bool, wvalid: bool, wdata: U32, bready: bool, arvalid: bool, rready: bool,
    svalid: bool, sbeat: Beat, mready: bool)

  predicate Writes(s: State, i: In) {
    i.awvalid && i.wvalid && !s.bvalid
  }

  predicate Reads(s: State, i: In) {
    i.arvalid && !s.rvalid
  }

  predicate Ready(s: State, mready: bool) {
    s.open && (mready || !s.valid)
  }

  predicate Accepts(s: State, i: In) {
    Ready(s, i.mready) && i.svalid
  }

  predicate Delivers(s: State, i: In) {
    s.valid && i.mready
  }

  /** Neither of the two events that drop a held beat. */
  predicate Undisturbed(s: State, i: In) {
    i.aresetn && !Writes(s, i)
  }

  /** One equation per register, each reading only the values before the edge. */
  function Step(s: State, i: In): State {
    State(
      if !i.aresetn then FULL_RATE else if Writes(s, i) then i.wdata % 0x2_0000 else s.thresh,
      if Undisturbed(s, i) then Next(s.random) else SEED,
      i.aresetn ==> Draw(s.random) < s.thresh,
      Undisturbed(s, i) && (Accepts(s, i) || (s.valid && !i.mready)),
      if Accepts(s, i) then i.sbeat else s.beat,
      i.aresetn && (Writes(s, i) || (s.bvalid && !i.bready)),
      i.aresetn && (Reads(s, i) || (s.rvalid && !i.rready)))
  }

  /** The clocked process as written: signal assignments in order, the last one to a signal winning. */
  method RisingEdge(s: State, i: In) returns (s': State)
    ensures s' == Step(s, i)
  {
    hide Next, Draw;
    var ready := s.open && (i.mready || !s.valid);
    var write := i.awvalid && i.wvalid && !s.bvalid;
    var arready := i.arvalid && !s.rvalid;
    var State(thresh, random, open, valid, beat, bvalid, rvalid) := s;

    random := Next(s.random);
    if Draw(s.random) < s.thresh {
      open := true;
    } else {
      open := false;
    }

    if i.mready {
      valid := false;
    }
    if ready && i.svalid {
      valid, beat := true, i.sbeat;
    }

    if i.bready {
      bvalid := false;
    }
    if write {
      bvalid, thresh, random, valid := true, i.wdata % 0x2_0000, SEED, false;
    }

    if i.rready {
      rvalid := false;
    }
    if arready {
      rvalid := true;
    }

    if !i.aresetn {
      thresh, random, open, valid, bvalid, rvalid := FULL_RATE, SEED, true, false, false, false;
    }
    s' := State(thresh, random, open, valid, beat, bvalid, rvalid);
  }

  // --- what flows through the slice ---

  function Held(s: State): seq<Beat> {
    if s.valid then [s.beat] else []
  }

  function Taken1(s: State, i: In): seq<Beat> {
    if Accepts(s, i) then [i.sbeat] else []
  }

  function Given1(s: State, i: In): seq<Beat> {
    if Delivers(s, i) then [s.beat] else []
  }

  /** At any edge at all, beats are neither made, changed nor reordered. Only a THRESH write or a
      reset loses one, and then just one: the held beat if it was not handed over at that edge,
      else the beat accepted at that edge. */
  lemma EdgeConserves(s: State, i: In) returns (lost: seq<Beat>)
    ensures Held(s) + Taken1(s, i) == Given1(s, i) + lost + Held(Step(s, i))
    ensures |lost| <= 1
    ensures Undisturbed(s, i) ==> lost == []
    ensures !Undisturbed(s, i) ==>
              lost == if s.valid && !i.mready then [s.beat] else if Accepts(s, i) then [i.sbeat] else []
  {
    hide Next, Draw;
    lost := if Undisturbed(s, i) then [] else if s.valid && !i.mready then [s.beat] else Taken1(s, i);
  }

  function Run(s: State, ins: seq<In>): State
    decreases |ins|
  {
    if ins == [] then s else Run(Step(s, ins[0]), ins[1..])
  }

  function Taken(s: State, ins: seq<In>): seq<Beat>
    decreases |ins|
  {
    if ins == [] then [] else Taken1(s, ins[0]) + Taken(Step(s, ins[0]), ins[1..])
  }

  function Given(s: State, ins: seq<In>): seq<Beat>
    decreases |ins|
  {
    if ins == [] then [] else Given1(s, ins[0]) + Given(Step(s, ins[0]), ins[1..])
  }

  ghost predicate RunsUndisturbed(s: State, ins: seq<In>)
    decreases |ins|
  {
    ins == [] || (Undisturbed(s, ins[0]) && RunsUndisturbed(Step(s, ins[0]), ins[1..]))
  }

  /** On every run without a THRESH write or reset, what came in is what went out and what is held. */
  lemma {:induction false} RunConserves(s: State, ins: seq<In>)
    requires RunsUndisturbed(s, ins)
    ensures Held(s) + Taken(s, ins) == Given(s, ins) + Held(Run(s, ins))
    decreases |ins|
  {
    hide Next, Draw, Step, Held, Taken1, Given1;
    if ins != [] {
      var next := Step(s, ins[0]);
      var lost := EdgeConserves(s, ins[0]);
      RunConserves(next, ins[1..]);
      Chain(Held(s), Taken1(s, ins[0]), Taken(next, ins[1..]), Given1(s, ins[0]), Held(next), Given(next, ins[1..]),
            Held(Run(next, ins[1..])));
    }
  }

  lemma Chain<T>(held: seq<T>, in1: seq<T>, ins: seq<T>, out1: seq<T>, mid: seq<T>, outs: seq<T>, end: seq<T>)
    requires held + in1 == out1 + [] + mid && mid + ins == outs + end
    ensures held + (in1 + ins) == (out1 + outs) + end
  {
    assert held + (in1 + ins) == (held + in1) + ins;
    assert (out1 + mid) + ins == out1 + (mid + ins);
    assert (out1 + outs) + end == out1 + (outs + end);
  }

  /** How many edges of a run write THRESH or reset. */
  function Disturbances(s: State, ins: seq<In>): nat
    decreases |ins|
  {
    if ins == [] then 0
    else (if Undisturbed(s, ins[0]) then 0 else 1) + Disturbances(Step(s, ins[0]), ins[1..])
  }

  /** On any run, at most one beat is missing per write or reset, and none is ever added. */
  lemma {:induction false} LossBound(s: State, ins: seq<In>)
    ensures |Given(s, ins)| + |Held(Run(s, ins))|
            <= |Held(s)| + |Taken(s, ins)|
            <= |Given(s, ins)| + |Held(Run(s, ins))| + Disturbances(s, ins)
    decreases |ins|
  {
    hide Next, Draw, Step;
    if ins != [] {
      var lost := EdgeConserves(s, ins[0]);
      assert |Held(s)| + |Taken1(s, ins[0])| == |Given1(s, ins[0])| + |lost| + |Held(Step(s, ins[0]))|;
      LossBound(Step(s, ins[0]), ins[1..]);
    }
  }

  /** Once valid is up, it and the beat stay as they are until the handshake
      (section 2.2 of ARM IHI 0051A), however long that takes. */
  lemma {:induction false} StableUntilHandshake(s: State, ins: seq<In>)
    requires s.valid && RunsUndisturbed(s, ins)
    requires forall i | i in ins :: !i.mready
    ensures Run(s, ins).valid && Run(s, ins).beat == s.beat && Given(s, ins) == [] && Taken(s, ins) == []
    decreases |ins|
  {
    hide Next, Draw;
    if ins != [] {
      assert ins[0] in ins;
      StableUntilHandshake(Step(s, ins[0]), ins[1..]);
    }
  }

  function RHandshakes(s: State, ins: seq<In>): nat
    decreases |ins|
  {
    if ins == [] then 0
    else (if s.rvalid && ins[0].rready then 1 else 0) + RHandshakes(Step(s, ins[0]), ins[1..])
  }

  /** A read address is taken at an edge exactly if no read response is up. */
  function ReadCount(s: State, ins: seq<In>): nat
    decreases |ins|
  {
    if ins == [] then 0
    else (if ins[0].arvalid && !s.rvalid then 1 else 0) + ReadCount(Step(s, ins[0]), ins[1..])
  }

  /** Every accepted register read gets exactly one response too. */
  lemma {:induction false} OneResponsePerRead(s: State, ins: seq<In>)
    requires forall i | i in ins :: i.aresetn
    ensures (if s.rvalid then 1 else 0) + ReadCount(s, ins)
            == RHandshakes(s, ins) + (if Run(s, ins).rvalid then 1 else 0)
    decreases |ins|
  {
    hide Next, Draw;
    if ins != [] {
      assert ins[0] in ins;
      OneResponsePerRead(Step(s, ins[0]), ins[1..]);
    }
  }

  /** A reset leaves nothing held and nothing to answer, and the gate open until it is throttled. */
  lemma ResetState(s: State, i: In)
    requires !i.aresetn
    ensures var r := Step(s, i);
            r.random == 0x2545_F491 && r.open && !r.valid && !r.bvalid && !r.rvalid && RunsAt(r, 100)
  {
    hide Next, Draw;
    assert Step(s, i).thresh == Threshold(100);
    ThresholdRuns(Step(s, i), 100);
  }

  function BHandshakes(s: State, ins: seq<In>): nat
    decreases |ins|
  {
    if ins == [] then 0
    else (if s.bvalid && ins[0].bready then 1 else 0) + BHandshakes(Step(s, ins[0]), ins[1..])
  }

  /** A write is taken at an edge exactly if address and data are there and no write response is up. */
  function WriteCount(s: State, ins: seq<In>): nat
    decreases |ins|
  {
    if ins == [] then 0
    else (if ins[0].awvalid && ins[0].wvalid && !s.bvalid then 1 else 0) + WriteCount(Step(s, ins[0]), ins[1..])
  }

  /** Every accepted register write gets exactly one response; at most one is outstanding. */
  lemma {:induction false} OneResponsePerWrite(s: State, ins: seq<In>)
    requires forall i | i in ins :: i.aresetn
    ensures (if s.bvalid then 1 else 0) + WriteCount(s, ins)
            == BHandshakes(s, ins) + (if Run(s, ins).bvalid then 1 else 0)
    decreases |ins|
  {
    hide Next, Draw;
    if ins != [] {
      assert ins[0] in ins;
      OneResponsePerWrite(Step(s, ins[0]), ins[1..]);
    }
  }

  // --- how often it opens ---

  /** The threshold ojls_server programs for a ready percentage. */
  function Threshold(pct: nat): nat {
    pct * 65536 / 100
  }

  predicate Below(r: nat, thresh: nat) {
    r < thresh
  }

  /** The gate opens for the draws of the first `pct` hundredths of 65536, as far as they are whole. */
  ghost predicate RunsAt(s: State, pct: nat) {
    forall r: nat :: Below(r, s.thresh) <==> (r + 1) * 100 <= pct * 65536
  }

  lemma RateIs(pct: nat)
    ensures forall r: nat :: Below(r, Threshold(pct)) <==> (r + 1) * 100 <= pct * 65536
  {
    forall r: nat
      ensures Below(r, Threshold(pct)) <==> (r + 1) * 100 <= pct * 65536
    {
      var t := pct * 65536 / 100;
      assert pct * 65536 == t * 100 + pct * 65536 % 100;
    }
  }

  lemma ThresholdRuns(s: State, pct: nat)
    requires s.thresh == Threshold(pct)
    ensures RunsAt(s, pct)
  {
    hide Below, Threshold;
    RateIs(pct);
  }

  lemma DrawBelow(x: bv32)
    ensures Draw(x) < 65536
  {
  }

  /** At that rate an edge leaves the gate open exactly if the draw before it is in the share; at a hundred
      percent every edge does. */
  lemma OpensByDraw(s: State, i: In, pct: nat)
    requires RunsAt(s, pct) && Undisturbed(s, i)
    ensures RunsAt(Step(s, i), pct)
    ensures Step(s, i).open <==> (Draw(s.random) + 1) * 100 <= pct * 65536
    ensures pct >= 100 ==> Step(s, i).open
  {
    hide Next, Draw, Step, Undisturbed;
    UndisturbedEdge(s, i);
    DrawBelow(s.random);
    assert Below(Draw(s.random), s.thresh) <==> Draw(s.random) < s.thresh;
  }

  predicate InShare(r: nat, pct: nat) {
    (r + 1) * 100 <= pct * 65536
  }

  function Opening(pct: nat): set<nat> {
    set r: nat | r < 65536 && InShare(r, pct)
  }

  /** How many draws that is; a higher percentage lets through all of them and more. */
  lemma ShareIs(pct: nat, more: nat)
    requires pct < more <= 100
    ensures |Opening(pct)| == pct * 65536 / 100
    ensures Opening(pct) < Opening(more) && forall r: nat | r < 65536 :: r in Opening(100)
  {
    hide Below;
    OpeningIs(pct);
    UptoHolds(pct * 65536 / 100, 0);
    var t := pct * 65536 / 100;
    assert pct * 65536 == t * 100 + pct * 65536 % 100;
    assert t in Opening(more) && t !in Opening(pct);
  }

  lemma OpeningIs(pct: nat)
    requires pct <= 100
    ensures Opening(pct) == Upto(pct * 65536 / 100)
  {
    var t := pct * 65536 / 100;
    assert pct * 65536 == t * 100 + pct * 65536 % 100;
    forall r: nat
      ensures r in Opening(pct) <==> r in Upto(t)
    {
      UptoHolds(t, r);
    }
  }

  /** The state after n edges of an endless input. */
  function After(s: State, ins: nat -> In, n: nat): State {
    if n == 0 then s else Step(After(s, ins, n - 1), ins(n - 1))
  }

  ghost predicate NeverDisturbed(s: State, ins: nat -> In) {
    forall n: nat :: Undisturbed(After(s, ins, n), ins(n))
  }

  lemma UndisturbedEdge(s: State, i: In)
    requires Undisturbed(s, i)
    ensures Step(s, i).thresh == s.thresh && Step(s, i).random == Next(s.random)
    ensures Step(s, i).open <==> Draw(s.random) < s.thresh
  {
    hide Next, Draw;
  }

  lemma UndisturbedAt(s: State, ins: nat -> In, n: nat)
    requires NeverDisturbed(s, ins)
    ensures Undisturbed(After(s, ins, n), ins(n))
  {
    hide Next, Draw, Step, After;
  }

  /** From the second edge after a THRESH write on, the pattern of ready depends on the reseeded
      generator and the threshold alone, so a run can be reproduced. The first edge still shows the
      draw before the write. */
  lemma {:induction false} Reproducible(s: State, ins: nat -> In, n: nat)
    requires NeverDisturbed(s, ins)
    ensures After(s, ins, n).thresh == s.thresh && After(s, ins, n).random == Orbit(s.random, n)
    ensures n > 0 ==> (After(s, ins, n).open <==> Draw(Orbit(s.random, n - 1)) < s.thresh)
  {
    hide Next, Draw, Step, NeverDisturbed, Undisturbed;
    if n != 0 {
      Reproducible(s, ins, n - 1);
      UndisturbedAt(s, ins, n - 1);
      UndisturbedEdge(After(s, ins, n - 1), ins(n - 1));
    }
  }

  /** At full rate the slice costs no throughput: with a steady source and sink it takes a beat at every edge
      from the second on, and hands one over at every edge from the third. */
  lemma FullThroughput(s: State, ins: nat -> In, n: nat)
    requires RunsAt(s, 100) && NeverDisturbed(s, ins) && forall k: nat :: ins(k).svalid && ins(k).mready
    ensures n >= 1 ==> Accepts(After(s, ins, n), ins(n))
    ensures n >= 2 ==> Delivers(After(s, ins, n), ins(n))
  {
    hide Next, Draw, Step, NeverDisturbed, Undisturbed;
    if n >= 1 {
      Flowing(s, ins, n);
    }
    if n >= 2 {
      Flowing(s, ins, n - 1);
      UndisturbedAt(s, ins, n - 1);
      TakenIsHeld(After(s, ins, n - 1), ins(n - 1));
    }
  }

  lemma {:induction false} Flowing(s: State, ins: nat -> In, n: nat)
    requires RunsAt(s, 100) && NeverDisturbed(s, ins) && (forall k: nat :: ins(k).svalid && ins(k).mready) && n >= 1
    ensures RunsAt(After(s, ins, n), 100) && Accepts(After(s, ins, n), ins(n))
  {
    hide Next, Draw, Step, NeverDisturbed, Undisturbed, RunsAt;
    if n > 1 {
      Flowing(s, ins, n - 1);
    } else {
      assert After(s, ins, 0) == s;
    }
    UndisturbedAt(s, ins, n - 1);
    OpensByDraw(After(s, ins, n - 1), ins(n - 1), 100);
  }

  lemma TakenIsHeld(s: State, i: In)
    requires Undisturbed(s, i) && Accepts(s, i)
    ensures Step(s, i).valid
  {
    hide Next, Draw;
  }

  ghost predicate AcceptsAfter(s: State, ins: nat -> In, from: nat) {
    exists n: nat :: n >= from && Accepts(After(s, ins, n), ins(n))
  }

  /** A stream whose source stays valid and whose sink stays ready goes on flowing after any time,
      for exactly the percentages from one up: at zero the gate shuts for good. */
  lemma FlowsForever(s: State, ins: nat -> In, pct: nat)
    requires pct <= 100
    requires s.random == SEED && s.thresh == Threshold(pct) && NeverDisturbed(s, ins)
    requires forall n: nat :: ins(n).svalid && ins(n).mready
    ensures (forall from: nat :: AcceptsAfter(s, ins, from)) <==> pct > 0
  {
    hide Next, Draw, Step, Orbit, NeverDisturbed;
    if pct > 0 {
      forall from: nat
        ensures AcceptsAfter(s, ins, from)
      {
        var n := NextOpening(s, ins, pct, from);
        assert Accepts(After(s, ins, n + 1), ins(n + 1));
      }
    } else {
      if AcceptsAfter(s, ins, 1) {
        var n: nat :| n >= 1 && Accepts(After(s, ins, n), ins(n));
        Reproducible(s, ins, n);
      }
    }
  }

  lemma NextOpening(s: State, ins: nat -> In, pct: nat, from: nat) returns (n: nat)
    requires 0 < pct <= 100
    requires s.random == SEED && s.thresh == Threshold(pct) && NeverDisturbed(s, ins)
    ensures n >= from && After(s, ins, n + 1).open
  {
    hide Next, Draw, Step, Orbit, NeverDisturbed;
    n := Recurs(SEED, 4, from);
    FifthDraw();
    Reproducible(s, ins, n + 1);
  }

  /** From fifteen percent up the gate is open at the second edge after the write. */
  lemma OpensAtOnce(s: State, ins: nat -> In, pct: nat)
    requires 15 <= pct <= 100
    requires s.random == SEED && s.thresh == Threshold(pct) && NeverDisturbed(s, ins)
    ensures After(s, ins, 1).open
  {
    hide Next, Draw, Step, NeverDisturbed;
    FirstDraw();
    Reproducible(s, ins, 1);
  }
}
