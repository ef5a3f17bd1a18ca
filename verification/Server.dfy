// main of ojls_server.c: open the board, then serve one connection after the other. What any earlier
// program, request or connection did to the board is arbitrary.
module Server {
  import opened Bytes
  import opened Encoder
  import opened Fabric
  import opened Socket
  import opened Admission
  import opened Driver
  import opened Session
  import Ring

  /** The frames of one connection, their answers, and how many of these are to be trusted. */
  datatype Talk = Talk(frames: seq<Frame>, replies: seq<seq<Byte>>, upTo: nat)

  /** A connection over which `input` came in, and `sent` went out. */
  ghost predicate Served(t: Target, e: Encoder, input: seq<Byte>, sent: seq<Byte>, talk: Talk) {
    && talk.frames == Parse(input).frames
    && AllAnswered(t, e, talk.frames, talk.replies, talk.upTo)
    && sent == Flat(talk.replies) + EndReply(Parse(input).end)
  }

  /** Every answer of the connection is exact or an honest failure. */
  ghost predicate AllTrusted(talk: Talk) {
    talk.upTo == |talk.frames|
  }

  /** The first answer that is not to be trusted does not say OK. */
  ghost predicate BreaksOff(talk: Talk) {
    && talk.upTo <= |talk.frames| == |talk.replies|
    && (talk.upTo < |talk.frames| ==> Broke(talk.frames[talk.upTo], talk.replies[talk.upTo]))
  }

  /** Opens the board and serves connections, in the order in which accept hands them out. On a board whose
      resets work every answer over every connection is exact or an honest failure. Otherwise that holds
      for the first `intact` connections, and within the next one up to an answer that owns up to the
      failure: a DMA reset that hung. When nothing at all fails, every admitted frame that the board can
      do is answered OK, unless its run is not over in time. */
  method RunServer(t: Target, drv: Driver, conns: seq<Conn>)
      returns (rc: int, ghost talks: seq<Talk>, ghost intact: nat)
    requires t.Hardware? ==> drv.Valid() && drv.board == t.board
    requires forall i, k | 0 <= i < k < |conns| :: conns[i] != conns[k]
    modifies drv, drv.tx, drv.rx, drv.desc, conns
    ensures rc == 0 || rc == 1
    ensures rc == 1 ==> t.Hardware? && forall k | 0 <= k < |conns| :: unchanged(conns[k])
    ensures rc == 0 ==> |talks| == |conns| && intact <= |conns|
    ensures rc == 0 ==>
              forall k | 0 <= k < |conns| && old(conns[k].Sound()) ::
                && old(conns[k].output) <= conns[k].output
                && Served(t, drv.e, old(conns[k].input), conns[k].output[|old(conns[k].output)|..], talks[k])
    ensures rc == 0 ==> forall k | 0 <= k < intact :: AllTrusted(talks[k])
    ensures rc == 0 && t.Hardware? && intact < |conns| ==> BreaksOff(talks[intact])
    ensures rc == 1 || (t.Hardware? && intact < |conns|) ==> HangsIn(drv.script, old(drv.at), drv.at)
    ensures ResetsWork(drv.script, old(drv.at)) && t.Hardware? ==> rc == 0 && intact == |conns|
    ensures Calm(drv.script, old(drv.at)) && t.Hardware? ==>
              && rc == 0 && intact == |conns|
              && forall k | 0 <= k < |conns| :: AllFulfilled(drv, talks[k].frames, talks[k].replies, old(drv.at),
                                                             drv.at)
  {
    hide Parse, Flat, AllAnswered, EndReply, Causal, HungReset, LoopSession, HangsIn, ResetsWork, BreaksOff,
         Driver.Valid, Quiet, EndCode, Calm, AllFulfilled,
         Served;
    talks, intact := [], 0;
    ghost var from := drv.at;
    WorkingNeverHangs(drv.script, from);
    CalmWorks(drv.script, from);
    if t.Hardware? {
      rc := drv.Open();
      if rc != 0 {
        OneHang(drv.script, from, drv.at);
        return 1, talks, intact;
      }
    }
    ghost var clean := t.Hardware?;
    for i := 0 to |conns|
      invariant t.Hardware? ==> drv.Valid()
      invariant |talks| == i && intact <= i && drv.at >= from
      invariant forall k | i <= k < |conns| :: unchanged(conns[k])
      invariant forall k | 0 <= k < i && old(conns[k].Sound()) ::
                  && old(conns[k].output) <= conns[k].output
                  && Served(t, drv.e, old(conns[k].input), conns[k].output[|old(conns[k].output)|..], talks[k])
      invariant forall k | 0 <= k < intact :: AllTrusted(talks[k])
      invariant t.Hardware? && Calm(drv.script, from) ==>
                  forall k | 0 <= k < i :: AllFulfilled(drv, talks[k].frames, talks[k].replies, from, drv.at)
      invariant clean ==> intact == i && Quiet(drv.hw)
      invariant t.Hardware? && !clean ==>
                intact < i && BreaksOff(talks[intact]) && HangsIn(drv.script, from, drv.at)
    {
      ghost var before, sound := conns[i].output, conns[i].Sound();
      ghost var frames, replies, upTo, stillClean;
      var ignored;
      ghost var mid := drv.at;
      ignored, frames, replies, upTo, stillClean := ServeConnection(conns[i], t, drv);
      ghost var talk := Talk(frames, replies, upTo);
      CalmLater(drv.script, from, mid);
      if t.Hardware? && Calm(drv.script, from) {
        FulfilledLater(drv, talks, talk, from, mid, drv.at);
      }
      HangsWider(drv.script, from, from, mid, drv.at);
      HangsWider(drv.script, from, mid, drv.at, drv.at);
      if clean && !stillClean {
        ItBreaksOff(talk);
      }
      if sound {
        ItIsServed(t, drv.e, old(conns[i].input), before, conns[i].output, talk);
      }
      talks := talks + [talk];
      if clean && stillClean {
        intact := intact + 1;
      }
      clean := clean && stillClean;
    }
    rc := 0;
  }

  lemma FulfilledLater(drv: Driver, talks: seq<Talk>, talk: Talk, from: nat, mid: nat, to: nat)
    requires forall k | 0 <= k < |talks| :: AllFulfilled(drv, talks[k].frames, talks[k].replies, from, mid)
    requires AllFulfilled(drv, talk.frames, talk.replies, mid, to) && from <= mid <= to
    ensures forall k | 0 <= k < |talks| :: AllFulfilled(drv, talks[k].frames, talks[k].replies, from, to)
    ensures AllFulfilled(drv, talk.frames, talk.replies, from, to)
  {
    hide AllFulfilled;
    FulfilledWider(drv, talk.frames, talk.replies, mid, to, from, to);
    forall k | 0 <= k < |talks|
      ensures AllFulfilled(drv, talks[k].frames, talks[k].replies, from, to)
    {
      FulfilledWider(drv, talks[k].frames, talks[k].replies, from, mid, from, to);
    }
  }

  lemma OneHang(script: nat -> Poll, from: nat, to: nat)
    requires HungReset(script, from, to)
    ensures HangsIn(script, from, to)
  {
    hide HungReset;
  }

  lemma ItBreaksOff(talk: Talk)
    requires talk.upTo <= |talk.frames| == |talk.replies|
    requires talk.upTo < |talk.frames| ==> Broke(talk.frames[talk.upTo], talk.replies[talk.upTo])
    ensures BreaksOff(talk)
  {
  }

  lemma ItIsServed(t: Target, e: Encoder, input: seq<Byte>, before: seq<Byte>, output: seq<Byte>, talk: Talk)
    requires talk.frames == Parse(input).frames && AllAnswered(t, e, talk.frames, talk.replies, talk.upTo)
    requires output == before + Flat(talk.replies) + EndReply(Parse(input).end)
    ensures before <= output && Served(t, e, input, output[|before|..], talk)
  {
    hide Parse, AllAnswered, Flat, EndReply;
  }

  /** From power-on: whatever state the board is in, whatever lies in its memory, a server that comes up
      and whose resets work gives exact or honest answers only. */
  method PowerOn(e: Encoder, m: Map, board: Board, timeoutMs: int, hw: Hw, now: nat, script: nat -> Poll,
                 conns: seq<Conn>)
      returns (rc: int, ghost talks: seq<Talk>, ghost intact: nat)
    requires Causal(e)
    requires |hw.tx| == board.txSize && |hw.rx| == board.rxSize && Ring.DESC_BYTES * |hw.descs| == board.descSize
    requires m.descBase + board.descSize <= TWO_32 * TWO_32
    requires m.txBase + board.txSize <= TWO_32 * TWO_32 && m.rxBase + board.rxSize <= TWO_32 * TWO_32
    requires forall i, k | 0 <= i < k < |conns| :: conns[i] != conns[k]
    requires ResetsWork(script, 0)
    modifies conns
    ensures rc == 0 && |talks| == |conns|
    ensures forall k | 0 <= k < |conns| && old(conns[k].Sound()) ::
              && old(conns[k].output) <= conns[k].output
              && Served(Hardware(board), e, old(conns[k].input), conns[k].output[|old(conns[k].output)|..], talks[k])
              && AllTrusted(talks[k])
  {
    hide Parse, AllAnswered, EndReply, Causal, HungReset;
    var drv := new Driver(e, m, board, timeoutMs, hw, now, script);
    rc, talks, intact := RunServer(Hardware(board), drv, conns);
  }
}
