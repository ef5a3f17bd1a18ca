// What a descriptor ring does to a byte stream, with no pointers or memory in sight: it cuts the
// stream at every TLAST and wherever a descriptor is full. The engine is proved to do this.
module Segment {
  import opened Bytes
  import opened Encoder

  /** Segments of the descriptors already closed, then the open one. */
  datatype Seg = Seg(done: seq<seq<Item>>, cur: seq<Item>)

  const START := Seg([], [])

  /** No descriptor can take another byte. */
  predicate Stuck(caps: seq<nat>, g: Seg) {
    |g.done| >= |caps| || caps[|g.done|] == 0
  }

  function Take(caps: seq<nat>, g: Seg, it: Item): Seg {
    if Stuck(caps, g) then g
    else
      var c := g.cur + [it];
      if it.last || |c| >= caps[|g.done|] then Seg(g.done + [c], []) else Seg(g.done, c)
  }

  function TakeAll(caps: seq<nat>, g: Seg, items: seq<Item>): Seg
    decreases |items|
  {
    if items == [] then g else TakeAll(caps, Take(caps, g, items[0]), items[1..])
  }

  lemma {:induction false} TakeAllConcat(caps: seq<nat>, g: Seg, a: seq<Item>, b: seq<Item>)
    ensures TakeAll(caps, g, a + b) == TakeAll(caps, TakeAll(caps, g, a), b)
    decreases |a|
  {
    hide Take;
    if a == [] {
      assert a + b == b;
    } else {
      assert (a + b)[1..] == a[1..] + b;
      TakeAllConcat(caps, Take(caps, g, a[0]), a[1..], b);
    }
  }

  predicate EndsLast(s: seq<Item>) {
    s != [] && s[|s| - 1].last
  }

  /** How many segments from the first on were closed by TLAST. */
  function Lead(done: seq<seq<Item>>): (n: nat)
    ensures n <= |done|
    ensures forall i | 0 <= i < n :: EndsLast(done[i])
    ensures n < |done| ==> !EndsLast(done[n])
  {
    if done == [] || !EndsLast(done[0]) then 0 else 1 + Lead(done[1..])
  }

  lemma LeadIs(done: seq<seq<Item>>, n: nat)
    requires n <= |done|
    requires forall i | 0 <= i < n :: EndsLast(done[i])
    requires n < |done| ==> !EndsLast(done[n])
    ensures Lead(done) == n
  {
  }

  /** The shape of every closed segment: no TLAST inside, and closed for a reason. */
  ghost predicate Closed(s: seq<Item>, cap: nat) {
    && 0 < |s| <= cap
    && NoLast(s[..|s| - 1])
    && (EndsLast(s) || |s| == cap)
  }

  /** What the cutter keeps true after taking the stream `all`. */
  ghost predicate Cut(caps: seq<nat>, g: Seg, all: seq<Item>) {
    && |g.done| <= |caps|
    && (forall i | 0 <= i < |g.done| :: Closed(g.done[i], caps[i]))
    && NoLast(g.cur)
    && (if Stuck(caps, g) then g.cur == [] else |g.cur| < caps[|g.done|])
    && Flat(g.done) + g.cur <= all
    && (!Stuck(caps, g) ==> Flat(g.done) + g.cur == all)
  }

  lemma TakeCuts(caps: seq<nat>, g: Seg, all: seq<Item>, it: Item)
    requires Cut(caps, g, all)
    ensures Cut(caps, Take(caps, g, it), all + [it])
    ensures g.done <= Take(caps, g, it).done
  {
    var g' := Take(caps, g, it);
    if !Stuck(caps, g) {
      var c := g.cur + [it];
      assert all + [it] == Flat(g.done) + c;
      if it.last || |c| >= caps[|g.done|] {
        FlatSnoc(g.done, c);
        assert c[..|c| - 1] == g.cur;
        assert Flat(g'.done) + g'.cur == all + [it];
      }
    }
  }

  lemma {:induction false} TakeAllCuts(caps: seq<nat>, g: Seg, all: seq<Item>, items: seq<Item>)
    requires Cut(caps, g, all)
    ensures Cut(caps, TakeAll(caps, g, items), all + items)
    ensures g.done <= TakeAll(caps, g, items).done
    decreases |items|
  {
    hide Cut, Take;
    if items == [] {
      assert all + items == all;
    } else {
      TakeCuts(caps, g, all, items[0]);
      TakeAllCuts(caps, Take(caps, g, items[0]), all + [items[0]], items[1..]);
      assert (all + [items[0]]) + items[1..] == all + items;
    }
  }

  lemma StartCuts(caps: seq<nat>)
    ensures Cut(caps, START, [])
  {
  }

  /** A stream ends at its first TLAST. */
  ghost predicate EndsAtFirstLast(s: seq<Item>) {
    EndsLast(s) && NoLast(s[..|s| - 1])
  }

  lemma SameEnd(s: seq<Item>, p: seq<Item>, after: seq<Item>)
    requires EndsAtFirstLast(s) && Framed(p) && s <= p + after
    ensures s == p
  {
    if |s| > |p| {
      LastInside(s, p, after);
    }
    assert (p + after)[|s| - 1] == s[|s| - 1];
  }

  lemma LastInside(s: seq<Item>, p: seq<Item>, after: seq<Item>)
    requires Framed(p) && s <= p + after && |p| < |s|
    ensures !NoLast(s[..|s| - 1])
  {
    assert s[..|s| - 1][|p| - 1] == (p + after)[|p| - 1] == p[|p| - 1];
  }

  lemma NoEnd(s: seq<Item>, rest: seq<Item>)
    requires s <= rest && NoLast(rest)
    ensures !EndsAtFirstLast(s)
  {
    if s != [] {
      assert s[|s| - 1] == rest[|s| - 1];
    }
  }

  /** A stream that ends at its first TLAST and begins a stream of packets is the first packet. */
  lemma FirstPacket(s: seq<Item>, pkts: seq<seq<Item>>, rest: seq<Item>)
    requires s <= Flat(pkts) + rest && EndsAtFirstLast(s)
    requires (forall k | 0 <= k < |pkts| :: Framed(pkts[k])) && NoLast(rest)
    ensures |pkts| > 0 && s == pkts[0]
  {
    hide Flat, Framed, NoLast, EndsAtFirstLast;
    if pkts == [] {
      FlatEmpty(pkts, rest);
      NoEnd(s, rest);
    } else {
      FlatHead(pkts, rest);
      SameEnd(s, pkts[0], Flat(pkts[1..]) + rest);
    }
  }

  lemma FlatEmpty<T>(ss: seq<seq<T>>, rest: seq<T>)
    requires ss == []
    ensures Flat(ss) + rest == rest
  {
  }

  lemma FlatHead<T>(ss: seq<seq<T>>, rest: seq<T>)
    requires ss != []
    ensures Flat(ss) + rest == ss[0] + (Flat(ss[1..]) + rest)
  {
  }

  /** Cut a prefix of a packet stream: the leading segments closed by TLAST are the leading packets,
      whole and in order. A segment that was full first, and everything after it, is never in the lead. */
  lemma {:induction false} LeadIsExact(caps: seq<nat>, g: Seg, all: seq<Item>, pkts: seq<seq<Item>>, rest: seq<Item>,
                                       n: nat)
    requires Cut(caps, g, all) && all <= Flat(pkts) + rest
    requires (forall k | 0 <= k < |pkts| :: Framed(pkts[k])) && NoLast(rest)
    requires n <= Lead(g.done)
    ensures n <= |pkts| && g.done[..n] == pkts[..n]
  {
    hide Cut, Flat, Lead, Framed, NoLast;
    if n != 0 {
      LeadIsExact(caps, g, all, pkts, rest, n - 1);
      var s := g.done[n - 1];
      LeadSegment(caps, g, all, n - 1);
      FlatAt(g.done, n - 1);
      FlatSplit(pkts, n - 1);
      var before := Flat(g.done[..n - 1]);
      var ahead := Flat(pkts[n - 1..]) + rest;
      assert Flat(pkts) + rest == before + ahead;
      PrefixAfter(before, s, ahead);
      FirstPacket(s, pkts[n - 1..], rest);
      assert g.done[..n] == g.done[..n - 1] + [s] && pkts[..n] == pkts[..n - 1] + [s];
    }
  }

  lemma LeadSegment(caps: seq<nat>, g: Seg, all: seq<Item>, i: nat)
    requires Cut(caps, g, all) && i < |g.done| && EndsLast(g.done[i])
    ensures EndsAtFirstLast(g.done[i])
    ensures Flat(g.done) <= all
  {
    assert Closed(g.done[i], caps[i]);
  }

  lemma FlatAt<T>(ss: seq<seq<T>>, i: nat)
    requires i < |ss|
    ensures Flat(ss[..i]) + ss[i] == Flat(ss[..i + 1]) <= Flat(ss)
  {
    hide Flat;
    FlatSplit(ss, i + 1);
    FlatSnoc(ss[..i], ss[i]);
    assert ss[..i + 1] == ss[..i] + [ss[i]];
  }

  lemma PrefixAfter<T>(a: seq<T>, s: seq<T>, b: seq<T>)
    requires a + s <= a + b
    ensures s <= b
  {
    assert s == (a + s)[|a|..] == (a + b)[|a|..|a| + |s|] == b[..|s|];
  }

  /** The first segment closed by TLAST, with the full ones before it, is the whole first packet. */
  lemma FirstEof(caps: seq<nat>, g: Seg, all: seq<Item>, pkts: seq<seq<Item>>, rest: seq<Item>, i: nat)
    requires Cut(caps, g, all) && all <= Flat(pkts) + rest
    requires (forall k | 0 <= k < |pkts| :: Framed(pkts[k])) && NoLast(rest)
    requires i < |g.done| && EndsLast(g.done[i]) && forall j | 0 <= j < i :: !EndsLast(g.done[j])
    ensures |pkts| > 0 && Flat(g.done[..i + 1]) == pkts[0]
  {
    hide Flat, Framed, NoLast, Cut;
    var s := g.done[i];
    LeadSegment(caps, g, all, i);
    FlatAt(g.done, i);
    var before := Flat(g.done[..i]);
    FullBefore(caps, g, all, i);
    NoLastConcat(before, s[..|s| - 1]);
    assert (before + s)[..|before + s| - 1] == before + s[..|s| - 1];
    FirstPacket(before + s, pkts, rest);
  }

  lemma NoLastConcat(a: seq<Item>, b: seq<Item>)
    requires NoLast(a) && NoLast(b)
    ensures NoLast(a + b)
  {
  }

  lemma FullBefore(caps: seq<nat>, g: Seg, all: seq<Item>, i: nat)
    requires Cut(caps, g, all) && i < |g.done|
    requires forall j | 0 <= j < i :: !EndsLast(g.done[j])
    ensures NoLast(Flat(g.done[..i]))
  {
    FullHasNoLast(g.done[..i], caps[..i]);
  }

  lemma {:induction false} FullHasNoLast(done: seq<seq<Item>>, caps: seq<nat>)
    requires |done| == |caps|
    requires forall j | 0 <= j < |done| :: Closed(done[j], caps[j]) && !EndsLast(done[j])
    ensures NoLast(Flat(done))
  {
    if done != [] {
      FullHasNoLast(done[1..], caps[1..]);
      var s := done[0];
      assert Closed(s, caps[0]) && s == s[..|s| - 1] + [s[|s| - 1]];
    }
  }
}
