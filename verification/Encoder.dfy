// The encoder core, which is not part of this repository: an unknown function from the pixels seen
// so far to the output beats they allow, known only to be causal and to frame one packet per image.
module Encoder {
  import opened Bytes
  import Gate

  type Beat = Gate.Beat

  /** The image geometry latched by APPLY. */
  datatype Dims = Dims(width: nat, height: nat, sampleBytes: nat)

  function ImageBytes(d: Dims): nat {
    d.width * d.height * d.sampleBytes
  }

  /** beats(d, px): the beats the core can have put out after consuming the bytes px of one image. */
  datatype Encoder = Encoder(beats: (Dims, seq<Byte>) -> seq<Beat>)

  /** The byte lanes that tkeep selects, in order. */
  function Kept(lanes: seq<Byte>, keep: seq<bool>): seq<Byte>
    decreases |lanes|
  {
    if lanes == [] || keep == [] then []
    else (if keep[0] then [lanes[0]] else []) + Kept(lanes[1..], keep[1..])
  }

  /** Nothing comes out before the first pixel, more pixels only extend the output, every beat
      carries data, and TLAST is on the final beat once the whole image is in, never before. */
  ghost predicate Causal(e: Encoder) {
    && (forall d: Dims :: e.beats(d, []) == [])
    && (forall d: Dims, px: seq<Byte>, b: Byte {:trigger e.beats(d, px + [b])} ::
          |px| < ImageBytes(d) ==> e.beats(d, px) <= e.beats(d, px + [b]))
    && (forall d: Dims, px: seq<Byte> {:trigger e.beats(d, px)} ::
          0 < ImageBytes(d) && |px| <= ImageBytes(d) ==> FramedBy(e.beats(d, px), |px| == ImageBytes(d)))
  }

  ghost predicate FramedBy(bs: seq<Beat>, whole: bool) {
    && (whole ==> bs != [])
    && (forall i | 0 <= i < |bs| ::
          Kept(bs[i].lanes, bs[i].keep) != [] && (bs[i].last <==> whole && i == |bs| - 1))
  }

  function OneByte(last: bool): Beat {
    Gate.Beat([0], [true], last)
  }

  function ZeroBeats(n: nat): (bs: seq<Beat>)
    ensures |bs| == n && forall i | 0 <= i < n :: bs[i] == OneByte(i == n - 1)
  {
    seq<Beat>(n, i requires 0 <= i < n => OneByte(i == n - 1))
  }

  /** A core that answers each whole image with n zero bytes. */
  function Padding(n: nat): Encoder {
    Encoder((d, px) => if 0 < ImageBytes(d) <= |px| then ZeroBeats(n) else [])
  }

  /** The assumption is not void, and it leaves the length of the packets open. */
  lemma CausalCores(n: nat, d: Dims, image: seq<Byte>)
    requires n > 0 && |image| == ImageBytes(d) > 0
    ensures Causal(Padding(n)) && |Packet(Padding(n), d, image)| == n
  {
    hide ImageBytes;
    forall last: bool
      ensures Kept(OneByte(last).lanes, OneByte(last).keep) == [0]
    {
      assert Kept([0][1..], [true][1..]) == [];
    }
    OneEach(ZeroBeats(n));
  }

  lemma {:induction false} OneEach(bs: seq<Beat>)
    requires forall i | 0 <= i < |bs| :: |Kept(bs[i].lanes, bs[i].keep)| == 1
    ensures |Items(bs)| == |bs|
  {
    hide Kept;
    if bs != [] {
      OneEach(bs[1..]);
    }
  }

  // --- bytes tagged with the end of their packet ---

  datatype Item = Item(b: Byte, last: bool)

  function Tag(bytes: seq<Byte>, last: bool): (items: seq<Item>)
    ensures |items| == |bytes|
    ensures forall i | 0 <= i < |bytes| :: items[i] == Item(bytes[i], last && i == |bytes| - 1)
  {
    seq(|bytes|, i requires 0 <= i < |bytes| => Item(bytes[i], last && i == |bytes| - 1))
  }

  function BeatItems(b: Beat): seq<Item> {
    Tag(Kept(b.lanes, b.keep), b.last)
  }

  function Items(bs: seq<Beat>): seq<Item> {
    if bs == [] then [] else BeatItems(bs[0]) + Items(bs[1..])
  }

  function Untag(items: seq<Item>): (bytes: seq<Byte>)
    ensures |bytes| == |items|
    ensures forall i | 0 <= i < |items| :: bytes[i] == items[i].b
  {
    seq(|items|, i requires 0 <= i < |items| => items[i].b)
  }

  lemma {:induction false} ItemsConcat(a: seq<Beat>, b: seq<Beat>)
    ensures Items(a + b) == Items(a) + Items(b)
  {
    hide BeatItems;
    if a == [] {
      assert a + b == b;
    } else {
      ItemsConcat(a[1..], b);
      assert (a + b)[0] == a[0] && (a + b)[1..] == a[1..] + b;
      Associate(BeatItems(a[0]), Items(a[1..]), Items(b));
    }
  }

  lemma ItemsPrefix(a: seq<Beat>, b: seq<Beat>)
    requires a <= b
    ensures Items(a) <= Items(b)
  {
    ItemsConcat(a, b[|a|..]);
    assert a + b[|a|..] == b;
  }

  ghost predicate NoLast(items: seq<Item>) {
    forall i | 0 <= i < |items| :: !items[i].last
  }

  /** One packet: nonempty, ended by its only TLAST. */
  ghost predicate Framed(items: seq<Item>) {
    items != [] && forall i | 0 <= i < |items| :: items[i].last <==> i == |items| - 1
  }

  lemma {:induction false} ItemsOfFramedBeats(bs: seq<Beat>, whole: bool)
    requires FramedBy(bs, whole)
    ensures whole ==> Framed(Items(bs))
    ensures !whole ==> NoLast(Items(bs))
  {
    if bs == [] {
    } else if bs[1..] == [] {
      assert Items(bs) == BeatItems(bs[0]);
    } else {
      ItemsOfFramedBeats(bs[1..], whole);
    }
  }

  // --- the core: what it may have put out for all pixels fed since its reset ---

  /** The beats available after feeding `fed`: whole images one after the other, then a partial one. */
  function Avail(e: Encoder, d: Dims, fed: seq<Byte>): seq<Beat>
    decreases |fed|
  {
    if ImageBytes(d) == 0 then []
    else if |fed| < ImageBytes(d) then e.beats(d, fed)
    else e.beats(d, fed[..ImageBytes(d)]) + Avail(e, d, fed[ImageBytes(d)..])
  }

  /** The packet of one image, with TLAST on its final byte. */
  function Packet(e: Encoder, d: Dims, image: seq<Byte>): seq<Item> {
    Items(e.beats(d, image))
  }

  /** The packets of the images that are complete in `fed`. */
  function Packets(e: Encoder, d: Dims, fed: seq<Byte>): seq<seq<Item>>
    decreases |fed|
  {
    if ImageBytes(d) == 0 || |fed| < ImageBytes(d) then []
    else [Packet(e, d, fed[..ImageBytes(d)])] + Packets(e, d, fed[ImageBytes(d)..])
  }

  /** What the incomplete image at the end has put out. */
  function Partial(e: Encoder, d: Dims, fed: seq<Byte>): seq<Item>
    decreases |fed|
  {
    if ImageBytes(d) == 0 then []
    else if |fed| < ImageBytes(d) then Items(e.beats(d, fed))
    else Partial(e, d, fed[ImageBytes(d)..])
  }

  lemma {:induction false} AvailGrows(e: Encoder, d: Dims, fed: seq<Byte>, b: Byte)
    requires Causal(e)
    ensures Avail(e, d, fed) <= Avail(e, d, fed + [b])
    decreases |fed|
  {
    var n := ImageBytes(d);
    if n == 0 {
    } else if |fed| >= n {
      AvailGrows(e, d, fed[n..], b);
      assert (fed + [b])[..n] == fed[..n] && (fed + [b])[n..] == fed[n..] + [b];
    } else if |fed| + 1 == n {
      assert (fed + [b])[..n] == fed + [b];
    }
  }

  lemma {:induction false} AvailMonotone(e: Encoder, d: Dims, fed: seq<Byte>, all: seq<Byte>)
    requires Causal(e) && fed <= all
    ensures Avail(e, d, fed) <= Avail(e, d, all)
    decreases |all|
  {
    if fed == all {
    } else {
      var most := all[..|all| - 1];
      AvailMonotone(e, d, fed, most);
      AvailGrows(e, d, most, all[|all| - 1]);
      assert most + [all[|all| - 1]] == all;
    }
  }

  /** As bytes, the output is the packets of the whole images followed by an unfinished one. */
  lemma {:induction false} AvailItems(e: Encoder, d: Dims, fed: seq<Byte>)
    requires Causal(e)
    ensures Items(Avail(e, d, fed)) == Flat(Packets(e, d, fed)) + Partial(e, d, fed)
    ensures forall k | 0 <= k < |Packets(e, d, fed)| :: Framed(Packets(e, d, fed)[k])
    ensures NoLast(Partial(e, d, fed))
    decreases |fed|
  {
    var n := ImageBytes(d);
    if n == 0 {
    } else if |fed| < n {
      ItemsOfFramedBeats(e.beats(d, fed), false);
    } else {
      AvailItems(e, d, fed[n..]);
      ItemsConcat(e.beats(d, fed[..n]), Avail(e, d, fed[n..]));
      ItemsOfFramedBeats(e.beats(d, fed[..n]), true);
      var ps := Packets(e, d, fed);
      assert ps == [Packet(e, d, fed[..n])] + Packets(e, d, fed[n..]);
      assert ps[1..] == Packets(e, d, fed[n..]);
    }
  }

  /** The k-th of the images that `fed` holds back to back. */
  function Image(d: Dims, fed: seq<Byte>, k: nat): seq<Byte>
    requires (k + 1) * ImageBytes(d) <= |fed|
  {
    assert (k + 1) * ImageBytes(d) == k * ImageBytes(d) + ImageBytes(d);
    fed[k * ImageBytes(d)..(k + 1) * ImageBytes(d)]
  }

  /** The core finishes packet k exactly when it has been fed images 0 to k in full. */
  lemma {:induction false} PacketsAre(e: Encoder, d: Dims, fed: seq<Byte>, k: nat)
    requires ImageBytes(d) > 0
    ensures k < |Packets(e, d, fed)| <==> (k + 1) * ImageBytes(d) <= |fed|
    ensures k < |Packets(e, d, fed)| ==> Packets(e, d, fed)[k] == Packet(e, d, Image(d, fed, k))
    decreases |fed|
  {
    var n := ImageBytes(d);
    assert (k + 1) * n == k * n + n && k * n >= 0;
    if |fed| >= n {
      var rest := fed[n..];
      if k > 0 {
        PacketsAre(e, d, rest, k - 1);
        assert (k - 1 + 1) * n == k * n;
        if (k + 1) * n <= |fed| {
          assert k * n <= |rest|;
          assert (k - 1) * n == k * n - n;
          assert Image(d, rest, k - 1) == Image(d, fed, k);
        }
      } else {
        assert Packets(e, d, fed)[0] == Packet(e, d, fed[..n]);
        assert 0 * n == 0 && 1 * n == n;
      }
    }
  }
}
