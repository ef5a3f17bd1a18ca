// The stream reply: printed by the server's stream_send, parsed by the client's run_stream.
module Reply {
  import opened Bytes
  import opened Proto
  import opened Socket

  function Table(images: seq<seq<Byte>>): seq<Byte> {
    if images == [] then [] else PutU32(Wrap32(|images[0]|)) + Table(images[1..])
  }

  function TotalBytes(images: seq<seq<Byte>>): nat {
    4 * |images| + |Flat(images)|
  }

  lemma {:induction false} FlatAlike(images: seq<seq<Byte>>, size: nat)
    requires forall k | 0 <= k < |images| :: |images[k]| == size
    ensures |Flat(images)| == |images| * size
  {
    if images != [] {
      FlatAlike(images[1..], size);
      assert |images| * size == (|images| - 1) * size + size;
    }
  }

  lemma {:induction false} FlatBound(images: seq<seq<Byte>>, size: nat)
    requires forall k | 0 <= k < |images| :: |images[k]| <= size
    ensures |Flat(images)| <= |images| * size
  {
    if images != [] {
      FlatBound(images[1..], size);
      assert |images| * size == (|images| - 1) * size + size;
    }
  }

  /** Header, then the N lengths, then the N images. An image of length 0 never closed. */
  function StreamReply(req: Hdr, status: Byte, images: seq<seq<Byte>>): seq<Byte> {
    PackHdr(req.(kind := STREAM_RESP, status := status, payloadLen := Wrap32(TotalBytes(images))))
    + Table(images) + Flat(images)
  }

  /** The images stream_send takes from `base` at stride `slot`. */
  function Slots(base: seq<Byte>, slot: nat, lens: seq<U32>): (images: seq<seq<Byte>>)
    requires forall i | 0 <= i < |lens| :: 0 <= i * slot && i * slot + lens[i] <= |base|
    ensures |images| == |lens|
    ensures forall i | 0 <= i < |lens| :: images[i] == base[i * slot..i * slot + lens[i]]
  {
    seq<seq<Byte>>(|lens|, i requires 0 <= i < |lens| => base[i * slot..i * slot + lens[i]])
  }

  lemma {:induction false} TableSnoc(images: seq<seq<Byte>>, img: seq<Byte>)
    ensures Table(images + [img]) == Table(images) + PutU32(Wrap32(|img|))
  {
    if images == [] {
      assert images + [img] == [img];
    } else {
      TableSnoc(images[1..], img);
      assert (images + [img])[1..] == images[1..] + [img];
    }
  }

  lemma {:induction false} TableLen(images: seq<seq<Byte>>)
    ensures |Table(images)| == 4 * |images|
  {
    if images != [] {
      TableLen(images[1..]);
    }
  }

  lemma PrefixSnoc<T>(xs: seq<T>, i: nat)
    requires i < |xs|
    ensures xs[..i + 1] == xs[..i] + [xs[i]]
  {
  }

  /** Sends header, lengths and images in that order; with a healthy socket the peer gets exactly
      the reply, in whatever pieces the kernel takes it. */
  method StreamSend(conn: Conn, req: Hdr, status: Byte, base: array<Byte>, slot: nat, lens: array<U32>)
      returns (rc: int)
    requires forall i | 0 <= i < lens.Length :: 0 <= i * slot && i * slot + lens[i] <= base.Length
    modifies conn`output, conn`writePlan
    ensures rc == 0 || rc == -1
    ensures old(Unbroken(conn.writePlan)) ==> rc == 0 && Unbroken(conn.writePlan)
    ensures rc == 0 ==> conn.output == old(conn.output) + StreamReply(req, status, Slots(base[..], slot, lens[..]))
  {
    hide PackHdr, Table, Flat, Slots;
    ghost var images := Slots(base[..], slot, lens[..]);
    ghost var start := conn.output;
    var total := TotalLength(lens, images);
    var hdrBuf := new Byte[HDR_LEN];
    HdrPack(hdrBuf, req.(kind := STREAM_RESP, status := status, payloadLen := total));
    rc := conn.SendFull(hdrBuf, 0, HDR_LEN);
    if rc != 0 {
      return -1;
    }
    assert hdrBuf[0..HDR_LEN] == hdrBuf[..];
    rc := SendTable(conn, lens, images);
    if rc != 0 {
      return -1;
    }
    rc := SendImages(conn, base, slot, lens, images);
    Regroup(start, hdrBuf[..], Table(images), Flat(images));
  }

  lemma Regroup(a: seq<Byte>, b: seq<Byte>, c: seq<Byte>, d: seq<Byte>)
    ensures a + b + c + d == a + (b + c + d)
  {
  }

  /** `total`, a uint32_t. */
  method TotalLength(lens: array<U32>, ghost images: seq<seq<Byte>>) returns (total: U32)
    requires |images| == lens.Length && forall i | 0 <= i < lens.Length :: |images[i]| == lens[i]
    ensures total == Wrap32(TotalBytes(images))
  {
    hide Flat;
    var count := lens.Length;
    total := Wrap32(count * 4);
    NoImages(images);
    for i := 0 to count
      invariant total == Wrap32(4 * count + |Flat(images[..i])|)
    {
      NextTotal(images, i);
      total := Wrap32(total as int + lens[i] as int);
    }
    assert images[..count] == images;
  }

  lemma NoImages(images: seq<seq<Byte>>)
    ensures Flat(images[..0]) == [] && Table(images[..0]) == []
  {
  }

  method SendTable(conn: Conn, lens: array<U32>, ghost images: seq<seq<Byte>>) returns (rc: int)
    requires |images| == lens.Length && forall i | 0 <= i < lens.Length :: |images[i]| == lens[i]
    modifies conn`output, conn`writePlan
    ensures rc == 0 || rc == -1
    ensures old(Unbroken(conn.writePlan)) ==> rc == 0 && Unbroken(conn.writePlan)
    ensures rc == 0 ==> conn.output == old(conn.output) + Table(images)
  {
    hide PutU32, Table;
    var lenBuf := new Byte[4];
    NoImages(images);
    for i := 0 to lens.Length
      invariant conn.output == old(conn.output) + Table(images[..i])
      invariant old(Unbroken(conn.writePlan)) ==> Unbroken(conn.writePlan)
    {
      PutU32At(lenBuf, 0, lens[i]);
      rc := conn.SendFull(lenBuf, 0, 4);
      if rc != 0 {
        return -1;
      }
      PrefixSnoc(images, i);
      TableSnoc(images[..i], images[i]);
    }
    assert images[..lens.Length] == images;
    return 0;
  }

  method SendImages(conn: Conn, base: array<Byte>, slot: nat, lens: array<U32>, ghost images: seq<seq<Byte>>)
      returns (rc: int)
    requires |images| == lens.Length
    requires forall i | 0 <= i < lens.Length ::
               0 <= i * slot && i * slot + lens[i] <= base.Length && images[i] == base[i * slot..i * slot + lens[i]]
    modifies conn`output, conn`writePlan
    ensures rc == 0 || rc == -1
    ensures old(Unbroken(conn.writePlan)) ==> rc == 0 && Unbroken(conn.writePlan)
    ensures rc == 0 ==> conn.output == old(conn.output) + Flat(images)
  {
    hide Flat;
    NoImages(images);
    for i := 0 to lens.Length
      invariant conn.output == old(conn.output) + Flat(images[..i])
      invariant old(Unbroken(conn.writePlan)) ==> Unbroken(conn.writePlan)
    {
      rc := conn.SendFull(base, i * slot, lens[i]);
      if rc != 0 {
        return -1;
      }
      PrefixSnoc(images, i);
      FlatSnoc(images[..i], images[i]);
    }
    assert images[..lens.Length] == images;
    return 0;
  }

  lemma NextTotal(images: seq<seq<Byte>>, i: nat)
    requires i < |images|
    ensures |Flat(images[..i + 1])| == |Flat(images[..i])| + |images[i]|
  {
    hide Flat;
    PrefixSnoc(images, i);
    FlatSnoc(images[..i], images[i]);
  }

  // --- the client ---

  datatype File = File(index: nat, data: seq<Byte>)

  /** `run_stream` counts its files in an int argument vector. */
  const MAX_FILES: nat := 0x4000_0000

  /** The length table, entry by entry. */
  function Lens(table: seq<Byte>): (lens: seq<nat>)
    ensures |lens| == |table| / 4
    decreases |table|
  {
    if |table| < 4 then [] else [GetU32(table[..4])] + Lens(table[4..])
  }

  /** One file per nonzero length, each taking the next bytes of `body`. */
  function Files(lens: seq<nat>, body: seq<Byte>, index: nat): seq<File>
    requires Sum(lens) <= |body|
    decreases |lens|
  {
    if lens == [] then []
    else (if lens[0] == 0 then [] else [File(index, body[..lens[0]])]) + Files(lens[1..], body[lens[0]..], index + 1)
  }

  lemma {:induction false} LensAt(table: seq<Byte>, i: nat)
    requires 4 * i + 4 <= |table|
    ensures Lens(table)[i] == GetU32(table[4 * i..4 * i + 4])
    decreases |table|
  {
    if i > 0 {
      LensAt(table[4..], i - 1);
      assert table[4..][4 * (i - 1)..4 * (i - 1) + 4] == table[4 * i..4 * i + 4];
    }
  }

  lemma SumAt(lens: seq<nat>, i: nat)
    requires i < |lens|
    ensures Sum(lens[i..]) == lens[i] + Sum(lens[i + 1..])
  {
    assert lens[i..][1..] == lens[i + 1..];
  }

  lemma FilesAt(lens: seq<nat>, body: seq<Byte>, i: nat)
    requires i < |lens| && Sum(lens[i..]) <= |body|
    ensures Sum(lens[i + 1..]) <= |body| - lens[i]
    ensures Files(lens[i..], body, i)
            == (if lens[i] == 0 then [] else [File(i, body[..lens[i]])]) + Files(lens[i + 1..], body[lens[i]..], i + 1)
  {
    SumAt(lens, i);
    assert lens[i..][1..] == lens[i + 1..];
  }

  /** `run_stream` on an arbitrary payload: add up the table, then take the files. Every slice it
      takes is in bounds. */
  method ParseStream(payload: array<Byte>, count: nat) returns (ok: bool, files: seq<File>, closed: nat)
    requires count < MAX_FILES && 4 * count <= payload.Length < TWO_32
    ensures var lens := Lens(payload[..4 * count]);
            && (ok <==> 4 * count + Sum(lens) == payload.Length)
            && (ok ==> files == Files(lens, payload[4 * count..], 0) && closed == |files|)
  {
    hide Lens, Sum, Files;
    var total := AddUp(payload, count, payload[..4 * count]);
    if total != payload.Length {
      return false, [], 0;
    }
    files, closed := TakeFiles(payload, count, payload[..4 * count], payload[4 * count..]);
    ok := true;
  }

  method AddUp(payload: array<Byte>, count: nat, ghost table: seq<Byte>) returns (total: nat)
    requires count < MAX_FILES && 4 * count <= payload.Length && table == payload[..4 * count]
    ensures total == 4 * count + Sum(Lens(table))
  {
    hide Lens, Sum, GetU32;
    total := Wrap32(count * 4);
    ghost var lens := Lens(table);
    assert lens[0..] == lens;
    for i := 0 to count
      invariant total + Sum(lens[i..]) == 4 * count + Sum(lens)
    {
      EntryAt(payload, table, i);
      SumAt(lens, i);
      total := total + GetU32(payload[4 * i..4 * i + 4]);
    }
    SumNothing(lens[count..]);
  }

  method TakeFiles(payload: array<Byte>, count: nat, ghost table: seq<Byte>, ghost body: seq<Byte>)
      returns (files: seq<File>, closed: nat)
    requires count < MAX_FILES && 4 * count <= payload.Length
    requires table == payload[..4 * count] && body == payload[4 * count..] && Sum(Lens(table)) == |body|
    ensures files == Files(Lens(table), body, 0) && closed == |files|
  {
    hide Lens, Sum, Files, GetU32;
    var off: nat := Wrap32(count * 4);
    files, closed := [], 0;
    ghost var lens := Lens(table);
    ghost var rest := body;
    assert lens[0..] == lens;
    for i := 0 to count
      invariant 4 * count <= off <= payload.Length && rest == payload[off..] && Sum(lens[i..]) <= |rest|
      invariant files + Files(lens[i..], rest, i) == Files(lens, body, 0)
      invariant closed == |files|
    {
      EntryAt(payload, table, i);
      NextFile(lens, rest, i, files, Files(lens, body, 0));
      var len := GetU32(payload[4 * i..4 * i + 4]);
      SliceOf(payload, off, len);
      rest := rest[len..];
      if len == 0 {
        continue;
      }
      files := files + [File(i, payload[off..off + len])];
      off := off + len;
      closed := closed + 1;
    }
    FilesOfNothing(lens[count..], rest, count);
  }

  lemma NextFile(lens: seq<nat>, rest: seq<Byte>, i: nat, files: seq<File>, all: seq<File>)
    requires i < |lens| && Sum(lens[i..]) <= |rest| && files + Files(lens[i..], rest, i) == all
    ensures lens[i] <= |rest| && Sum(lens[i + 1..]) <= |rest| - lens[i]
    ensures (if lens[i] == 0 then files else files + [File(i, rest[..lens[i]])])
            + Files(lens[i + 1..], rest[lens[i]..], i + 1) == all
  {
    hide Files, Sum;
    FilesAt(lens, rest, i);
    SumAt(lens, i);
    var after := Files(lens[i + 1..], rest[lens[i]..], i + 1);
    if lens[i] == 0 {
      assert [] + after == after;
    } else {
      Associate(files, [File(i, rest[..lens[i]])], after);
    }
  }

  lemma SliceOf(payload: array<Byte>, off: nat, len: nat)
    requires off + len <= payload.Length
    ensures payload[off..][..len] == payload[off..off + len] && payload[off..][len..] == payload[off + len..]
  {
  }

  lemma EntryAt(payload: array<Byte>, table: seq<Byte>, i: nat)
    requires |table| <= payload.Length && payload[..|table|] == table && 4 * i + 4 <= |table|
    ensures Lens(table)[i] == GetU32(payload[4 * i..4 * i + 4])
  {
    hide Lens, GetU32;
    LensAt(table, i);
    assert payload[4 * i..4 * i + 4] == payload[..|table|][4 * i..4 * i + 4];
  }

  lemma SumNothing(lens: seq<nat>)
    requires lens == []
    ensures Sum(lens) == 0
  {
  }

  lemma FilesOfNothing(lens: seq<nat>, body: seq<Byte>, index: nat)
    requires lens == []
    ensures Sum(lens) == 0 && Files(lens, body, index) == []
  {
  }

  function Datas(files: seq<File>): seq<seq<Byte>> {
    if files == [] then [] else [files[0].data] + Datas(files[1..])
  }

  /** Whatever payload passes the total check, the files together are all of the body... */
  lemma {:induction false} FilesTile(lens: seq<nat>, body: seq<Byte>, index: nat)
    requires Sum(lens) == |body|
    ensures Flat(Datas(Files(lens, body, index))) == body
    decreases |lens|
  {
    if lens != [] {
      var rest := Files(lens[1..], body[lens[0]..], index + 1);
      FilesTile(lens[1..], body[lens[0]..], index + 1);
      assert body[..lens[0]] + body[lens[0]..] == body;
      if lens[0] != 0 {
        OneMoreData(File(index, body[..lens[0]]), rest);
      } else {
        assert [] + rest == rest;
      }
    }
  }

  lemma OneMoreData(f: File, rest: seq<File>)
    ensures Flat(Datas([f] + rest)) == f.data + Flat(Datas(rest))
  {
    assert ([f] + rest)[1..] == rest;
    assert ([f.data] + Datas(rest))[1..] == Datas(rest);
  }

  ghost predicate Indexed(files: seq<File>, lens: seq<nat>, index: nat) {
    && (forall k | 0 <= k < |files| ::
          index <= files[k].index < index + |lens| && |files[k].data| == lens[files[k].index - index] > 0)
    && (forall k, l | 0 <= k < l < |files| :: files[k].index < files[l].index)
  }

  function Positives(lens: seq<nat>): nat {
    if lens == [] then 0 else (if lens[0] > 0 then 1 else 0) + Positives(lens[1..])
  }

  /** ...and they are one for each nonzero length, in order, under its index and of that length. */
  lemma {:induction false} FilesIndexed(lens: seq<nat>, body: seq<Byte>, index: nat)
    requires Sum(lens) == |body|
    ensures Indexed(Files(lens, body, index), lens, index) && |Files(lens, body, index)| == Positives(lens)
    decreases |lens|
  {
    hide Indexed;
    if lens == [] {
      IndexedNone(lens, index);
    } else {
      var rest := Files(lens[1..], body[lens[0]..], index + 1);
      FilesIndexed(lens[1..], body[lens[0]..], index + 1);
      IndexedLater(rest, lens, index);
      if lens[0] > 0 {
        IndexedCons(File(index, body[..lens[0]]), rest, lens, index);
      } else {
        assert [] + rest == rest;
      }
    }
  }

  lemma IndexedNone(lens: seq<nat>, index: nat)
    ensures Indexed([], lens, index)
  {
  }

  lemma IndexedLater(rest: seq<File>, lens: seq<nat>, index: nat)
    requires lens != [] && Indexed(rest, lens[1..], index + 1)
    ensures Indexed(rest, lens, index) && forall k | 0 <= k < |rest| :: rest[k].index > index
  {
    forall k | 0 <= k < |rest|
      ensures index < rest[k].index < index + |lens| && |rest[k].data| == lens[rest[k].index - index] > 0
    {
      assert lens[1..][rest[k].index - (index + 1)] == lens[rest[k].index - index];
    }
  }

  lemma IndexedCons(f: File, rest: seq<File>, lens: seq<nat>, index: nat)
    requires lens != [] && Indexed(rest, lens, index) && forall k | 0 <= k < |rest| :: rest[k].index > index
    requires f.index == index && |f.data| == lens[0] > 0
    ensures Indexed([f] + rest, lens, index)
  {
  }

  /** The images the client should write, as the server listed them. */
  function Nonempty(images: seq<seq<Byte>>, index: nat): seq<File>
    decreases |images|
  {
    if images == [] then []
    else (if images[0] == [] then [] else [File(index, images[0])]) + Nonempty(images[1..], index + 1)
  }

  /** What the client sees in a table and body the server printed. */
  lemma {:induction false} ParsesBack(images: seq<seq<Byte>>, index: nat)
    requires forall i | 0 <= i < |images| :: |images[i]| < TWO_32
    ensures |Table(images)| == 4 * |images|
    ensures Sum(Lens(Table(images))) == |Flat(images)|
    ensures Files(Lens(Table(images)), Flat(images), index) == Nonempty(images, index)
    decreases |images|
  {
    hide GetU32, PutU32;
    if images != [] {
      ParsesBack(images[1..], index + 1);
      var word, rest := PutU32(Wrap32(|images[0]|)), Table(images[1..]);
      assert (word + rest)[..4] == word && (word + rest)[4..] == rest;
      RoundTripU32(|images[0]|, word);
      var lens := Lens(Table(images));
      assert lens == [|images[0]|] + Lens(rest);
      assert lens[1..] == Lens(rest);
      assert Flat(images)[..|images[0]|] == images[0];
      assert Flat(images)[|images[0]|..] == Flat(images[1..]);
    } else {
      assert Lens([]) == [];
    }
  }

  datatype Verdict =
    | Malformed
    | Rejected(status: Byte)                      // an empty error response
    | Failed(status: Byte, files: seq<File>)      // a stream that broke off after these images
    | Complete(files: seq<File>)

  /** `run_stream` on a whole response: header checks, then the payload. */
  function ClientVerdict(count: nat, response: seq<Byte>): Verdict {
    if |response| < HDR_LEN then Malformed
    else
      var resp := UnpackHdr(response[..HDR_LEN]);
      var payload := response[HDR_LEN..];
      if resp.magic != MAGIC then Malformed
      else if resp.status != ST_OK && resp.payloadLen == 0 then Rejected(resp.status)
      else if resp.kind != STREAM_RESP || resp.payloadLen < Wrap32(count * 4) then Malformed
      else if |payload| < resp.payloadLen || resp.payloadLen < 4 * count then Malformed
      else
        var lens := Lens(payload[..4 * count]);
        if 4 * count + Sum(lens) != resp.payloadLen then Malformed
        else
          var files := Files(lens, payload[4 * count..resp.payloadLen], 0);
          if resp.status != ST_OK then Failed(resp.status, files) else Complete(files)
  }

  /** The client's side of the connection: it reads one response and reaches the verdict, however the
      bytes arrive. */
  method ReadResponse(conn: Conn, count: nat) returns (v: Verdict)
    requires count < MAX_FILES && Unbroken(conn.readPlan)
    modifies conn`input, conn`readPlan
    ensures v == ClientVerdict(count, old(conn.input))
    ensures Unbroken(conn.readPlan)
    ensures !v.Malformed? ==>
              var n := HDR_LEN + UnpackHdr(old(conn.input)[..HDR_LEN]).payloadLen;
              n <= |old(conn.input)| && conn.input == old(conn.input)[n..]
  {
    hide Lens, Sum, Files, UnpackHdr;
    ghost var response := conn.input;
    var hdrRaw := new Byte[HDR_LEN];
    var rc := conn.RecvFull(hdrRaw, 0, HDR_LEN);
    if rc != 0 {
      return Malformed;
    }
    assert hdrRaw[..] == hdrRaw[0..HDR_LEN];
    var resp := UnpackHdr(hdrRaw[..]);
    if resp.magic != MAGIC {
      return Malformed;
    }
    if resp.status != ST_OK && resp.payloadLen == 0 {
      return Rejected(resp.status);
    }
    if resp.kind != STREAM_RESP || resp.payloadLen < Wrap32(count * 4) {
      return Malformed;
    }
    var payload := new Byte[resp.payloadLen];
    rc := conn.RecvFull(payload, 0, resp.payloadLen);
    if rc != 0 {
      return Malformed;
    }
    ReceivedParts(response[HDR_LEN..], payload[..], resp.payloadLen, 4 * count);
    assert payload[..] == payload[0..resp.payloadLen];
    var ok, files, closed := ParseStream(payload, count);
    if !ok {
      return Malformed;
    }
    return if resp.status != ST_OK then Failed(resp.status, files) else Complete(files);
  }

  /** The body cut by a table of lengths. */
  function Listed(lens: seq<nat>, body: seq<Byte>): (images: seq<seq<Byte>>)
    requires Sum(lens) <= |body|
    ensures |images| == |lens| && forall i | 0 <= i < |lens| :: |images[i]| == lens[i]
    decreases |lens|
  {
    if lens == [] then [] else [body[..lens[0]]] + Listed(lens[1..], body[lens[0]..])
  }

  /** Whatever table adds up to its body is one that a server prints. */
  lemma {:induction false} PrintsBack(table: seq<Byte>, body: seq<Byte>)
    requires |table| % 4 == 0 && Sum(Lens(table)) == |body|
    ensures var images := Listed(Lens(table), body);
            Table(images) == table && Flat(images) == body && forall i | 0 <= i < |images| :: |images[i]| < TWO_32
    decreases |table|
  {
    hide GetU32, PutU32;
    if table != [] {
      var lens := Lens(table);
      var n := GetU32(table[..4]);
      assert lens == [n] + Lens(table[4..]) && lens[1..] == Lens(table[4..]);
      PrintsBack(table[4..], body[n..]);
      RoundTripU32(n, table[..4]);
      var images, rest := Listed(lens, body), Listed(lens[1..], body[n..]);
      assert images == [body[..n]] + rest && images[1..] == rest;
      assert table[..4] + table[4..] == table && body[..n] + body[n..] == body;
    }
  }

  /** A response with this header and these images, and perhaps more behind it. */
  ghost predicate Printed(response: seq<Byte>, status: Byte, images: seq<seq<Byte>>) {
    && (forall i | 0 <= i < |images| :: |images[i]| < TWO_32)
    && 4 * |images| + |Flat(images)| < 0x1_0000_0000
    && |response| >= 20
    && var h := UnpackHdr(response[..20]);
       && h.magic == 0x4F4A_4C53 && h.kind == 4 && h.status == status
       && h.payloadLen == 4 * |images| + |Flat(images)|
       && Table(images) + Flat(images) <= response[20..]
  }

  function VerdictFor(status: Byte, files: seq<File>): Verdict {
    if status == 0 then Complete(files) else Failed(status, files)
  }

  /** The client takes a response for a result exactly if it is one that a server prints for as many
      images, OK or not, and then it writes the nonempty ones. */
  lemma TakesExactly(count: nat, response: seq<Byte>)
    requires 0 < count < MAX_FILES
    ensures var v := ClientVerdict(count, response);
            && (v.Complete? || v.Failed? <==>
                  exists status, images :: |images| == count && Printed(response, status, images))
            && (forall status, images | |images| == count && Printed(response, status, images) ::
                  v == VerdictFor(status, Nonempty(images, 0)))
  {
    hide Table, Flat, Files, Lens, Sum, Nonempty, UnpackHdr, ClientVerdict, Printed;
    forall status, images | |images| == count && Printed(response, status, images)
      ensures ClientVerdict(count, response) == VerdictFor(status, Nonempty(images, 0))
    {
      PrintedVerdict(response, status, images);
    }
    var v := ClientVerdict(count, response);
    if v.Complete? || v.Failed? {
      var status, images := TakenWas(count, response);
    }
  }

  /** It reports a rejection exactly for a header with a status and no payload. */
  lemma RejectsExactly(count: nat, response: seq<Byte>, status: Byte)
    ensures ClientVerdict(count, response) == Rejected(status) <==>
              && |response| >= 20 && status != 0
              && var h := UnpackHdr(response[..20]); h.magic == 0x4F4A_4C53 && h.status == status && h.payloadLen == 0
  {
    hide UnpackHdr, Lens, Sum, Files;
  }

  lemma PrintedVerdict(response: seq<Byte>, status: Byte, images: seq<seq<Byte>>)
    requires 0 < |images| < MAX_FILES && Printed(response, status, images)
    ensures ClientVerdict(|images|, response) == VerdictFor(status, Nonempty(images, 0))
  {
    hide Table, Flat, Files, Lens, Sum, Nonempty, UnpackHdr;
    ParsesBack(images, 0);
    var payload, table, body := response[20..], Table(images), Flat(images);
    assert payload[..|table|] == (table + body)[..|table|] == table;
    assert payload[|table|..|table| + |body|] == (table + body)[|table|..] == body;
  }

  lemma TakenWas(count: nat, response: seq<Byte>) returns (status: Byte, images: seq<seq<Byte>>)
    requires 0 < count < MAX_FILES
    requires var v := ClientVerdict(count, response); v.Complete? || v.Failed?
    ensures |images| == count && Printed(response, status, images)
  {
    hide Table, Flat, Files, Lens, Sum, UnpackHdr, Listed;
    var h := UnpackHdr(response[..HDR_LEN]);
    var payload := response[HDR_LEN..];
    var table, body := payload[..4 * count], payload[4 * count..h.payloadLen];
    PrintsBack(table, body);
    status, images := h.status, Listed(Lens(table), body);
    assert payload[..h.payloadLen] == table + body;
  }

  // --- the client of a single image ---

  datatype Outcome =
    | Lost                      // no response, or none that it understands
    | Refused(status: Byte)
    | Saved(data: seq<Byte>)    // written as the bitstream

  /** The loop body of the client's main on a whole response. */
  function SingleVerdict(response: seq<Byte>): Outcome {
    if |response| < HDR_LEN then Lost
    else
      var resp := UnpackHdr(response[..HDR_LEN]);
      var payload := response[HDR_LEN..];
      if resp.magic != MAGIC || resp.kind != ENCODE_RESP then Lost
      else if resp.status != ST_OK then Refused(resp.status)
      else if |payload| < resp.payloadLen then Lost
      else Saved(payload[..resp.payloadLen])
  }

  method ReadSingle(conn: Conn) returns (v: Outcome)
    requires Unbroken(conn.readPlan)
    modifies conn`input, conn`readPlan
    ensures v == SingleVerdict(old(conn.input))
    ensures Unbroken(conn.readPlan)
    ensures v.Saved? ==>
              var n := HDR_LEN + |v.data|; n <= |old(conn.input)| && conn.input == old(conn.input)[n..]
  {
    hide UnpackHdr;
    var hdrRaw := new Byte[HDR_LEN];
    var rc := conn.RecvFull(hdrRaw, 0, HDR_LEN);
    if rc != 0 {
      return Lost;
    }
    assert hdrRaw[..] == hdrRaw[0..HDR_LEN];
    var resp := UnpackHdr(hdrRaw[..]);
    if resp.magic != MAGIC || resp.kind != ENCODE_RESP {
      return Lost;
    }
    if resp.status != ST_OK {
      return Refused(resp.status);
    }
    var payload := new Byte[resp.payloadLen];
    rc := conn.RecvFull(payload, 0, resp.payloadLen);
    if rc != 0 {
      return Lost;
    }
    assert payload[..] == payload[0..resp.payloadLen];
    return Saved(payload[..]);
  }

  /** It saves exactly what a server printed as an OK response of type 2 with a true length, whatever the
      version, the dimensions and the reserved bytes of its header. */
  lemma SavesExactly(response: seq<Byte>, data: seq<Byte>)
    ensures SingleVerdict(response) == Saved(data) <==>
              |response| >= 20 + |data| && response[20..20 + |data|] == data
              && var h := UnpackHdr(response[..20]);
                 h.magic == 0x4F4A_4C53 && h.kind == 2 && h.status == 0 && h.payloadLen as nat == |data|
  {
    hide UnpackHdr;
    if |response| >= HDR_LEN {
      var n := UnpackHdr(response[..HDR_LEN]).payloadLen as nat;
      if |response| >= HDR_LEN + n {
        assert response[HDR_LEN..][..n] == response[HDR_LEN..HDR_LEN + n];
      }
    }
  }

  /** And it is refused exactly by a response of type 2 with a status. */
  lemma RefusedExactly(response: seq<Byte>, status: Byte)
    ensures SingleVerdict(response) == Refused(status) <==>
              && |response| >= 20 && status != 0
              && var h := UnpackHdr(response[..20]); h.magic == 0x4F4A_4C53 && h.kind == 2 && h.status == status
  {
    hide UnpackHdr;
  }

  lemma ReceivedParts(stream: seq<Byte>, payload: seq<Byte>, len: nat, table: nat)
    requires table <= len <= |stream|
    ensures stream[..len][..table] == stream[..table] && stream[..len][table..] == stream[table..len]
  {
  }

  /** From the server's printer to the client's parser: the client recovers each image that closed,
      under its index, byte for byte, and learns of a failure, exactly when the reply's length fits its
      32-bit field. */
  lemma ReplyRoundTrip(req: Hdr, status: Byte, images: seq<seq<Byte>>)
    requires req.magic == MAGIC && 0 < |images| < MAX_FILES && forall i | 0 <= i < |images| :: |images[i]| < TWO_32
    ensures var v := ClientVerdict(|images|, StreamReply(req, status, images));
            && (TotalBytes(images) < TWO_32 <==> v.Complete? || v.Failed?)
            && (TotalBytes(images) < TWO_32 ==>
                  v == if status == ST_OK then Complete(Nonempty(images, 0)) else Failed(status, Nonempty(images, 0)))
  {
    hide Table, Flat, Files, Lens, Sum, Nonempty, PackHdr, UnpackHdr, ClientVerdict;
    var h := req.(kind := STREAM_RESP, status := status, payloadLen := Wrap32(TotalBytes(images)));
    ParsesBack(images, 0);
    VerdictOf(|images|, h, Table(images), Flat(images));
  }

  /** A client that asked for more images than the server counted never takes the reply for a result:
      the table that it reads starts with lengths that already add up to everything behind it. */
  lemma FewerImages(count: nat, req: Hdr, status: Byte, images: seq<seq<Byte>>)
    requires |images| < count < MAX_FILES && forall i | 0 <= i < |images| :: |images[i]| < TWO_32
    ensures var v := ClientVerdict(count, StreamReply(req, status, images)); v.Malformed? || v.Rejected?
  {
    hide Table, Flat, Files, Lens, Sum, PackHdr, UnpackHdr;
    var h := req.(kind := STREAM_RESP, status := status, payloadLen := Wrap32(TotalBytes(images)));
    var table, body := Table(images), Flat(images);
    ParsesBack(images, 0);
    UnpackPack(h);
    Parts(PackHdr(h), table, body);
    var payload := StreamReply(req, status, images)[HDR_LEN..];
    assert payload == table + body;
    if 4 * count <= |payload| {
      var more := payload[|table|..4 * count];
      assert payload[..4 * count] == table + more;
      LensConcat(table, more);
      SumConcat(Lens(table), Lens(more));
    }
  }

  lemma {:induction false} LensConcat(a: seq<Byte>, b: seq<Byte>)
    requires |a| % 4 == 0
    ensures Lens(a + b) == Lens(a) + Lens(b)
    decreases |a|
  {
    hide Lens, GetU32;
    LensStep(a);
    if |a| < 4 {
      assert a + b == b && [] + Lens(b) == Lens(b);
    } else {
      LensConcat(a[4..], b);
      LensStep(a + b);
      assert (a + b)[..4] == a[..4] && (a + b)[4..] == a[4..] + b;
      Associate([GetU32(a[..4])], Lens(a[4..]), Lens(b));
    }
  }

  lemma LensStep(table: seq<Byte>)
    ensures Lens(table) == if |table| < 4 then [] else [GetU32(table[..4])] + Lens(table[4..])
  {
    hide GetU32;
  }

  lemma {:induction false} SumConcat(a: seq<nat>, b: seq<nat>)
    ensures Sum(a + b) == Sum(a) + Sum(b)
  {
    if a == [] {
      assert a + b == b;
    } else {
      SumConcat(a[1..], b);
      assert (a + b)[1..] == a[1..] + b;
    }
  }

  lemma VerdictOf(count: nat, h: Hdr, table: seq<Byte>, body: seq<Byte>)
    requires 0 < count < MAX_FILES && |table| == 4 * count && Sum(Lens(table)) == |body|
    requires h.magic == MAGIC && h.kind == STREAM_RESP && h.payloadLen == Wrap32(|table| + |body|)
    ensures var v := ClientVerdict(count, PackHdr(h) + table + body);
            if |table| + |body| < TWO_32
            then v == if h.status == ST_OK then Complete(Files(Lens(table), body, 0))
              else Failed(h.status, Files(Lens(table), body, 0))
            else v.Malformed? || v.Rejected?
  {
    hide Files, Lens, Sum, PackHdr, UnpackHdr, ClientVerdict;
    UnpackPack(h);
    Parts(PackHdr(h), table, body);
    var response := PackHdr(h) + table + body;
    if |table| + |body| < TWO_32 {
      VerdictTrue(count, response, table, body);
    } else {
      VerdictWrapped(count, response, table, body);
    }
  }

  lemma VerdictTrue(count: nat, response: seq<Byte>, table: seq<Byte>, body: seq<Byte>)
    requires 0 < count < MAX_FILES && |table| == 4 * count && Sum(Lens(table)) == |body| && |response| >= HDR_LEN
    requires var h := UnpackHdr(response[..HDR_LEN]);
             h.magic == MAGIC && h.kind == STREAM_RESP && h.payloadLen == |table| + |body|
    requires var p := response[HDR_LEN..];
             |p| == |table| + |body| && p[..|table|] == table && p[|table|..|table| + |body|] == body
    ensures var h := UnpackHdr(response[..HDR_LEN]);
            ClientVerdict(count, response)
            == if h.status == ST_OK then Complete(Files(Lens(table), body, 0))
              else Failed(h.status, Files(Lens(table), body, 0))
  {
    hide Files, Lens, Sum, UnpackHdr;
  }

  lemma VerdictWrapped(count: nat, response: seq<Byte>, table: seq<Byte>, body: seq<Byte>)
    requires 0 < count < MAX_FILES && |table| == 4 * count && Sum(Lens(table)) == |body| && |response| >= HDR_LEN
    requires UnpackHdr(response[..HDR_LEN]).payloadLen < |table| + |body|
    requires var p := response[HDR_LEN..]; |p| == |table| + |body| && p[..|table|] == table
    ensures var v := ClientVerdict(count, response); v.Malformed? || v.Rejected?
  {
    hide Files, Lens, Sum, UnpackHdr;
  }

  lemma Parts(hdr: seq<Byte>, table: seq<Byte>, body: seq<Byte>)
    ensures var r := hdr + table + body; var p := r[|hdr|..];
            r[..|hdr|] == hdr && |p| == |table| + |body| && p[..|table|] == table
            && p[|table|..|table| + |body|] == body
  {
  }
}
