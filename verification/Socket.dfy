// A TCP connection as read(2) and write(2) show it: the bytes in order, cut and interrupted
// at the kernel's whim. The schedule says how each call behaves; once it runs out, calls
// transfer everything they can.
module Socket {
  import opened Bytes

  datatype IoEvent =
    | Interrupted        // EINTR
    | AtMost(limit: nat) // moves at most this many bytes, but at least one if any can move
    | Broken             // any other errno

  ghost predicate Unbroken(s: seq<IoEvent>) {
    Broken !in s
  }

  function Least(a: nat, b: nat): nat {
    if a < b then a else b
  }

  lemma NextPart(all: seq<Byte>, got: nat, data: seq<Byte>, rest: seq<Byte>)
    requires got <= |all| && all[got..] == data + rest
    ensures got + |data| <= |all| && all[..got + |data|] == all[..got] + data && all[got + |data|..] == rest
  {
    assert all == all[..got] + (data + rest);
  }

  lemma NextSlice(all: seq<Byte>, off: nat, sent: nat, n: nat, len: nat)
    requires sent + n <= len && off + len <= |all|
    ensures all[off..off + sent] + all[off + sent..off + len][..n] == all[off..off + (sent + n)]
  {
  }

  /** The kernel's copy into the caller's buffer. */
  method Store(buf: array<Byte>, off: nat, got: nat, data: seq<Byte>)
    requires off + got + |data| <= buf.Length
    modifies buf
    ensures buf[off..off + got + |data|] == old(buf[off..off + got]) + data
    ensures forall i | 0 <= i < buf.Length && !(off + got <= i < off + got + |data|) :: buf[i] == old(buf[i])
  {
    forall i | 0 <= i < |data| {
      buf[off + got + i] := data[i];
    }
  }

  class Conn {
    var input: seq<Byte>   // sent by the peer before it closes, not read yet
    var output: seq<Byte>  // accepted from us, in order
    var readPlan: seq<IoEvent>
    var writePlan: seq<IoEvent>

    constructor (input: seq<Byte>, readPlan: seq<IoEvent>, writePlan: seq<IoEvent>)
      ensures this.input == input && this.readPlan == readPlan && this.writePlan == writePlan && output == []
    {
      this.input, this.readPlan, this.writePlan, output := input, readPlan, writePlan, [];
    }

    ghost predicate Sound()
      reads this
    {
      Unbroken(readPlan) && Unbroken(writePlan)
    }

    /** read(2): `n` is -1 on error, with `eintr` telling EINTR apart, 0 at EOF. */
    method Read(len: nat) returns (n: int, eintr: bool, data: seq<Byte>)
      requires len > 0
      modifies this`input, this`readPlan
      ensures readPlan == if old(readPlan) == [] then [] else old(readPlan)[1..]
      ensures n < 0 ==> data == [] && input == old(input) && old(readPlan) != []
                        && (if eintr then old(readPlan)[0].Interrupted? else old(readPlan)[0].Broken?)
      ensures n >= 0 ==> n == |data| <= len && old(input) == data + input && (n == 0 <==> old(input) == [])
    {
      var limit, event := len, if readPlan == [] then AtMost(len) else readPlan[0];
      if readPlan != [] {
        readPlan := readPlan[1..];
      }
      match event {
        case Interrupted => return -1, true, [];
        case Broken => return -1, false, [];
        case AtMost(k) =>
          n := Least(Least(len, if k == 0 then 1 else k), |input|);
          data, input, eintr := input[..n], input[n..], false;
      }
    }

    /** write(2): moves at least one byte or fails. */
    method Write(data: seq<Byte>) returns (n: int, eintr: bool)
      requires data != []
      modifies this`output, this`writePlan
      ensures writePlan == if old(writePlan) == [] then [] else old(writePlan)[1..]
      ensures n < 0 ==> output == old(output) && old(writePlan) != []
                        && (if eintr then old(writePlan)[0].Interrupted? else old(writePlan)[0].Broken?)
      ensures n >= 0 ==> 0 < n <= |data| && output == old(output) + data[..n]
    {
      var event := if writePlan == [] then AtMost(|data|) else writePlan[0];
      if writePlan != [] {
        writePlan := writePlan[1..];
      }
      match event {
        case Interrupted => return -1, true;
        case Broken => return -1, false;
        case AtMost(k) =>
          n := Least(|data|, if k == 0 then 1 else k);
          output, eintr := output + data[..n], false;
      }
    }

    /** Reads exactly `len` bytes into buf[off..]. However the kernel cuts the stream, the result
        is that of one read of the undivided bytes; 1 means EOF before the first byte. */
    method RecvFull(buf: array<Byte>, off: nat, len: nat) returns (rc: int)
      requires off + len <= buf.Length
      modifies this`input, this`readPlan, buf
      ensures old(Unbroken(readPlan)) ==> Unbroken(readPlan)
      ensures forall i | 0 <= i < buf.Length && !(off <= i < off + len) :: buf[i] == old(buf[i])
      ensures rc == 0 || rc == 1 || rc == -1
      ensures rc == 0 ==> len <= |old(input)| && buf[off..off + len] == old(input)[..len] && input == old(input)[len..]
      ensures rc == 1 ==> len > 0 && old(input) == []
      ensures old(Unbroken(readPlan)) ==>
                rc == if len <= |old(input)| then 0 else if old(input) == [] then 1 else -1
    {
      var got := 0;
      while got < len
        invariant got <= len && got <= |old(input)|
        invariant input == old(input)[got..] && buf[off..off + got] == old(input)[..got]
        invariant old(Unbroken(readPlan)) ==> Unbroken(readPlan)
        invariant forall i | 0 <= i < buf.Length && !(off <= i < off + len) :: buf[i] == old(buf[i])
        decreases len - got, |readPlan|
      {
        label before:
        var n, eintr, data := Read(len - got);
        assert old@before(Unbroken(readPlan)) ==> n >= 0 || eintr;
        if n == 0 {
          return if got == 0 then 1 else -1;
        }
        if n < 0 {
          if eintr {
            continue;
          }
          return -1;
        }
        NextPart(old(input), got, data, input);
        Store(buf, off, got, data);
        got := got + n;
      }
      return 0;
    }

    /** Sends all of data[off..off+len], whatever pieces the kernel takes. */
    method SendFull(data: array<Byte>, off: nat, len: nat) returns (rc: int)
      requires off + len <= data.Length
      modifies this`output, this`writePlan
      ensures old(Unbroken(writePlan)) ==> Unbroken(writePlan) && rc == 0
      ensures rc == 0 || rc == -1
      ensures rc == 0 ==> output == old(output) + data[off..off + len]
      ensures old(output) <= output <= old(output) + data[off..off + len]
    {
      var sent := 0;
      while sent < len
        invariant sent <= len && output == old(output) + data[off..off + sent]
        invariant old(Unbroken(writePlan)) ==> Unbroken(writePlan)
        decreases len - sent, |writePlan|
      {
        label before:
        var n, eintr := Write(data[off + sent..off + len]);
        assert old@before(Unbroken(writePlan)) ==> n >= 0 || eintr;
        if n < 0 {
          if eintr {
            continue;
          }
          return -1;
        }
        NextSlice(data[..], off, sent, n, len);
        Associate(old(output), data[off..off + sent], data[off + sent..off + len][..n]);
        sent := sent + n;
      }
      return 0;
    }

    /** Discards `len` bytes through a 4 KiB scratch buffer so that the next header is in step. */
    method Drain(len: nat) returns (rc: int)
      modifies this`input, this`readPlan
      ensures old(Unbroken(readPlan)) ==> Unbroken(readPlan)
      ensures rc == 0 || rc == -1
      ensures rc == 0 ==> len <= |old(input)| && input == old(input)[len..]
      ensures old(Unbroken(readPlan)) ==> (rc == 0 <==> len <= |old(input)|)
    {
      var scratch := new Byte[4096];
      var left := len;
      while left > 0
        invariant 0 <= left <= len && len - left <= |old(input)| && input == old(input)[len - left..]
        invariant old(Unbroken(readPlan)) ==> Unbroken(readPlan)
      {
        var chunk := if left < scratch.Length then left else scratch.Length;
        var st := RecvFull(scratch, 0, chunk);
        if st != 0 {
          return -1;
        }
        assert old(input)[len - left..][chunk..] == old(input)[len - left + chunk..];
        left := left - chunk;
      }
      return 0;
    }
  }
}
