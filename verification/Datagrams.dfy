/**
 Messages on a datagram or seqpacket socket (posix/unix.c): a length, then the bytes, in the ring buffer of
 the receiver.
 */
module Datagrams {
  import opened Kernel
  import opened Cbuffer

  /** The bytes of a size_t in memory. */
  function Header(n: nat): (h: seq<Byte>)
    requires n < 0x1_0000_0000
    ensures |h| == 4 && Value(h) == n
  {
    var a := n / 256;
    var b := a / 256;
    assert n == 256 * a + n % 256 && a == 256 * b + a % 256 && b == 256 * (b / 256) + b % 256;
    [n % 256, a % 256, b % 256, b / 256]
  }

  function Value(h: seq<Byte>): nat
    requires |h| == 4
  {
    var a: nat, b: nat, c: nat, d: nat := h[0], h[1], h[2], h[3];
    a + 0x100 * b + 0x1_0000 * c + 0x100_0000 * d
  }

  lemma Front(x: seq<Byte>, rest: seq<Byte>, k: nat)
    requires k <= |x|
    ensures (x + rest)[..k] == x[..k] && (x + rest)[k..] == x[k..] + rest
  {
  }

  predicate Fit(m: seq<Byte>) {
    0 < |m| < 0x1_0000_0000
  }

  /** The messages one after the other. */
  ghost function Flat(msgs: seq<seq<Byte>>): seq<Byte>
    requires forall i | 0 <= i < |msgs| :: Fit(msgs[i])
  {
    if msgs == [] then [] else assert Fit(msgs[0]); Header(|msgs[0]|) + msgs[0] + Flat(msgs[1..])
  }

  lemma {:induction false} FlatAppend(msgs: seq<seq<Byte>>, m: seq<Byte>)
    requires Fit(m) && forall i | 0 <= i < |msgs| :: Fit(msgs[i])
    ensures Flat(msgs + [m]) == Flat(msgs) + (Header(|m|) + m)
  {
    if msgs == [] {
      assert [m][1..] == [];
    } else {
      assert (msgs + [m])[1..] == msgs[1..] + [m];
      FlatAppend(msgs[1..], m);
    }
  }

  class Socket {
    const buffer: Ring
    ghost var sent: seq<seq<Byte>>      // accepted by send
    ghost var received: seq<seq<Byte>>  // handed out by recv, as they were sent

    constructor (buffer: Ring)
      requires buffer.Valid() && buffer.Contents() == []
      ensures Valid() && sent == received == [] && this.buffer == buffer
    {
      this.buffer := buffer;
      sent, received := [], [];
    }

    /** What was received are the first messages sent, and the rest is in the buffer, with its boundaries. */
    ghost predicate Valid()
      reads this, buffer, buffer.data
    {
      && buffer.Valid() && (forall i | 0 <= i < |sent| :: Fit(sent[i]))
      && received <= sent && buffer.Contents() == Flat(sent[|received|..])
    }

    /** send: all of the message, or nothing if it does not fit. */
    method Send(m: seq<Byte>) returns (n: nat)
      requires Valid() && Fit(m)
      modifies this`sent, buffer`w, buffer`full, buffer.data
      ensures Valid() && n == (if old(buffer.Free()) >= |m| + 4 then |m| else 0) && received == old(received)
      ensures sent == if n > 0 then old(sent) + [m] else old(sent)
    {
      n := 0;
      if buffer.Free() >= |m| + 4 {
        WriteOne(m);
        n := |m|;
        FlatAppend(sent[|received|..], m);
        assert (sent + [m])[|received|..] == sent[|received|..] + [m];
        sent := sent + [m];
      }
    }

    /** The header and the bytes of a message that fits are written. */
    method WriteOne(m: seq<Byte>)
      requires buffer.Valid() && Fit(m) && buffer.Free() >= |m| + 4
      modifies buffer`w, buffer`full, buffer.data
      ensures buffer.Valid() && buffer.Contents() == old(buffer.Contents()) + (Header(|m|) + m)
    {
      var a := buffer.Write(Header(|m|));
      assert Header(|m|)[..4] == Header(|m|);
      var b := buffer.Write(m);
      assert m[..|m|] == m;
      assert old(buffer.Contents()) + Header(|m|) + m == old(buffer.Contents()) + (Header(|m|) + m);
    }

    /** The header and the bytes asked for are read. */
    method ReadOne(len: nat) returns (m: seq<Byte>, rlen: nat)
      requires Valid() && |received| < |sent|
      modifies buffer`r, buffer`full
      ensures buffer.Valid() && rlen == |sent[|received|]| && m == sent[|received|][..Min(len, rlen)]
      ensures buffer.Contents() == sent[|received|][|m|..] + Flat(sent[|received| + 1..])
    {
      ghost var x, rest := sent[|received|], Flat(sent[|received| + 1..]);
      assert sent[|received|..][1..] == sent[|received| + 1..];
      assert buffer.Contents() == Header(|x|) + (x + rest);
      var h := buffer.Read(4);
      assert h == Header(|x|) && buffer.Contents() == x + rest;
      rlen := Value(h);
      m := buffer.Read(Min(len, rlen));
      Front(x, rest, |m|);
    }

    /**
     recv: the next message if the buffer is large enough for it.  If it is not, the rest of the message
     is dropped, and the boundaries of the following ones kept, exactly if that many bytes are free in the ring.
     */
    method Recv(len: nat) returns (m: seq<Byte>)
      requires Valid()
      modifies this`received, buffer`r, buffer`full
      ensures sent == old(sent) && (|old(received)| == |sent| ==> m == [] && received == old(received) && Valid())
      ensures |old(received)| < |sent| ==>
        m == sent[|old(received)|][..Min(len, |sent[|old(received)|]|)]
        && received == old(received) + [sent[|old(received)|]]
      ensures |old(received)| < |sent| && len >= |sent[|old(received)|]| ==> Valid() && m == sent[|old(received)|]
      ensures |old(received)| < |sent| && len < |sent[|old(received)|]| ==>
                (Valid() <==> |sent[|old(received)|]| - len <= old(buffer.Free()) + 4 + len)
    {
      m := [];
      Pending();
      if buffer.Avail() > 0 {
        ghost var x := sent[|received|];
        var rlen;
        m, rlen := ReadOne(len);
        received := received + [x];
        DropRest(len, rlen, x, m, Flat(sent[|received|..]));
      }
    }

    /** What the receiver had no room for is discarded. */
    method DropRest(len: nat, rlen: nat, ghost x: seq<Byte>, ghost m: seq<Byte>, ghost rest: seq<Byte>)
      requires buffer.Valid() && rlen == |x| && |m| == Min(len, rlen) && buffer.Contents() == x[|m|..] + rest
      modifies buffer`r
      ensures buffer.Valid() && (len >= rlen ==> buffer.Contents() == rest)
      ensures len < rlen ==> (buffer.Contents() == rest <==> rlen - len <= old(buffer.Free()))
    {
      assert x[|x|..] + rest == rest;
      if len < rlen {
        assert (x[|m|..] + rest)[rlen - len..] == rest;
        var cnt := buffer.Discard(rlen - len);
      }
    }

    lemma Pending()
      requires Valid()
      ensures |buffer.Contents()| > 0 <==> |received| < |sent|
    {
    }
  }
}
