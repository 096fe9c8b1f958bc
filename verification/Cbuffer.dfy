/** The ring buffer of lib/cbuffer.c and lib/cbuffer.h. */
module Cbuffer {
  import opened Kernel
  import opened Powers

  type Byte = x: nat | x < 256

  /** x & (sz - 1), for sz a power of two and x below twice that. */
  function Wrap(x: nat, sz: nat): (y: nat)
    requires x < 2 * sz
    ensures y < sz && (x - y == 0 || x - y == sz)
  {
    if x < sz then x else x - sz
  }

  class Ring {
    const sz: nat
    const data: array<Byte>
    var r: nat
    var w: nat
    var full: bool

    /** _cbuffer_init. */
    constructor (k: nat)
      ensures Valid() && sz == Pow2(k) && Contents() == [] && fresh(data)
    {
      sz := Pow2(k);
      Pow2Grows(0, k);
      data := new Byte[Pow2(k)];
      r, w, full := 0, 0, false;
    }

    /** The size is a power of two, so that & (sz - 1) wraps an index around. */
    ghost predicate Valid()
      reads this, data
    {
      data.Length == sz && (exists k: nat :: sz == Pow2(k)) && r < sz && w < sz && (full ==> r == w)
    }

    /** How many bytes are in the buffer. */
    ghost function Size(): nat
      requires Valid()
      reads this, data
    {
      if full then sz else if r <= w then w - r else w + sz - r
    }

    /** The bytes in the buffer, oldest first. */
    ghost function Contents(): (s: seq<Byte>)
      requires Valid()
      reads this, data
      ensures |s| == Size()
    {
      Chunk(data[..], r, Size())
    }

    /** _cbuffer_free. */
    function Free(): (n: nat)
      requires Valid()
      reads this, data
      ensures n + |Contents()| == sz
    {
      if w == r then if full then 0 else sz
      else Wrap(r - w + sz, sz)
    }

    /** _cbuffer_avail. */
    function Avail(): (n: nat)
      requires Valid()
      reads this, data
      ensures n == |Contents()|
    {
      sz - Free()
    }

    /** hal_memcpy into the buffer. */
    method Fill(at: nat, bytes: seq<Byte>)
      requires at + |bytes| <= data.Length
      modifies data
      ensures forall j | 0 <= j < data.Length ::
        data[j] == if at <= j < at + |bytes| then bytes[j - at] else old(data[j])
    {
      forall i | 0 <= i < |bytes| {
        data[at + i] := bytes[i];
      }
    }

    /** The copies of _cbuffer_write: bytes go to the places from w on, round the end. */
    method CopyIn(bytes: seq<Byte>) returns (n: nat)
      requires Valid() && !full && |bytes| > 0
      modifies data
      ensures n == Min(|bytes|, Free())
      ensures forall j | 0 <= j < sz :: data[j] == if Steps(w, j, sz) < n then bytes[Steps(w, j, sz)] else old(data[j])
    {
      if r > w {
        n := Min(|bytes|, r - w);
        Fill(w, bytes[..n]);
      } else {
        n := Min(|bytes|, sz - w);
        Fill(w, bytes[..n]);
        if n < |bytes| && r != 0 {
          var rest := bytes[n..];
          var m := Min(|rest|, r);
          Fill(0, rest[..m]);
          n := n + m;
        }
      }
    }

    /** n bytes more are in the buffer. */
    method Advance(n: nat)
      requires Valid() && !full && 0 < n <= sz - Size()
      modifies this`w, this`full
      ensures Valid() && Size() == old(Size()) + n
    {
      w := Wrap(w + n, sz);
      full := w == r;
    }

    /** _cbuffer_write: as many bytes as there is room for, behind those already there. */
    method Write(bytes: seq<Byte>) returns (n: nat)
      requires Valid()
      modifies this`w, this`full, data
      ensures Valid() && n == Min(|bytes|, old(Free())) && Contents() == old(Contents()) + bytes[..n]
    {
      n := 0;
      if |bytes| == 0 || full {
        return;
      }
      n := CopyBehind(bytes);
      Advance(n);
    }

    /** The same, told from r on. */
    method CopyBehind(bytes: seq<Byte>) returns (n: nat)
      requires Valid() && !full && |bytes| > 0
      modifies data
      ensures 0 < n == Min(|bytes|, Free()) && Size() == old(Size()) && Size() + n <= sz
      ensures Chunk(data[..], r, Size() + n) == old(Contents()) + bytes[..n]
    {
      n := CopyIn(bytes);
      assert w == Wrap(r + Size(), sz);
      Appended(old(data[..]), data[..], r, Size(), bytes[..n], sz);
    }

    /** The copies of _cbuffer_read. */
    method CopyOut(n0: nat) returns (bytes: seq<Byte>)
      requires Valid() && n0 > 0 && (r != w || full)
      ensures bytes == Chunk(data[..], r, Min(n0, Size()))
    {
      if w > r {
        bytes := data[r..r + Min(n0, w - r)];
      } else {
        bytes := data[r..r + Min(n0, sz - r)];
        if |bytes| < n0 {
          bytes := bytes + data[..Min(n0 - |bytes|, w)];
        }
      }
    }

    /** _cbuffer_read: the oldest bytes, as many as asked for or as there are. */
    method Read(n0: nat) returns (bytes: seq<Byte>)
      requires Valid()
      modifies this`r, this`full
      ensures Valid() && bytes == old(Contents())[..Min(n0, |old(Contents())|)]
      ensures Contents() == old(Contents())[|bytes|..]
    {
      bytes := [];
      if n0 == 0 || (r == w && !full) {
        return;
      }
      bytes := CopyOut(n0);
      r := Wrap(r + |bytes|, sz);
      full := false;
      assert Size() == old(Size()) - |bytes|;
      ChunkParts(data[..], old(r), old(Size()), |bytes|);
    }

    /**
     _cbuffer_discard: bounded by the room, not by the bytes there are, so it drops n bytes exactly if n
     bytes are free.
     */
    method Discard(n: nat) returns (cnt: nat)
      requires Valid()
      modifies this`r
      ensures Valid() && cnt == Min(old(Free()), n)
      ensures cnt <= |old(Contents())| ==> Contents() == old(Contents())[cnt..]
      ensures n <= |old(Contents())| ==>
        (n <= old(Free()) ==> Contents() == old(Contents())[n..])
        && (n > old(Free()) ==> Contents() != old(Contents())[n..])
    {
      cnt := Min(Free(), n);
      r := Wrap(r + cnt, sz);
      if cnt <= old(Size()) {
        assert cnt == 0 || !full;
        assert Size() == old(Size()) - cnt;
        ChunkParts(data[..], old(r), old(Size()), cnt);
      }
    }
  }

  /** Three bytes in a ring of four, two of them discarded: only one is. */
  method DiscardOne() returns (c: Ring, cnt: nat)
    ensures c.Valid() && cnt == 1 && c.Contents() == [2, 3]
  {
    c := new Ring(2);
    assert Pow2(1) == 2 && Pow2(2) == 4;
    var n := c.Write([1, 2, 3]);
    assert c.Contents() == [1, 2, 3];
    cnt := c.Discard(2);
  }

  /** How many places from w on, round the end, place j is. */
  function Steps(w: nat, j: nat, sz: nat): (d: nat)
    requires w < sz && j < sz
    ensures d < sz && j == Wrap(w + d, sz)
  {
    if w <= j then j - w else j + sz - w
  }

  /** n bytes from place r on, round the end. */
  ghost function Chunk(d: seq<Byte>, r: nat, n: nat): (s: seq<Byte>)
    requires r < |d| && n <= |d|
    ensures |s| == n && forall i | 0 <= i < n :: s[i] == d[Wrap(r + i, |d|)]
  {
    seq(n, i requires 0 <= i < n => d[Wrap(r + i, |d|)])
  }

  /** A chunk is its first m bytes and the chunk that begins m places on. */
  lemma ChunkParts(d: seq<Byte>, r: nat, n: nat, m: nat)
    requires r < |d| && m <= n <= |d|
    ensures Chunk(d, r, m) == Chunk(d, r, n)[..m] && Chunk(d, Wrap(r + m, |d|), n - m) == Chunk(d, r, n)[m..]
  {
    var c, s := Chunk(d, Wrap(r + m, |d|), n - m), Chunk(d, r, n);
    forall i | 0 <= i < n - m ensures c[i] == s[m + i] {
      assert Wrap(Wrap(r + m, |d|) + i, |d|) == Wrap(r + (m + i), |d|);
    }
  }

  lemma Appended(d: seq<Byte>, e: seq<Byte>, r: nat, n: nat, bytes: seq<Byte>, sz: nat)
    requires |d| == |e| == sz && r < sz && n + |bytes| <= sz && n < sz
    requires forall j | 0 <= j < sz :: var k := Steps(Wrap(r + n, sz), j, sz);
      e[j] == if k < |bytes| then bytes[k] else d[j]
    ensures Chunk(e, r, n + |bytes|) == Chunk(d, r, n) + bytes
  {
    var c := Chunk(e, r, n + |bytes|);
    forall i | 0 <= i < |c| ensures c[i] == if i < n then Chunk(d, r, n)[i] else bytes[i - n] {
      var j := Wrap(r + i, sz);
      assert c[i] == e[j];
    }
  }
}
