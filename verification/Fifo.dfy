/**
 The byte FIFO of func_libs/fx_fifo.h: a ring of bytes with a read and a write position, and two
 indexes that count bytes modulo 2^32. Positions are offsets in the buffer.
 */
module Fifo {
  type byte = b: int | 0 <= b < 256

  const EINVAL := -22
  const ENOMEM := -12

  /** uint32_t */
  function ToUnsigned(x: int): (u: int)
    ensures 0 <= u < 0x1_0000_0000
  {
    x % 0x1_0000_0000
  }

  /** The conversion of an unsigned 32-bit number to int. */
  function ToInt(x: int): int
    requires 0 <= x < 0x1_0000_0000
  {
    if x < 0x8000_0000 then x else x - 0x1_0000_0000
  }

  /** Indexes that count modulo 2^32 and are less than 2^32 apart. */
  lemma IndexStep(w: int, r: int, n: int)
    requires 0 <= r < 0x1_0000_0000 && 0 <= w < 0x1_0000_0000
    ensures 0 <= n <= ToUnsigned(w - r) ==> ToUnsigned(w - ToUnsigned(r + n)) == ToUnsigned(w - r) - n
    ensures 0 <= n && ToUnsigned(w - r) + n < 0x1_0000_0000 ==> ToUnsigned(ToUnsigned(w + n) - r) == ToUnsigned(w - r) + n
  {
    OneLap(w - r);
    if 0 <= n < 0x1_0000_0000 {
      OneLap(r + n);
      OneLap(w + n);
      OneLap(w - ToUnsigned(r + n));
      OneLap(ToUnsigned(w + n) - r);
    }
  }

  /** A number that is at most once out of range. */
  lemma OneLap(x: int)
    requires -0x1_0000_0000 <= x < 0x2_0000_0000
    ensures ToUnsigned(x) == if x < 0 then x + 0x1_0000_0000 else if x < 0x1_0000_0000 then x else x - 0x1_0000_0000
  {
  }

  // ----- rings -----

  /** A position that may have run over the end, once. */
  function Wrap(capacity: int, i: int): int {
    if i >= capacity then i - capacity else i
  }

  /** A position in a buffer; in an empty one it is 0. */
  predicate IsPosition(capacity: int, r: int) {
    0 <= r && (r < capacity || r == capacity == 0)
  }

  /** The n bytes from position r on, round the end of the buffer. */
  function Ring(s: seq<byte>, r: int, n: int): (q: seq<byte>)
    requires IsPosition(|s|, r) && 0 <= n <= |s|
    ensures |q| == n && forall i | 0 <= i < n :: q[i] == s[Wrap(|s|, r + i)]
  {
    seq(n, i requires 0 <= i < n => s[Wrap(|s|, r + i)])
  }

  /** Copying a chunk that fits before the end of the buffer behind the n bytes of the ring. */
  lemma RingWrite(s: seq<byte>, t: seq<byte>, r: int, n: int, w: int, chunk: seq<byte>)
    requires IsPosition(|s|, r) && 0 <= n && n + |chunk| <= |s| && w == Wrap(|s|, r + n) && w + |chunk| <= |s|
    requires t == s[..w] + chunk + s[w + |chunk|..]
    ensures Ring(t, r, n + |chunk|) == Ring(s, r, n) + chunk
  {
    forall i | 0 <= i < n + |chunk|
      ensures t[Wrap(|s|, r + i)] == (Ring(s, r, n) + chunk)[i]
    {
    }
  }

  /** Dropping the first k bytes of the ring. */
  lemma RingDrop(s: seq<byte>, r: int, n: int, k: int)
    requires IsPosition(|s|, r) && 0 <= k <= n <= |s|
    ensures IsPosition(|s|, Wrap(|s|, r + k)) && Ring(s, Wrap(|s|, r + k), n - k) == Ring(s, r, n)[k..]
  {
  }

  /** A chunk that ends before the end of the buffer. */
  lemma RingChunk(s: seq<byte>, r: int, n: int, k: int)
    requires IsPosition(|s|, r) && 0 <= k <= n <= |s| && r + k <= |s|
    ensures Ring(s, r, n)[..k] == s[r..r + k]
  {
  }

  lemma TakeMore(q: seq<byte>, k: int, len: int)
    requires 0 <= k <= k + len <= |q|
    ensures q[..k] + q[k..][..len] == q[..k + len] && q[k..][len..] == q[k + len..]
  {
  }

  /** A chunk further on. */
  lemma RingSlice(s: seq<byte>, r: int, n: int, k: int, p: int, len: int)
    requires IsPosition(|s|, r) && 0 <= k <= k + len <= n <= |s| && p == Wrap(|s|, r + k) && p + len <= |s|
    ensures Ring(s, r, n)[..k] + s[p..p + len] == Ring(s, r, n)[..k + len]
  {
    assert Ring(s, r, n)[k..k + len] == s[p..p + len];
  }

  lemma PeekStep(s: seq<byte>, r: int, n: int, k: int, p: int, len: int)
    requires IsPosition(|s|, r) && 0 <= k <= k + len <= n <= |s| && p == Wrap(|s|, r + k) && p + len <= |s|
    ensures Wrap(|s|, r + (k + len)) == Wrap(|s|, p + len)
    ensures Ring(s, r, n)[..k] + s[p..p + len] == Ring(s, r, n)[..k + len]
  {
    RingSlice(s, r, n, k, p, len);
  }

  /** Where the source starts to read, from the read position and an offset. */
  lemma OffsetPosition(capacity: int, r: int, offset: int)
    requires IsPosition(capacity, r) && 0 <= offset <= capacity
    ensures Wrap(capacity, r + offset) == if offset >= capacity - r then r + (offset - capacity) else r + offset
    ensures 0 <= Wrap(capacity, r + offset) && (capacity > 0 ==> Wrap(capacity, r + offset) < capacity)
  {
  }

  lemma PeekAtStep(s: seq<byte>, r: int, n: int, offset: int, k: int, p: int, len: int)
    requires IsPosition(|s|, r) && 0 <= offset && 0 <= k && 0 < len && offset + k + len <= n <= |s|
    requires 0 <= p && p == Wrap(|s|, r + (offset + k)) && p + len <= |s|
    ensures offset + k + len < n ==>
              Wrap(|s|, r + (offset + (k + len))) == if p + len >= |s| then p + len - |s| else p + len
    ensures Ring(s, r, n)[offset..offset + k] + s[p..p + len] == Ring(s, r, n)[offset..offset + (k + len)]
  {
    assert Ring(s, r, n)[offset + k..offset + k + len] == s[p..p + len];
  }

  /** memcpy within the buffer */
  method CopyIn(buffer: array<byte>, ghost s: seq<byte>, w: int, src: seq<byte>, from: int, len: int) returns (ghost t: seq<byte>)
    requires s == buffer[..] && 0 <= w <= w + len <= buffer.Length && 0 <= from <= from + len <= |src|
    modifies buffer
    ensures t == buffer[..] && t == s[..w] + src[from..from + len] + s[w + len..]
  {
    var i := 0;
    while i < len
      invariant 0 <= i <= len
      invariant forall k | w <= k < w + i :: buffer[k] == src[from + (k - w)]
      invariant forall k | 0 <= k < buffer.Length && !(w <= k < w + i) :: buffer[k] == s[k]
    {
      buffer[w + i] := src[from + i];
      i := i + 1;
    }
    t := buffer[..];
  }

  // ----- the FIFO -----

  /** The capacity after fx_fifo_grow with result r. */
  function Grown(capacity: int, used: int, size: int, r: int): int {
    if r == 0 && capacity < size + used then
      if size + used >= ToUnsigned(2 * capacity) then size + used else ToUnsigned(2 * capacity)
    else capacity
  }

  class Fifo {
    var buffer: array<byte>
    var rptr: int
    var wptr: int
    var rndx: int
    var wndx: int

    /** The difference of the write index and the read index, in 32 bits. */
    function Used(): (n: int)
      reads this
      ensures 0 <= n < 0x1_0000_0000
    {
      ToUnsigned(wndx - rndx)
    }

    ghost predicate Valid()
      reads this
    {
      && 0 <= rndx < 0x1_0000_0000 && 0 <= wndx < 0x1_0000_0000
      && buffer.Length < 0x1_0000_0000 && Used() <= buffer.Length
      && IsPosition(buffer.Length, rptr) && wptr == Wrap(buffer.Length, rptr + Used())
    }

    /** The bytes that have been written and not been read yet. */
    ghost function Contents(): (q: seq<byte>)
      requires Valid()
      reads this, buffer
      ensures |q| == Used()
    {
      Ring(buffer[..], rptr, Used())
    }

    /** fx_fifo_alloc, after the allocation of the buffer */
    constructor (size: int)
      requires 0 <= size < 0x1_0000_0000
      ensures Valid() && fresh(buffer) && buffer.Length == size && Contents() == []
      ensures rptr == 0 && rndx == 0
    {
      buffer := new byte[size];
      rptr, wptr, rndx, wndx := 0, 0, 0, 0;
    }

    /** fx_fifo_reset */
    method Reset()
      requires Valid()
      modifies this`rptr, this`wptr, this`rndx, this`wndx
      ensures Valid() && Contents() == []
    {
      wptr, rptr := 0, 0;
      wndx, rndx := 0, 0;
    }

    /** fx_fifo_size: an int, which is negative for 2^31 bytes or more */
    function Size(): (n: int)
      requires Valid()
      reads this
      ensures Used() < 0x8000_0000 <==> n == Used()
      ensures n >= 0 ==> n == Used()
    {
      ToInt(Used())
    }

    /** fx_fifo_space: the number of free bytes, unless that is 2^31 or more */
    function Space(): (n: int)
      requires Valid()
      reads this
      ensures n == buffer.Length - Used() <==> buffer.Length - Used() < 0x8000_0000
    {
      ToInt(ToUnsigned(buffer.Length - Size()))
    }

    /** fx_fifo_drain, which asserts that fx_fifo_size is at least n */
    method Drain(n: int)
      requires Valid() && 0 <= n <= Size()
      modifies this`rptr, this`rndx
      ensures Valid() && Contents() == old(Contents())[n..]
    {
      hide ToUnsigned, Ring;
      RingDrop(buffer[..], rptr, Used(), n);
      IndexStep(wndx, rndx, n);
      rptr := rptr + n;
      if rptr >= buffer.Length {
        rptr := rptr - buffer.Length;
      }
      rndx := ToUnsigned(rndx + n);
    }

    /** The body of the loop of fx_fifo_generic_read: a chunk that ends at the end of the buffer, or
        what is left. */
    method ReadChunk(left: int) returns (chunk: seq<byte>)
      requires Valid() && 0 <= left <= Size()
      modifies this`rptr, this`rndx
      ensures Valid() && |chunk| <= left && (left > 0 ==> |chunk| > 0)
      ensures chunk == old(Contents())[..|chunk|] && Contents() == old(Contents())[|chunk|..]
    {
      var len := if buffer.Length - rptr <= left then buffer.Length - rptr else left;
      RingChunk(buffer[..], rptr, Used(), len);
      chunk := buffer[rptr..rptr + len];
      Drain(len);
    }

    /** fx_fifo_generic_read without a callback: the first n bytes come out. */
    method Read(n: int) returns (dest: seq<byte>)
      requires Valid() && 0 <= n <= Size()
      modifies this`rptr, this`rndx
      ensures Valid() && dest == old(Contents())[..n] && Contents() == old(Contents())[n..]
    {
      hide Ring, Wrap;
      ghost var q := Contents();
      dest := [];
      var left := n;
      while true
        invariant Valid() && 0 <= left <= n && left <= Size()
        invariant dest == q[..n - left] && Contents() == q[n - left..]
        decreases left
      {
        var chunk := ReadChunk(left);
        TakeMore(q, n - left, |chunk|);
        dest := dest + chunk;
        left := left - |chunk|;
        if left <= 0 {
          break;
        }
      }
    }

    /** fx_fifo_generic_peek_at without a callback, which asserts what the precondition says */
    method PeekAt(offset: int, n: int) returns (dest: seq<byte>)
      requires Valid() && 0 <= offset && 0 <= n && offset + n <= Used()
      ensures dest == Contents()[offset..offset + n]
    {
      hide Ring, Wrap;
      OffsetPosition(buffer.Length, rptr, offset);
      var r := rptr;
      if offset >= buffer.Length - r {
        r := r + (offset - buffer.Length);
      } else {
        r := r + offset;
      }
      dest := [];
      var left := n;
      while left > 0
        invariant 0 <= left <= n && 0 <= r <= buffer.Length
        invariant left > 0 ==> (if r >= buffer.Length then r - buffer.Length else r) ==
                               Wrap(buffer.Length, rptr + (offset + (n - left)))
        invariant dest == Contents()[offset..offset + (n - left)]
      {
        if r >= buffer.Length {
          r := r - buffer.Length;
        }
        var len := if buffer.Length - r <= left then buffer.Length - r else left;
        PeekAtStep(buffer[..], rptr, Used(), offset, n - left, r, len);
        dest := dest + buffer[r..r + len];
        left := left - len;
        r := r + len;
      }
    }

    /** fx_fifo_generic_peek without a callback */
    method Peek(n: int) returns (dest: seq<byte>)
      requires Valid() && 0 <= n <= Used() && n < 0x8000_0000
      ensures dest == Contents()[..n]
    {
      var r := rptr;
      dest := [];
      var left := n;
      while true
        invariant 0 <= left <= n && r == Wrap(buffer.Length, rptr + (n - left)) && dest == Contents()[..n - left]
        decreases left, buffer.Length - r
      {
        var len := if buffer.Length - r <= left then buffer.Length - r else left;
        PeekStep(buffer[..], rptr, Used(), n - left, r, len);
        dest := dest + buffer[r..r + len];
        r := r + len;
        if r >= buffer.Length {
          r := r - buffer.Length;
        }
        left := left - len;
        if left <= 0 {
          break;
        }
      }
    }

    /** fx_fifo_peek2: the position of the byte at an offset, which may be negative. */
    method Peek2(offs: int) returns (p: int)
      requires Valid() && -buffer.Length < offs < buffer.Length
      ensures 0 <= p < buffer.Length
      ensures 0 <= offs < Used() ==> buffer[p] == Contents()[offs]
      ensures offs < 0 ==> Wrap(buffer.Length, p - offs) == rptr
    {
      p := rptr + offs;
      if p >= buffer.Length {
        p := p - buffer.Length;
      } else if p < 0 {
        p := buffer.Length - (0 - p);
      }
    }

    /** fx_fifo_realloc2; `enough` tells whether there is memory. When the buffer has to grow, the
        number of bytes in it must be an int. */
    method Realloc2(newSize: int, enough: bool) returns (r: int)
      requires Valid() && 0 <= newSize < 0x1_0000_0000 && (buffer.Length < newSize ==> 0 <= Size())
      modifies this
      ensures Valid() && Contents() == old(Contents()) && r == (if old(buffer.Length) < newSize && !enough then ENOMEM else 0)
      ensures if old(buffer.Length) < newSize && enough then fresh(buffer) && buffer.Length == newSize
              else buffer == old(buffer) && rptr == old(rptr) && wptr == old(wptr) && rndx == old(rndx) && wndx == old(wndx)
    {
      var oldSize := buffer.Length;
      if oldSize < newSize {
        if !enough {
          return ENOMEM;
        }
        Enlarge(newSize);
      }
      return 0;
    }

    /** The reallocation: the bytes are read out into a new buffer. */
    method Enlarge(newSize: int)
      requires Valid() && buffer.Length < newSize < 0x1_0000_0000 && 0 <= Size()
      modifies this
      ensures Valid() && Contents() == old(Contents()) && fresh(buffer) && buffer.Length == newSize
    {
      ghost var q := Contents();
      var len := Size();
      var dest := Read(len);
      assert dest == q;
      var f2 := NewWith(newSize, dest);
      buffer, rptr, wptr, rndx, wndx := f2.buffer, f2.rptr, f2.wptr, f2.rndx, f2.wndx;
      assert Contents() == f2.Contents();
    }

    /** fx_fifo_grow: after it, unless it fails, there is space for `size` more bytes. */
    method Grow(size: int, enough: bool) returns (r: int)
      requires Valid() && 0 <= size < 0x1_0000_0000 && (buffer.Length < size + Used() ==> 0 <= Size())
      modifies this
      ensures Valid() && Contents() == old(Contents())
      ensures r == EINVAL <==> size + Used() >= 0x1_0000_0000
      ensures r == 0 ==> size <= buffer.Length - Used() && old(buffer.Length) <= buffer.Length
      ensures r == ENOMEM <==> old(buffer.Length) < size + Used() < 0x1_0000_0000 && !enough
      ensures r in {0, EINVAL, ENOMEM} && buffer.Length == Grown(old(buffer.Length), Used(), size, r)
      ensures buffer == old(buffer) || fresh(buffer)
      ensures r != 0 ==> buffer == old(buffer) && rptr == old(rptr) && wptr == old(wptr) && rndx == old(rndx) && wndx == old(wndx)
    {
      var oldSize := buffer.Length;
      if ToUnsigned(size + Used()) < size {
        return EINVAL;
      }
      var total := ToUnsigned(size + Used());
      if oldSize < total {
        var doubled := ToUnsigned(2 * oldSize);
        r := Realloc2(if total >= doubled then total else doubled, enough);
        return r;
      }
      return 0;
    }

    /** fx_fifo_generic_write without a callback. The source leaves it to the caller that there is
        space for the bytes. */
    method Write(src: seq<byte>) returns (total: int)
      requires Valid() && |src| < 0x8000_0000 && |src| <= buffer.Length - Used()
      modifies this`wptr, this`wndx, buffer
      ensures Valid() && Contents() == old(Contents()) + src && total == |src|
    {
      hide Ring, Wrap;
      ghost var q, s, used := Contents(), buffer[..], Used();
      var size := |src|;
      var wndx', wptr' := wndx, wptr;
      while true
        invariant 0 <= size <= |src| && s == buffer[..]
        invariant IsWritten(s, rptr, q, src[..|src| - size], wptr', rndx, wndx')
        decreases size
      {
        var len;
        len, wptr', wndx', s := WriteChunk(buffer, s, rptr, q, src, size, wptr', rndx, wndx');
        size := size - len;
        if size <= 0 {
          break;
        }
      }
      assert src[..|src|] == src;
      wndx, wptr := wndx', wptr';
      return |src| - size;
    }
  }

  /** The new buffer of fx_fifo_realloc2, into which the old bytes have been read. */
  method NewWith(size: int, bytes: seq<byte>) returns (f2: Fifo)
    requires |bytes| < size < 0x1_0000_0000
    ensures fresh(f2) && fresh(f2.buffer) && f2.buffer.Length == size && f2.Valid() && f2.Contents() == bytes
  {
    f2 := new Fifo(size);
    ghost var s := f2.buffer[..];
    ghost var t := CopyIn(f2.buffer, s, 0, bytes, 0, |bytes|);
    f2.wptr := f2.wptr + |bytes|;
    f2.wndx := ToUnsigned(f2.wndx + |bytes|);
    RingWrite(s, t, 0, 0, 0, bytes);
    assert bytes[0..|bytes|] == bytes;
  }

  /** A ring from r with the bytes q and then p, and the write position and index behind them. */
  ghost predicate IsWritten(s: seq<byte>, r: int, q: seq<byte>, p: seq<byte>, w: int, rndx: int, wndx: int) {
    && IsPosition(|s|, r) && |q| + |p| <= |s| < 0x1_0000_0000 && w == Wrap(|s|, r + (|q| + |p|))
    && Ring(s, r, |q| + |p|) == q + p
    && 0 <= rndx < 0x1_0000_0000 && 0 <= wndx < 0x1_0000_0000 && ToUnsigned(wndx - rndx) == |q| + |p|
  }

  lemma WriteStep(s: seq<byte>, t: seq<byte>, r: int, q: seq<byte>, p: seq<byte>, chunk: seq<byte>, w: int, w': int, rndx: int, wndx: int)
    requires IsWritten(s, r, q, p, w, rndx, wndx) && |q| + |p| + |chunk| <= |s| && w + |chunk| <= |s|
    requires t == s[..w] + chunk + s[w + |chunk|..]
    requires w' == if w + |chunk| >= |s| then 0 else w + |chunk|
    ensures IsWritten(t, r, q, p + chunk, w', rndx, ToUnsigned(wndx + |chunk|))
  {
    RingWrite(s, t, r, |q| + |p|, w, chunk);
    IndexStep(wndx, rndx, |chunk|);
    assert q + (p + chunk) == q + p + chunk;
  }

  /** The body of the loop of fx_fifo_generic_write. */
  method WriteChunk(buffer: array<byte>, ghost s: seq<byte>, ghost r: int, ghost q: seq<byte>, src: seq<byte>, size: int,
                    w: int, ghost rndx: int, wndx: int)
    returns (len: int, w': int, wndx': int, ghost t: seq<byte>)
    requires s == buffer[..] && 0 <= size <= |src| && |q| + |src| <= |s|
    requires IsWritten(s, r, q, src[..|src| - size], w, rndx, wndx)
    modifies buffer
    ensures t == buffer[..] && 0 <= len <= size && (size > 0 ==> len > 0)
    ensures IsWritten(t, r, q, src[..|src| - (size - len)], w', rndx, wndx')
  {
    var from := |src| - size;
    len := if buffer.Length - w <= size then buffer.Length - w else size;
    t := CopyIn(buffer, s, w, src, from, len);
    w' := w + len;
    if w' >= buffer.Length {
      w' := 0;
    }
    wndx' := ToUnsigned(wndx + len);
    assert src[..from] + src[from..from + len] == src[..from + len];
    WriteStep(s, t, r, q, src[..from], src[from..from + len], w, w', rndx, wndx);
  }

  // ----- runs -----

  datatype Operation =
    | Write(src: seq<byte>)
    | Read(n: int)
    | Drain(n: int)
    | PeekAt(offset: int, n: int)
    | Grow(size: int, enough: bool)

  datatype Outcome = Bytes(bytes: seq<byte>) | Code(code: int)

  /** What a FIFO stands for: a queue of bytes with a capacity. */
  datatype Queue = Queue(bytes: seq<byte>, capacity: int) {
    /** What the caller has to see to. */
    predicate Permits(op: Operation) {
      match op
      case Write(src) => |src| < 0x8000_0000 && |src| <= capacity - |bytes|
      case Read(n) => 0 <= n <= |bytes| < 0x8000_0000
      case Drain(n) => 0 <= n <= |bytes| < 0x8000_0000
      case PeekAt(offset, n) => 0 <= offset && 0 <= n && offset + n <= |bytes|
      case Grow(size, _) => 0 <= size < 0x1_0000_0000 && (capacity < size + |bytes| ==> |bytes| < 0x8000_0000)
    }

    function GrowCode(size: int, enough: bool): int {
      if size + |bytes| >= 0x1_0000_0000 then EINVAL
      else if capacity < size + |bytes| && !enough then ENOMEM
      else 0
    }

    function Next(op: Operation): Queue
      requires Permits(op)
    {
      match op
      case Write(src) => Queue(bytes + src, capacity)
      case Read(n) => Queue(bytes[n..], capacity)
      case Drain(n) => Queue(bytes[n..], capacity)
      case PeekAt(_, _) => this
      case Grow(size, enough) => Queue(bytes, Grown(capacity, |bytes|, size, GrowCode(size, enough)))
    }

    function Result(op: Operation): Outcome
      requires Permits(op)
    {
      match op
      case Write(src) => Code(|src|)
      case Read(n) => Bytes(bytes[..n])
      case Drain(_) => Code(0)
      case PeekAt(offset, n) => Bytes(bytes[offset..offset + n])
      case Grow(size, enough) => Code(GrowCode(size, enough))
    }

    predicate PermitsAll(ops: seq<Operation>)
      decreases |ops|
    {
      ops == [] || (Permits(ops[0]) && Next(ops[0]).PermitsAll(ops[1..]))
    }

    function After(ops: seq<Operation>): Queue
      requires PermitsAll(ops)
      decreases |ops|
    {
      if ops == [] then this else Next(ops[0]).After(ops[1..])
    }

    function Results(ops: seq<Operation>): seq<Outcome>
      requires PermitsAll(ops)
      decreases |ops|
    {
      if ops == [] then [] else [Result(ops[0])] + Next(ops[0]).Results(ops[1..])
    }
  }

  /** All that the operations put in. */
  function PutIn(ops: seq<Operation>): seq<byte> {
    if ops == [] then [] else (if ops[0].Write? then ops[0].src else []) + PutIn(ops[1..])
  }

  /** All that the operations take out. */
  function TakenOut(q: Queue, ops: seq<Operation>): seq<byte>
    requires q.PermitsAll(ops)
    decreases |ops|
  {
    if ops == [] then []
    else (if ops[0].Read? || ops[0].Drain? then q.bytes[..ops[0].n] else []) + TakenOut(q.Next(ops[0]), ops[1..])
  }

  /** Nothing is lost, added or put out of order: what was there and has been put in is what has been
      taken out and is still there. */
  lemma {:induction false} FirstInFirstOut(q: Queue, ops: seq<Operation>)
    requires q.PermitsAll(ops)
    ensures q.bytes + PutIn(ops) == TakenOut(q, ops) + q.After(ops).bytes
    decreases |ops|
  {
    if ops != [] {
      var next, rest := q.Next(ops[0]), ops[1..];
      FirstInFirstOut(next, rest);
      InAndOut(q, ops[0], PutIn(rest), TakenOut(next, rest), next.After(rest).bytes);
    }
  }

  lemma InAndOut(q: Queue, op: Operation, put: seq<byte>, taken: seq<byte>, last: seq<byte>)
    requires q.Permits(op) && q.Next(op).bytes + put == taken + last
    ensures q.bytes + ((if op.Write? then op.src else []) + put) == (if op.Read? || op.Drain? then q.bytes[..op.n] else []) + taken + last
  {
    if op.Write? {
      assert q.bytes + (op.src + put) == q.bytes + op.src + put;
      assert [] + taken + last == taken + last;
    } else if op.Read? || op.Drain? {
      var head, tail := q.bytes[..op.n], q.bytes[op.n..];
      assert q.bytes + put == head + (tail + put);
      assert head + (taken + last) == head + taken + last;
      assert [] + put == put;
    } else {
      assert [] + put == put && [] + taken + last == taken + last;
    }
  }

  ghost function QueueOf(f: Fifo): Queue
    requires f.Valid()
    reads f, f.buffer
  {
    Queue(f.Contents(), f.buffer.Length)
  }

  method Perform(f: Fifo, op: Operation) returns (outcome: Outcome)
    requires f.Valid() && QueueOf(f).Permits(op)
    modifies f, f.buffer
    ensures f.Valid() && QueueOf(f) == old(QueueOf(f)).Next(op) && outcome == old(QueueOf(f)).Result(op)
    ensures f.buffer == old(f.buffer) || fresh(f.buffer)
  {
    match op
    case Write(src) =>
      var total := f.Write(src);
      outcome := Code(total);
    case Read(n) =>
      var dest := f.Read(n);
      outcome := Bytes(dest);
    case Drain(n) =>
      f.Drain(n);
      outcome := Code(0);
    case PeekAt(offset, n) =>
      var dest := f.PeekAt(offset, n);
      outcome := Bytes(dest);
    case Grow(size, enough) =>
      var r := f.Grow(size, enough);
      outcome := Code(r);
  }

  /** Any run of operations gives what it gives on a plain queue. */
  method Run(f: Fifo, ops: seq<Operation>) returns (outcomes: seq<Outcome>)
    requires f.Valid() && QueueOf(f).PermitsAll(ops)
    modifies f, f.buffer
    ensures f.Valid() && QueueOf(f) == old(QueueOf(f)).After(ops) && outcomes == old(QueueOf(f)).Results(ops)
  {
    ghost var q := QueueOf(f);
    outcomes := [];
    var i := 0;
    while i < |ops|
      invariant 0 <= i <= |ops| && f.Valid() && (f.buffer == old(f.buffer) || fresh(f.buffer))
      invariant QueueOf(f).PermitsAll(ops[i..]) && QueueOf(f).After(ops[i..]) == q.After(ops)
      invariant outcomes + QueueOf(f).Results(ops[i..]) == q.Results(ops)
    {
      assert ops[i..][1..] == ops[i + 1..];
      var outcome := Perform(f, ops[i]);
      outcomes := outcomes + [outcome];
      i := i + 1;
    }
  }
}
