/**
  The connection buffer of pkg/buffer/iobuffer.go: a growing array with a read offset that must behave as a
  first-in first-out queue of bytes, with a mark to return to.
 */
module IoBuffer {
  import opened Bytes
  import opened BytePool

  const RESET_OFF_MARK: int := -1
  const DEFAULT_SIZE: nat := 16

  function Min(a: nat, b: nat): nat {
    if a <= b then a else b
  }

  class IoBuffer {
    /** The backing array; its length is the capacity of the source's slice, `len` the slice's length. */
    var arr: array<byte>
    var len: nat
    var off: nat
    var offMark: int
    /** Whether the array was handed out by the pool. */
    var pooled: bool
    const pool: ByteBufferPool

    ghost predicate Valid()
      reads this, pool
    {
      && off <= len <= arr.Length && offMark >= RESET_OFF_MARK
      && pool.Valid() && pool.Distinct() && arr !in pool.Free()
    }

    /** The queue: the bytes written and not yet read. */
    function Contents(): bytes
      requires off <= len <= arr.Length
      reads this, arr
    {
      arr[off..len]
    }

    /** The bytes read since the mark was set; meaningful while the mark is in front of the read offset. */
    function SinceMark(): bytes
      requires off <= len <= arr.Length && 0 <= offMark <= off
      reads this, arr
    {
      arr[offMark..off]
    }

    constructor (pool: ByteBufferPool, capacity: int)
      requires pool.Valid() && pool.Distinct()
      modifies pool
      ensures Valid() && this.pool == pool && Contents() == [] && offMark == RESET_OFF_MARK && off == 0
      ensures var size := if capacity <= 0 then DEFAULT_SIZE else capacity;
              arr.Length >= size && (!Pooled(size) ==> arr.Length == size)
      ensures fresh(arr) || arr in old(pool.Free())
      ensures pool.Free() <= old(pool.Free())
    {
      var size := if capacity <= 0 then DEFAULT_SIZE else capacity;
      var a := pool.Take(size);
      arr, len, off, offMark, pooled := a, 0, 0, RESET_OFF_MARK, true;
      this.pool := pool;
    }

    // -------------------------------------------------------------- reading

    method Reset()
      requires Valid()
      modifies this
      ensures Valid() && Contents() == [] && offMark == RESET_OFF_MARK && off == len == 0
      ensures arr == old(arr) && pooled == old(pooled)
    {
      len, off, offMark := 0, 0, RESET_OFF_MARK;
    }

    /** Reads into p; end of file is reported only when there is nothing to read and p has room. */
    method Read(p: array<byte>) returns (n: nat, eof: bool)
      requires Valid() && p != arr
      modifies this, p
      ensures Valid() && arr == old(arr) && pooled == old(pooled)
      ensures n == Min(p.Length, |old(Contents())|)
      ensures p[..n] == old(Contents())[..n] && p[n..] == old(p[n..])
      ensures Contents() == old(Contents())[n..]
      ensures eof <==> old(Contents()) == [] && p.Length > 0
      ensures old(Contents()) != [] ==> off == old(off) + n && len == old(len) && offMark == old(offMark)
      ensures old(Contents()) == [] ==> offMark == RESET_OFF_MARK
    {
      if off >= len {
        Reset();
        return 0, p.Length != 0;
      }
      n := Min(p.Length, len - off);
      for i := 0 to n
        invariant unchanged(this) && arr[..] == old(arr[..])
        invariant forall k :: 0 <= k < i ==> p[k] == arr[off + k]
        invariant forall k :: i <= k < p.Length ==> p[k] == old(p[k])
      {
        p[i] := arr[off + i];
      }
      assert p[..n] == old(Contents())[..n] && p[n..] == old(p[n..]);
      off := off + n;
      assert arr[off..len] == old(arr[off..len])[n..];
      return n, false;
    }

    method ReadByte() returns (b: byte, eof: bool)
      requires Valid()
      modifies this
      ensures Valid() && arr == old(arr) && pooled == old(pooled)
      ensures eof <==> old(Contents()) == []
      ensures !eof ==> && [b] + Contents() == old(Contents())
                       && off == old(off) + 1 && len == old(len) && offMark == old(offMark)
      ensures eof ==> Contents() == [] && offMark == RESET_OFF_MARK
    {
      if off >= len {
        Reset();
        return 0, true;
      }
      b := arr[off];
      off := off + 1;
      return b, false;
    }

    /** Drain and Cut take from the front, or do nothing when asked for more than there is. */
    method Drain(offset: nat)
      requires Valid()
      modifies this
      ensures Valid() && arr == old(arr) && pooled == old(pooled)
      ensures offset <= |old(Contents())| ==> Contents() == old(Contents())[offset..] && offMark == RESET_OFF_MARK
      ensures offset > |old(Contents())| ==> unchanged(this)
    {
      if off + offset > len {
        return;
      }
      off := off + offset;
      offMark := RESET_OFF_MARK;
    }

    method Cut(offset: nat) returns (part: array?<byte>)
      requires Valid()
      modifies this
      ensures Valid() && arr == old(arr) && pooled == old(pooled)
      ensures part != null <==> offset <= |old(Contents())|
      ensures part != null ==> && fresh(part) && part[..] == old(Contents())[..offset]
                               && Contents() == old(Contents())[offset..] && offMark == RESET_OFF_MARK
      ensures part == null ==> unchanged(this)
    {
      if off + offset > len {
        return null;
      }
      var buf := new byte[offset](i requires 0 <= i < offset && off + i < arr.Length reads this, arr => arr[off + i]);
      off := off + offset;
      offMark := RESET_OFF_MARK;
      return buf;
    }

    /** Peek hands out a window on the array without moving the offset. */
    method Peek(n: nat) returns (ok: bool, at: nat)
      requires Valid()
      ensures ok <==> n <= |Contents()|
      ensures ok ==> at + n <= arr.Length && arr[at..at + n] == Contents()[..n]
    {
      if len - off < n {
        return false, 0;
      }
      return true, off;
    }

    // -------------------------------------------------------------- mark and restore

    method Mark()
      requires Valid()
      modifies this`offMark
      ensures Valid() && 0 <= offMark <= off && SinceMark() == []
    {
      offMark := off;
    }

    /**
      Returns to the mark.  A mark not ahead of the read offset puts back what was read since; one ahead of it,
      which a write between Mark and Restore may leave, skips bytes that were never read, or moves the offset
      past the end.
     */
    method Restore()
      requires Valid()
      modifies this`off, this`offMark
      ensures offMark == RESET_OFF_MARK && off == if old(offMark) == RESET_OFF_MARK then old(off) else old(offMark)
      ensures Valid() <==> old(offMark) <= len
      ensures old(offMark) == RESET_OFF_MARK ==> Contents() == old(Contents())
      ensures 0 <= old(offMark) <= old(off) ==> Contents() == old(SinceMark()) + old(Contents())
      ensures old(off) < old(offMark) <= len ==> Contents() == old(Contents())[old(offMark) - old(off)..]
    {
      if offMark != RESET_OFF_MARK {
        off := offMark;
        offMark := RESET_OFF_MARK;
      }
    }

    // -------------------------------------------------------------- writing

    /** What any writing method may do to the array: keep it, or trade it for another one. */
    twostate predicate Replaced()
      reads this, pool
    {
      && (arr == old(arr) || fresh(arr) || arr in old(pool.Free()))
      && pool.Free() <= old(pool.Free()) + {old(arr)}
    }

    /**
      What a write does to the mark: it is lost when the buffer is reset, kept with everything in front of the
      read offset when the new bytes fit behind the old ones, and otherwise kept although the contents move.
     */
    twostate predicate MarkAfter(lost: bool, fits: bool)
      requires old(off) <= old(arr).Length
      reads this, arr
    {
      if lost then off == 0 && offMark == RESET_OFF_MARK
      else if fits then off == old(off) && offMark == old(offMark) && arr == old(arr) && arr[..off] == old(arr[..off])
      else off == 0 && offMark == old(offMark)
    }

    method TryGrowByReslice(n: nat) returns (at: nat, ok: bool)
      requires Valid()
      modifies this`len
      ensures Valid() && ok == (old(len) + n <= arr.Length)
      ensures ok ==> at == old(len) && len == old(len) + n
      ensures !ok ==> at == 0 && len == old(len)
    {
      if len + n <= arr.Length {
        at := len;
        len := len + n;
        return at, true;
      }
      return 0, false;
    }

    /** Slides the contents down to the start, or moves them to a larger array and recycles the old one. */
    method Copy(expand: nat)
      requires Valid()
      modifies this, pool, arr, pool.Free()
      ensures Valid() && Contents() == old(Contents()) && off == 0 && len == old(len) - old(off)
      ensures offMark == old(offMark)
      ensures expand == 0 ==> arr == old(arr)
      ensures expand > 0 ==> arr.Length >= 2 * old(arr).Length + expand
      ensures Replaced()
    {
      hide ValidSlots, DistinctSlots, Held;
      var n := len - off;
      if expand > 0 {
        var bigger := pool.Take(2 * arr.Length + expand);
        CopyBytes(bigger, arr, off, n);
        if pooled {
          pool.Give(arr);
        }
        arr, pooled := bigger, true;
      } else {
        CopyBytes(arr, arr, off, n);
      }
      len, off := n, 0;
    }

    method Grow(n: nat) returns (at: nat)
      requires Valid() && len + n > arr.Length
      modifies this, pool, arr, pool.Free()
      ensures Valid() && off <= at == len - n && arr[off..at] == old(Contents())
      ensures off == 0 && offMark == if old(off) == old(len) != 0 then RESET_OFF_MARK else old(offMark)
      ensures Replaced()
    {
      hide ValidSlots, DistinctSlots, Held;
      var m := len - off;
      if m == 0 && off != 0 {
        Reset();
      }
      var i, ok := TryGrowByReslice(n);
      if ok {
        return i;
      }
      if m + n <= arr.Length / 2 {
        Copy(0);
      } else {
        Copy(n);
      }
      off := 0;
      len := m + n;
      return m;
    }

    /** The first half of Write and WriteByte: the slice is longer by n bytes, behind the old contents. */
    method Lengthen(n: nat) returns (m: nat)
      requires Valid()
      modifies this, pool, arr, pool.Free()
      ensures Valid() && off <= m == len - n && arr[off..m] == old(Contents())
      ensures Replaced()
      ensures var fits := old(len + n <= arr.Length);
              MarkAfter(!fits && old(off == len != 0), fits)
    {
      hide ValidSlots, DistinctSlots, Held;
      var ok;
      m, ok := TryGrowByReslice(n);
      if !ok {
        m := Grow(n);
      }
    }

    method Write(p: bytes) returns (n: nat)
      requires Valid()
      modifies this, pool, arr, pool.Free()
      ensures Valid() && n == |p| && Contents() == old(Contents()) + p
      ensures Replaced()
      ensures var fits := old(len + |p| <= arr.Length);
              MarkAfter(!fits && old(off == len != 0), fits)
    {
      hide ValidSlots, DistinctSlots, Held;
      var m := Lengthen(|p|);
      ghost var before := arr[..];
      StoreBytes(arr, m, p);
      Stored(before, arr[..], off, m, p);
      return |p|;
    }

    method WriteByte(p: byte)
      requires Valid()
      modifies this, pool, arr, pool.Free()
      ensures Valid() && Contents() == old(Contents()) + [p]
      ensures Replaced()
      ensures var fits := old(len + 1 <= arr.Length);
              MarkAfter(!fits && old(off == len != 0), fits)
    {
      hide ValidSlots, DistinctSlots, Held;
      var m := Lengthen(1);
      ghost var before := arr[..];
      StoreByte(arr, m, p);
      Stored(before, arr[..], off, m, [p]);
    }

    /** The first half of Append: room for n bytes behind the contents. */
    method MakeRoom(n: nat)
      requires Valid()
      modifies this, pool, arr, pool.Free()
      ensures Valid() && Contents() == old(Contents()) && len + n <= arr.Length
      ensures Replaced()
      ensures MarkAfter(old(off == len), old(len + n <= arr.Length))
    {
      hide ValidSlots, DistinctSlots, Held;
      if off >= len {
        Reset();
      }
      var free := arr.Length - len;
      if free < n {
        if off + free < n {
          Copy(n);
        } else {
          Copy(0);
        }
      }
    }

    method Append(data: bytes)
      requires Valid()
      modifies this, pool, arr, pool.Free()
      ensures Valid() && Contents() == old(Contents()) + data
      ensures Replaced()
      ensures MarkAfter(old(off == len), old(len + |data| <= arr.Length))
    {
      hide ValidSlots, DistinctSlots, Held;
      MakeRoom(|data|);
      ghost var before := arr[..];
      StoreBytes(arr, len, data);
      Stored(before, arr[..], off, len, data);
      len := len + |data|;
    }
  }

  /** Go's copy between slices; source and destination may be the same array. */
  method CopyBytes(dst: array<byte>, src: array<byte>, from: nat, n: nat)
    requires from + n <= src.Length && n <= dst.Length
    modifies dst
    ensures dst[..n] == old(src[from..from + n])
  {
    for i := 0 to n
      invariant forall k :: 0 <= k < i ==> dst[k] == old(src[k + from])
      invariant forall k :: i <= k < src.Length ==> src[k] == old(src[k])
    {
      assert src[i + from] == old(src[i + from]);
      dst[i] := src[i + from];
    }
  }

  /** An array after bytes were stored behind its first `at` ones. */
  lemma Stored(before: bytes, after: bytes, off: nat, at: nat, p: bytes)
    requires off <= at && at + |p| <= |after| && at <= |before|
    requires after[..at] == before[..at] && after[at..at + |p|] == p
    ensures after[off..at + |p|] == before[off..at] + p && after[..off] == before[..off]
  {
    assert after[off..at] == after[..at][off..] && before[off..at] == before[..at][off..];
    assert after[..off] == after[..at][..off] && before[..off] == before[..at][..off];
    assert after[off..at + |p|] == after[off..at] + after[at..at + |p|];
  }

  method StoreByte(dst: array<byte>, at: nat, b: byte)
    requires at < dst.Length
    modifies dst
    ensures dst[..at] == old(dst[..at]) && dst[at..at + 1] == [b]
  {
    dst[at] := b;
  }

  method StoreBytes(dst: array<byte>, at: nat, p: bytes)
    requires at + |p| <= dst.Length
    modifies dst
    ensures dst[..at] == old(dst[..at]) && dst[at..at + |p|] == p
  {
    for i := 0 to |p|
      invariant forall k :: 0 <= k < at ==> dst[k] == old(dst[k])
      invariant forall k :: at <= k < at + i ==> dst[k] == p[k - at]
    {
      dst[at + i] := p[i];
    }
  }

  // ---------------------------------------------------------------- a write between Mark and Restore

  /**
    Whether a mark survives a write of n bytes, in terms of what a caller can see before it: a drained buffer
    may be reset, which costs nothing only if nothing was read since the mark; otherwise the bytes must fit
    behind the old ones, or nothing have been read at all.
   */
  predicate MarkSurvives(off: nat, offMark: nat, len: nat, capacity: nat, n: nat, append: bool) {
    if off == len && (append || len + n > capacity) then offMark == off
    else len + n <= capacity || off == 0
  }

  /** Write or Append, then Restore: what was read since the mark comes back exactly when the mark survives. */
  method WriteThenRestore(b: IoBuffer, p: bytes, append: bool)
    requires b.Valid() && 0 <= b.offMark <= b.off
    modifies b, b.pool, b.arr, b.pool.Free()
    ensures b.len <= b.arr.Length
    ensures b.off <= b.len && b.Contents() == old(b.SinceMark()) + (old(b.Contents()) + p) <==>
              MarkSurvives(old(b.off), old(b.offMark), old(b.len), old(b.arr.Length), |p|, append)
  {
    ghost var back, queue := b.SinceMark(), b.Contents();
    if append {
      b.Append(p);
    } else {
      var _ := b.Write(p);
    }
    assert b.offMark == b.off == 0 ==> b.SinceMark() == [];
    ghost var now := b.Contents();
    b.Restore();
    assert |back + now| == |back| + |now|;
    assert back == [] ==> back + now == now;
  }

  /** A new buffer of sixteen bytes, ten written and five of them read. */
  method HalfRead(data: bytes) returns (b: IoBuffer)
    requires |data| == 10
    ensures fresh(b) && fresh(b.arr) && fresh(b.pool) && fresh(b.pool.Free())
    ensures b.Valid() && b.arr.Length == 16 && b.off == 5 && b.len == 10 && b.Contents() == data[5..]
  {
    var pool := new ByteBufferPool();
    b := new IoBuffer(pool, 16);
    assert 10 <= b.arr.Length && b.Contents() + data == data;
    var _ := b.Write(data);
    var p := new byte[5];
    var _, _ := b.Read(p);
  }

  /** Such a loss: ten bytes written, five read, a mark, seven more written, and Restore skips five unread bytes. */
  method StaleMarkExample(data: bytes, more: bytes) returns (unread: bytes, left: bytes)
    requires |data| == 10 && |more| == 7
    ensures unread == data[5..] + more && left == unread[5..]
  {
    var b := HalfRead(data);
    b.Mark();
    var _ := b.Write(more);
    unread := b.Contents();
    b.Restore();
    left := b.Contents();
  }

  // ---------------------------------------------------------------- sequences of operations

  datatype Op =
    | WriteOp(data: bytes)
    | AppendOp(data: bytes)
    | WriteByteOp(b: byte)
    | ReadOp(n: nat)
    | ReadByteOp
    | DrainOp(n: nat)
    | CutOp(n: nat)
    | MarkOp
    | RestoreOp

  datatype Output = Nothing | Data(data: bytes) | Refused

  /** No mark; what was read since the mark; or a mark that a write may have spoilt. */
  datatype Mark = Unmarked | Since(back: bytes) | Stale

  datatype Queue = Queue(mark: Mark, bytes: bytes)

  function Added(q: Queue, data: bytes): Queue {
    Queue(if q.mark.Since? then Stale else q.mark, q.bytes + data)
  }

  function Taken(q: Queue, n: nat): Queue
    requires n <= |q.bytes|
  {
    Queue(if q.mark.Since? then Since(q.mark.back + q.bytes[..n]) else q.mark, q.bytes[n..])
  }

  /** The abstract queue: what each operation leaves behind and what it hands out. */
  function QueueStep(q: Queue, op: Op): (Queue, Output) {
    match op
    case WriteOp(data) => (Added(q, data), Nothing)
    case AppendOp(data) => (Added(q, data), Nothing)
    case WriteByteOp(b) => (Added(q, [b]), Nothing)
    case ReadOp(n) =>
      if q.bytes == [] then (Queue(Unmarked, []), if n > 0 then Refused else Data([]))
      else (Taken(q, Min(n, |q.bytes|)), Data(q.bytes[..Min(n, |q.bytes|)]))
    case ReadByteOp => if q.bytes == [] then (Queue(Unmarked, []), Refused) else (Taken(q, 1), Data(q.bytes[..1]))
    case DrainOp(n) => if n <= |q.bytes| then (Queue(Unmarked, q.bytes[n..]), Nothing) else (q, Nothing)
    case CutOp(n) => if n <= |q.bytes| then (Queue(Unmarked, q.bytes[n..]), Data(q.bytes[..n])) else (q, Refused)
    case MarkOp => (Queue(Since([]), q.bytes), Nothing)
    case RestoreOp => (if q.mark.Since? then Queue(Unmarked, q.mark.back + q.bytes) else q, Nothing)
  }

  function QueueRun(q: Queue, ops: seq<Op>): (Queue, seq<Output>)
    decreases |ops|
  {
    if ops == [] then (q, []) else
    var init := QueueRun(q, ops[..|ops| - 1]);
    var last := QueueStep(init.0, ops[|ops| - 1]);
    (last.0, init.1 + [last.1])
  }

  /** No Restore comes after a write that followed its Mark. */
  predicate RestoresInTime(q: Queue, ops: seq<Op>) {
    forall i :: 0 <= i < |ops| && ops[i].RestoreOp? ==> !QueueRun(q, ops[..i]).0.mark.Stale?
  }

  ghost predicate Matches(b: IoBuffer, q: Queue)
    reads b, b.arr
  {
    && b.off <= b.len <= b.arr.Length && b.Contents() == q.bytes
    && match q.mark
       case Unmarked => b.offMark == RESET_OFF_MARK
       case Since(back) => 0 <= b.offMark <= b.off && b.SinceMark() == back
       case Stale => true
  }

  /** Moving the read offset forward moves bytes from the queue to what was read since the mark. */
  lemma SliceMove(a: bytes, mark: nat, off: nat, n: nat, len: nat)
    requires mark <= off && off + n <= len <= |a|
    ensures a[mark..off + n] == a[mark..off] + a[off..len][..n]
    ensures a[off + n..len] == a[off..len][n..]
  {
  }

  method PerformRead(b: IoBuffer, ghost q: Queue, n: nat) returns (out: Output)
    requires b.Valid() && Matches(b, q)
    modifies b
    ensures b.Valid() && b.arr == old(b.arr)
    ensures Matches(b, QueueStep(q, ReadOp(n)).0) && out == QueueStep(q, ReadOp(n)).1
  {
    if q.mark.Since? {
      SliceMove(b.arr[..], b.offMark, b.off, Min(n, |q.bytes|), b.len);
    }
    var p := new byte[n];
    var got, eof := b.Read(p);
    out := if eof then Refused else Data(p[..got]);
  }

  /** One other operation that moves the read offset of the real buffer, or the mark; the array stays. */
  method PerformTake(b: IoBuffer, ghost q: Queue, op: Op) returns (out: Output)
    requires b.Valid() && Matches(b, q) && (op.ReadByteOp? || op.DrainOp? || op.CutOp? || op.MarkOp? || op.RestoreOp?)
    requires op.RestoreOp? ==> !q.mark.Stale?
    modifies b
    ensures b.Valid() && b.arr == old(b.arr)
    ensures Matches(b, QueueStep(q, op).0) && out == QueueStep(q, op).1
  {
    hide ValidSlots, DistinctSlots, Held;
    out := Nothing;
    match op
    case ReadByteOp =>
      if q.mark.Since? && q.bytes != [] {
        SliceMove(b.arr[..], b.offMark, b.off, 1, b.len);
      }
      var x, eof := b.ReadByte();
      assert !eof ==> q.bytes[..1] == [x];
      out := if eof then Refused else Data([x]);
    case CutOp(n) =>
      var part := b.Cut(n);
      out := if part == null then Refused else Data(part[..]);
    case DrainOp(n) => b.Drain(n);
    case MarkOp => b.Mark();
    case RestoreOp => b.Restore();
  }

  /** One operation on the real buffer. */
  method Perform(b: IoBuffer, ghost q: Queue, op: Op) returns (out: Output)
    requires b.Valid() && Matches(b, q) && (op.RestoreOp? ==> !q.mark.Stale?)
    modifies b, b.pool, b.arr, b.pool.Free()
    ensures b.Valid() && b.Replaced()
    ensures Matches(b, QueueStep(q, op).0) && out == QueueStep(q, op).1
  {
    hide ValidSlots, DistinctSlots, Held;
    out := Nothing;
    match op
    case WriteOp(data) => var _ := b.Write(data);
    case AppendOp(data) => b.Append(data);
    case WriteByteOp(x) => b.WriteByte(x);
    case ReadOp(n) => out := PerformRead(b, q, n);
    case _ => out := PerformTake(b, q, op);
  }

  /**
    Every sequence of operations, through reslicing, sliding and reallocation, behaves as on the abstract queue,
    as long as no Restore follows a write that followed its Mark.
   */
  method Replay(b: IoBuffer, ghost q: Queue, ops: seq<Op>) returns (out: seq<Output>)
    requires b.Valid() && Matches(b, q) && RestoresInTime(q, ops)
    modifies b, b.pool, b.arr, b.pool.Free()
    ensures b.Valid() && Matches(b, QueueRun(q, ops).0) && out == QueueRun(q, ops).1
  {
    hide QueueStep, Matches;
    out := [];
    ghost var now := q;
    for i := 0 to |ops|
      invariant b.Valid() && Matches(b, now)
      invariant (now, out) == QueueRun(q, ops[..i])
      invariant b.arr == old(b.arr) || fresh(b.arr) || b.arr in old(b.pool.Free())
      invariant forall a :: a in b.pool.Free() ==> fresh(a) || a == old(b.arr) || a in old(b.pool.Free())
    {
      var o := Perform(b, now, ops[i]);
      assert ops[..i + 1][..i] == ops[..i];
      now := QueueStep(now, ops[i]).0;
      out := out + [o];
    }
    assert ops[..|ops|] == ops;
  }
}
