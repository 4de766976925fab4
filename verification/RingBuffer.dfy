/** The overwriting ring buffer of the UART/TCP bridge: a circular array that keeps the newest bytes. */
module RingBuffer {
  import opened Bytes

  /** The last `n` elements of `s`. */
  function Last<T>(s: seq<T>, n: nat): seq<T> {
    if |s| <= n then s else s[|s| - n..]
  }

  lemma NewestStay<T>(s: seq<T>, n: nat)
    ensures var l := Last(s, n); |l| == Min(|s|, n) && forall i | 0 <= i < |l| :: l[i] == s[|s| - |l| + i]
  {
  }

  lemma LastOfAppend<T>(s: seq<T>, x: T, n: nat)
    requires n > 0
    ensures Last(Last(s, n) + [x], n) == Last(s + [x], n)
  {
  }

  /** Writing `a` and then `b` is writing `a + b`, wherever the ring overflows. */
  lemma LastOfLast<T>(s: seq<T>, a: seq<T>, b: seq<T>, n: nat)
    ensures Last(Last(s + a, n) + b, n) == Last(s + (a + b), n)
  {
    var whole := s + (a + b);
    assert whole == s + a + b;
    if |s + a| > n {
      assert Last(s + a, n) + b == whole[|s + a| - n..];
    }
  }

  /** The index `i` places behind `from` in a circle of `size`. */
  function Slot(from: nat, i: nat, size: nat): (r: nat)
    requires from < size && i <= size
    ensures r < size
  {
    if from + i < size then from + i else from + i - size
  }

  lemma NextSlot(i: nat, size: nat)
    requires i < size
    ensures (i + 1) % size == Slot(i, 1, size)
  {
    if i + 1 == size {
      assert size % size == 0;
    }
  }

  /** The `count` elements of a circular array behind `tail`. */
  function Circle<T>(b: seq<T>, tail: nat, count: nat): (c: seq<T>)
    requires tail < |b| && count <= |b|
    ensures |c| == count && forall i | 0 <= i < count :: c[i] == b[Slot(tail, i, |b|)]
  {
    seq(count, i requires 0 <= i < count => b[Slot(tail, i, |b|)])
  }

  /** Storing at the head appends; on a full circle it takes the oldest element's place. */
  lemma PutAtHead<T>(b: seq<T>, tail: nat, count: nat, x: T)
    requires tail < |b| && count <= |b|
    ensures var c := b[Slot(tail, count, |b|) := x];
            if count < |b| then Circle(c, tail, count + 1) == Circle(b, tail, count) + [x]
            else Circle(c, Slot(tail, 1, |b|), count) == Circle(b, tail, count)[1..] + [x]
  {
    var c := b[Slot(tail, count, |b|) := x];
    if count < |b| {
      assert Circle(c, tail, count + 1) == Circle(b, tail, count) + [x];
    } else {
      var now, want := Circle(c, Slot(tail, 1, |b|), count), Circle(b, tail, count)[1..] + [x];
      forall i | 0 <= i < count ensures now[i] == want[i] {
        assert i < count - 1 ==> Slot(Slot(tail, 1, |b|), i, |b|) == Slot(tail, i + 1, |b|);
      }
    }
  }

  lemma GetAtTail<T>(b: seq<T>, tail: nat, count: nat)
    requires tail < |b| && 0 < count <= |b|
    ensures Circle(b, tail, count) == [b[tail]] + Circle(b, Slot(tail, 1, |b|), count - 1)
  {
    var now, want := Circle(b, tail, count), [b[tail]] + Circle(b, Slot(tail, 1, |b|), count - 1);
    forall i | 0 <= i < count ensures now[i] == want[i] {
      assert i > 0 ==> Slot(Slot(tail, 1, |b|), i - 1, |b|) == Slot(tail, i, |b|);
    }
  }

  class RingBuf {
    var buffer: array?<byte> // null until rb_init succeeds
    var size: nat
    var head: nat
    var tail: nat
    var count: nat

    ghost predicate Valid()
      reads this, buffer
    {
      buffer != null ==>
        && size == buffer.Length > 0 && tail < size && count <= size
        && head == Slot(tail, count, size)
    }

    /** The stored bytes, oldest first. */
    ghost function Contents(): seq<byte>
      requires Valid()
      reads this, buffer
    {
      if buffer == null then [] else Circle(buffer[..], tail, count)
    }

    ghost function Capacity(): nat
      requires Valid()
      reads this, buffer
    {
      if buffer == null then 0 else size
    }

    /** The static `s_rb` before rb_init. */
    constructor ()
      ensures Valid() && buffer == null
    {
      buffer := null;
      size, head, tail, count := 0, 0, 0, 0;
    }

    /** rb_init; `memory` says whether malloc succeeds. */
    method Init(size: nat, memory: bool) returns (ok: bool)
      requires size > 0 && Valid()
      modifies this
      ensures Valid() && ok == memory
      ensures ok ==> buffer != null && fresh(buffer) && Capacity() == size && Contents() == []
      ensures !ok ==> buffer == null
    {
      if !memory {
        buffer := null;
        return false;
      }
      buffer := new byte[size];
      this.size := size;
      head, tail, count := 0, 0, 0;
      return true;
    }

    /** The body of the loop of rb_write. */
    method Put(x: byte)
      requires Valid() && buffer != null
      modifies this`head, this`tail, this`count, buffer
      ensures Valid() && Contents() == Last(old(Contents()) + [x], size)
    {
      PutAtHead(buffer[..], tail, count, x);
      NextSlot(head, size);
      NextSlot(tail, size);
      buffer[head] := x;
      head := (head + 1) % size;
      if count < size {
        count := count + 1;
      } else {
        tail := (tail + 1) % size;
      }
    }

    /** rb_write: the ring holds the newest bytes of what it held and of the data. */
    method Write(data: seq<byte>)
      requires Valid()
      modifies this`head, this`tail, this`count, buffer
      ensures Valid() && Contents() == Last(old(Contents()) + data, Capacity())
    {
      if buffer == null {
        return;
      }
      var i := 0;
      assert old(Contents()) + data[..0] == old(Contents());
      while i < |data|
        invariant i <= |data| && Valid() && buffer != null
        invariant Contents() == Last(old(Contents()) + data[..i], size)
      {
        LastOfAppend(old(Contents()) + data[..i], data[i], size);
        assert old(Contents()) + data[..i] + [data[i]] == old(Contents()) + data[..i + 1];
        Put(data[i]);
        i := i + 1;
      }
      assert data[..i] == data;
    }

    /** rb_read: the oldest bytes, as many as there are and as fit. */
    method Read(dst: array<byte>, maxLen: int) returns (n: nat)
      requires Valid() && maxLen <= dst.Length && dst != buffer
      modifies this`tail, this`count, dst
      ensures Valid() && n == Min(if maxLen < 0 then 0 else maxLen, |old(Contents())|)
      ensures dst[..n] == old(Contents())[..n] && Contents() == old(Contents())[n..]
      ensures forall k | n <= k < dst.Length :: dst[k] == old(dst[k])
    {
      n := 0;
      if buffer == null {
        return;
      }
      while n < maxLen && count > 0
        invariant n <= |old(Contents())| && (n == 0 || n <= maxLen) && Valid() && buffer == old(buffer)
        invariant dst[..n] == old(Contents())[..n] && Contents() == old(Contents())[n..]
        invariant forall k | n <= k < dst.Length :: dst[k] == old(dst[k])
        decreases count
      {
        ghost var left := Contents();
        dst[n] := Get();
        assert Contents() == left[1..];
        n := n + 1;
      }
    }

    /** The body of the loop of rb_read. */
    method Get() returns (x: byte)
      requires Valid() && buffer != null && count > 0
      modifies this`tail, this`count
      ensures Valid() && [x] + Contents() == old(Contents())
    {
      NextSlot(tail, size);
      GetAtTail(buffer[..], tail, count);
      x := buffer[tail];
      tail := (tail + 1) % size;
      count := count - 1;
    }
  }
}
