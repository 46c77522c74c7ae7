/**
  The sample protocol's message buffer (`msgbuf` in tests/sampleproto.cpp):
  a byte array of `m_size` bytes with a read/write cursor `m_next`.

  `m_next` is a C `int` and `m_size` a `size_t`; the comparisons mix the two,
  so an `int` expression that is negative compares as a huge unsigned value.
  `Fits` below spells that out.
*/
module Cursor {
  import opened Bytes

  /** `x < m_size` where `x` is an `int` expression converted to `size_t`:
      true exactly when x is non-negative and below the size. */
  predicate Fits(x: int, size: int)
  {
    0 <= x < size
  }

  /** The bytes `getp(n)` points at, or None for the null pointer: the pointer
      is returned when `m_next + n - 1 < m_size`. */
  function GetPAt(w: seq<Byte>, next: int, n: nat): (r: Option<seq<Byte>>)
    requires 0 <= next
    ensures r.Some? <==> Fits(next + n - 1, |w|)
    ensures r.Some? ==> next + n <= |w| && r.value == w[next..next + n]
  {
    if Fits(next + n - 1, |w|) then Some(w[next..next + n]) else None
  }

  /** The cursor after `advance(n)`: moved by n when `m_next + n - 1 < m_size`,
      otherwise clamped to the end. */
  function AdvanceTo(size: nat, next: int, n: int): (r: int)
    ensures 0 <= r <= size
    ensures Fits(next + n - 1, size) ==> r == next + n
    ensures !Fits(next + n - 1, size) ==> r == size
  {
    if Fits(next + n - 1, size) then next + n else size
  }

  /** advance(0) on a cursor at the start does not stay put: -1 converted to
      size_t is not below the size, so the cursor jumps to the end. */
  lemma AdvanceZeroAtStartJumpsToEnd(size: nat)
    ensures AdvanceTo(size, 0, 0) == size
  {
  }

  /** Advancing by n never moves the cursor backwards when n >= 0. */
  lemma AdvanceMonotone(size: nat, next: int, n: nat)
    requires 0 <= next <= size
    ensures next <= AdvanceTo(size, next, n)
  {
  }

  /** `s` with the bytes `b` written over it from index `at` on. */
  function Splice(s: seq<Byte>, at: nat, b: seq<Byte>): (r: seq<Byte>)
    requires at + |b| <= |s|
    ensures |r| == |s|
    ensures r[..at] == s[..at] && r[at..at + |b|] == b && r[at + |b|..] == s[at + |b|..]
  {
    s[..at] + b + s[at + |b|..]
  }

  /** Two writes one after the other are one write of both. */
  lemma SpliceTwice(s: seq<Byte>, at: nat, b1: seq<Byte>, b2: seq<Byte>)
    requires at + |b1| + |b2| <= |s|
    ensures Splice(Splice(s, at, b1), at + |b1|, b2) == Splice(s, at, b1 + b2)
  {
    var r := Splice(Splice(s, at, b1), at + |b1|, b2);
    assert r[..at] == s[..at];
    assert r[at..at + |b1| + |b2|] == b1 + b2 by {
      assert r[at..at + |b1|] == b1;
      assert r[at + |b1|..at + |b1| + |b2|] == b2;
    }
  }

  /** How many of `count` bytes fit from cursor `next` on in a buffer of `size` bytes. */
  function Room(size: nat, next: int, count: nat): (k: nat)
    requires 0 <= next <= size
    ensures k <= count && next + k <= size
    ensures k == count || next + k == size
  {
    if count <= size - next then count else size - next
  }

  /** The bytes of `w0` after writing `src` at cursor `n0`: as many of them as fit. */
  function Put(w0: seq<Byte>, n0: int, src: seq<Byte>): (w: seq<Byte>)
    requires 0 <= n0 <= |w0|
    ensures |w| == |w0|
  {
    Splice(w0, n0, src[..Room(|w0|, n0, |src|)])
  }

  /** The buffer `w` with cursor `n` is what writing `src` at cursor `n0` of
      `w0` leaves: as many of the bytes as fit, the cursor moved past them. */
  predicate Appended(w0: seq<Byte>, n0: int, w: seq<Byte>, n: int, src: seq<Byte>)
  {
    && 0 <= n0 <= |w0|
    && n == n0 + Room(|w0|, n0, |src|)
    && w == Put(w0, n0, src)
  }

  /** With room for all of `src`, all of it is written. */
  lemma AppendedWithRoom(w0: seq<Byte>, n0: int, w: seq<Byte>, n: int, src: seq<Byte>)
    requires 0 <= n0 && n0 + |src| <= |w0|
    ensures Appended(w0, n0, w, n, src) <==> n == n0 + |src| && w == Splice(w0, n0, src)
  {
    assert src[..|src|] == src;
  }

  /** Writing nothing changes nothing. */
  lemma AppendedNothing(w0: seq<Byte>, n0: int)
    requires 0 <= n0 <= |w0|
    ensures Appended(w0, n0, w0, n0, [])
  {
    assert Splice(w0, n0, []) == w0;
  }

  /** Writing `a` and then `b` is writing `a + b`: once `a` fills the buffer,
      nothing of `b` is written. */
  lemma AppendedThen(w0: seq<Byte>, n0: int, w1: seq<Byte>, n1: int, w2: seq<Byte>, n2: int, a: seq<Byte>, b: seq<Byte>)
    requires Appended(w0, n0, w1, n1, a) && Appended(w1, n1, w2, n2, b)
    ensures Appended(w0, n0, w2, n2, a + b)
  {
    var k1 := Room(|w0|, n0, |a|);
    var k2 := Room(|w1|, n1, |b|);
    if k1 < |a| {
      assert k2 == 0 && (a + b)[..Room(|w0|, n0, |a| + |b|)] == a[..k1];
      assert Splice(w1, n1, b[..0]) == w1;
    } else {
      assert (a + b)[..Room(|w0|, n0, |a| + |b|)] == a + b[..k2];
      assert a[..k1] == a;
      SpliceTwice(w0, n0, a, b[..k2]);
    }
  }

  /** A buffer at least as long as `src`, written from its start, holds
      `src` followed by what was already behind it. */
  lemma PutFromStart(w0: seq<Byte>, src: seq<Byte>)
    requires |src| <= |w0|
    ensures Put(w0, 0, src) == src + w0[|src|..]
  {
    assert src[..|src|] == src;
  }

  /** The status `putp(p, n)` returns as written: the loop condition
      `m_next < m_size && n-- && ...` decrements n even when n is already 0,
      which wraps the size_t around to 2^64 - 1.  `room` is `m_size - m_next`.
      The result is the final value of n. */
  function PutPFinalCount(room: nat, n: nat): nat
  {
    if room == 0 then n
    else if n == 0 then 0x1_0000_0000_0000_0000 - 1
    else PutPFinalCount(room - 1, n - 1)
  }

  function PutPStatusAsWritten(room: nat, n: nat): int
  {
    if PutPFinalCount(room, n) != 0 then -1 else 0
  }

  /** As written, putp reports success only when the n bytes fill the buffer
      exactly; when they fit with room to spare it still reports -1. */
  lemma {:induction false} PutPStatusAsWrittenOnlyExactFit(room: nat, n: nat)
    ensures PutPStatusAsWritten(room, n) == 0 <==> n == room
  {
    if room != 0 && n != 0 {
      PutPStatusAsWrittenOnlyExactFit(room - 1, n - 1);
    }
  }

  /** Two bytes into a buffer with four bytes free are all copied, yet the
      status is -1. */
  lemma PutPFitsButFails()
    ensures PutPStatusAsWritten(4, 2) == -1
  {
    PutPStatusAsWrittenOnlyExactFit(4, 2);
  }

  /** The cursor after `reverse(n)` as written: moved back by n when the result
      is positive, else 0.  A negative n moves it forwards without limit. */
  function ReverseAsWritten(next: int, n: int): int
  {
    if next - n > 0 then next - n else 0
  }

  /** reverse(-5) with the cursor at 3 of a 4-byte buffer leaves it at 8,
      beyond the end. */
  lemma ReverseNegativeLeavesBuffer()
    ensures ReverseAsWritten(3, -5) == 8 && ReverseAsWritten(3, -5) > 4
  {
  }

  class MsgBuf {
    var data: array<Byte>
    var size: nat
    var next: int

    /** The storage covers the size, and the cursor lies in [0, size]. */
    ghost predicate Valid()
      reads this
    {
      size <= data.Length && 0 <= next <= size
    }

    /** The `size` bytes of the buffer. */
    ghost function Contents(): (w: seq<Byte>)
      reads this, data
      requires Valid()
      ensures |w| == size
    {
      data[..size]
    }

    /** msgbuf(n): alloc_buf(n) on a new buffer. */
    constructor (n: nat)
      ensures Valid() && fresh(data)
      ensures size == n && next == 0 && Contents() == seq(n, _ => 0)
    {
      data := new Byte[n](_ => 0);
      size := n;
      next := 0;
    }

    /** msgbuf(p, n): set_buf(p, n) on a new buffer. */
    constructor FromStorage(p: array<Byte>, n: nat)
      requires n <= p.Length
      ensures Valid() && data == p && size == n && next == 0
    {
      data := p;
      size := n;
      next := 0;
    }

    /** alloc_buf(n): fresh zeroed storage of n bytes, cursor at the start. */
    method AllocBuf(n: nat) returns (r: int)
      modifies this
      ensures Valid() && fresh(data)
      ensures size == n && next == 0 && Contents() == seq(n, _ => 0) && r == 0
    {
      data := new Byte[n](_ => 0);
      size := n;
      next := 0;
      r := 0;
    }

    /** set_buf(p, n): adopt the caller's storage, cursor at the start. */
    method SetBuf(p: array<Byte>, n: nat) returns (r: int)
      requires n <= p.Length
      modifies this
      ensures Valid() && data == p && size == n && next == 0 && r == 0
    {
      data := p;
      size := n;
      next := 0;
      r := 0;
    }

    /** putc(c): writes c at the cursor and advances when there is room;
        otherwise returns -1 and changes nothing. */
    method PutC(c: Byte) returns (r: int)
      requires Valid()
      modifies this, data
      ensures Valid() && data == old(data) && size == old(size)
      ensures old(next) < size ==> r == 0 && next == old(next) + 1 && Contents() == Splice(old(Contents()), old(next), [c])
      ensures old(next) == size ==> r == -1 && next == old(next) && Contents() == old(Contents())
    {
      if next < size {
        data[next] := c;
        next := next + 1;
        r := 0;
      } else {
        r := -1;
      }
    }

    /** putp(p, n) with its evident intent: copies as many of the bytes as fit
        and returns 0 exactly when all of them were copied. */
    method PutP(src: seq<Byte>) returns (r: int)
      requires Valid()
      modifies this, data
      ensures Valid() && data == old(data) && size == old(size)
      ensures Appended(old(Contents()), old(next), Contents(), next, src)
      ensures r == 0 <==> |src| <= old(size - next)
      ensures r == 0 || r == -1
    {
      ghost var w0 := Contents();
      ghost var start := next;
      var i := 0;
      while next < size && i < |src|
        invariant data == old(data) && size == old(size) && size <= data.Length && |w0| == size
        invariant 0 <= i <= |src| && next == start + i && next <= size
        invariant data[..size] == Splice(w0, start, src[..i])
        decreases |src| - i
      {
        data[next] := src[i];
        next := next + 1;
        i := i + 1;
        assert src[..i] == src[..i - 1] + [src[i - 1]];
      }
      r := if i == |src| then 0 else -1;
    }

    /** getc(): the byte at the cursor, advancing past it, or 0xFF without
        moving when the buffer is exhausted. */
    method GetC() returns (c: Byte)
      requires Valid()
      modifies this
      ensures Valid() && data == old(data) && size == old(size)
      ensures old(next) < size ==> c == data[old(next)] && next == old(next) + 1
      ensures old(next) == size ==> c == 0xFF && next == old(next)
    {
      if next < size {
        c := data[next];
        next := next + 1;
      } else {
        c := 0xFF;
      }
    }

    /** getp(n): the n bytes at the cursor, or None (the null pointer) when
        `m_next + n - 1 < m_size` fails. */
    method GetP(n: nat) returns (r: Option<seq<Byte>>)
      requires Valid()
      ensures r == GetPAt(Contents(), next, n)
    {
      if next + n - 1 >= 0 && next + n - 1 < size {
        assert data[..size][next..next + n] == data[next..next + n];
        r := Some(data[next..next + n]);
      } else {
        r := None;
      }
    }

    /** advance(n): see `AdvanceTo`; returns the new cursor. */
    method Advance(n: int) returns (r: int)
      requires Valid()
      modifies this
      ensures Valid() && data == old(data) && size == old(size)
      ensures next == AdvanceTo(size, old(next), n) && r == next
    {
      if next + n - 1 >= 0 && next + n - 1 < size {
        next := next + n;
      } else {
        next := size;
      }
      r := next;
    }

    /** reverse(n) with its evident intent: moves the cursor back by n,
        clamped to the buffer, and returns it. */
    method Reverse(n: int) returns (r: int)
      requires Valid()
      modifies this
      ensures Valid() && data == old(data) && size == old(size)
      ensures old(next) - n <= 0 ==> next == 0
      ensures 0 < old(next) - n <= size ==> next == old(next) - n
      ensures old(next) - n > size ==> next == size
      ensures r == next
    {
      if next - n > size {
        next := size;
      } else if next - n > 0 {
        next := next - n;
      } else {
        next := 0;
      }
      r := next;
    }

    /** reset(): cursor back to the start. */
    method Reset()
      modifies this
      ensures data == old(data) && size == old(size) && next == 0
      ensures old(Valid()) ==> Valid()
    {
      next := 0;
    }
  }
}
