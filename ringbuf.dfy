/**
 * The power-of-two ring buffer of `src/ringbuf.h`: `ringbuf_t` and its inline
 * operations.
 *
 * The caller supplies the storage and its size, which must be a power of two.
 * `head` is where the next byte is written and `tail` where the next byte is
 * read; both wrap with the mask `size - 1`. One slot is always left unused,
 * so `head == tail` means empty, `Next(head) == tail` means full, and at most
 * `size - 1` bytes are held.
 *
 * The ghost field `Contents` is the abstract value: the live bytes, oldest
 * first, from `tail` up to `head` with wrap-around. The optional write-notify
 * callback is modelled by `notifyRegistered` (the field is not NULL) and the
 * ghost counter `notifications` (how often it has been called).
 */
module Ringbuf {
  import opened Bits

  /** Index `i` (below `2 * n`) brought back into `[0, n)`. */
  ghost function Wrap(i: int, n: int): int
  {
    if i < n then i else i - n
  }

  /** Number of steps from index `from` forward to index `to` on a ring of `n` slots. */
  ghost function Distance(from: int, to: int, n: int): int
  {
    if from <= to then to - from else to + n - from
  }

  class RingBuffer {
    var buf: array<byte>
    var size: u16
    var head: u16
    var tail: u16
    var notifyRegistered: bool

    ghost var Contents: seq<byte>
    ghost var notifications: nat

    ghost predicate Valid()
      reads this`buf, this`size, this`head, this`tail, this`Contents, buf
    {
      && IsPow2(size) && size <= buf.Length
      && head < size && tail < size
      && |Contents| == Distance(tail, head, size)
      && forall k :: 0 <= k < |Contents| ==> Contents[k] == buf[Wrap(tail + k, size)]
    }

    /** `ringbuf_init`: use `storage[0..size)`, start empty, no callback. */
    constructor Init(storage: array<byte>, size: u16)
      requires IsPow2(size) && size <= storage.Length
      ensures Valid()
      ensures buf == storage && this.size == size && head == 0 && tail == 0
      ensures !notifyRegistered && Contents == [] && notifications == 0
      ensures Empty() && Count() == 0 && Free() == size - 1
      ensures Full() <==> size == 1
    {
      buf := storage;
      this.size := size;
      head := 0;
      tail := 0;
      notifyRegistered := false;
      Contents := [];
      notifications := 0;
    }

    /** `ringbuf_mask`. */
    function Mask(): u16
      reads this`size
      requires size > 0
    {
      size - 1
    }

    /** `ringbuf_next`: the index after `index`, wrapped by the mask. */
    function Next(index: u16): (r: u16)
      reads this`size
      requires IsPow2(size)
      ensures r < size && r == (index + 1) % size
      ensures index < size ==> r == Wrap(index + 1, size)
    {
      MaskIsMod(index + 1, size);
      ModNear(index + 1, size);
      BitAnd(index + 1, Mask())
    }

    /** `ringbuf_empty`. */
    function Empty(): (e: bool)
      reads this`buf, this`size, this`head, this`tail, this`Contents, buf
      requires Valid()
      ensures e <==> Contents == []
    {
      head == tail
    }

    /** `ringbuf_full`. */
    function Full(): (f: bool)
      reads this`buf, this`size, this`head, this`tail, this`Contents, buf
      requires Valid()
      ensures f <==> |Contents| == size - 1
    {
      Next(head) == tail
    }

    /** `ringbuf_count`: `(head - tail) & mask`, computed on a C `int`. */
    function Count(): (c: u16)
      reads this`buf, this`size, this`head, this`tail, this`Contents, buf
      requires Valid()
      ensures c == |Contents| && c <= size - 1
      ensures c == (head - tail) % size
    {
      Int32MaskIsMod(head - tail, size);
      ModNear(head - tail, size);
      BitAnd(Int32Bits(head - tail), Mask())
    }

    /** `ringbuf_free`. */
    function Free(): (f: u16)
      reads this`buf, this`size, this`head, this`tail, this`Contents, buf
      requires Valid()
      ensures f == size - 1 - |Contents|
      ensures f == 0 <==> Full()
    {
      size - 1 - Count()
    }

    /** The status queries agree: empty is count 0, full is count `size - 1`, and count plus free is `size - 1`. */
    lemma StatusAgree()
      requires Valid()
      ensures Empty() <==> Count() == 0
      ensures Full() <==> Count() == size - 1
      ensures Count() + Free() == size - 1
    {
    }

    /** `ringbuf_flush`: drop every unread byte. */
    method Flush()
      requires Valid()
      modifies this`tail, this`Contents
      ensures Valid()
      ensures tail == old(head) && head == old(head) && Contents == []
      ensures Empty() && Free() == size - 1
    {
      tail := head;
      Contents := [];
    }

    /** `ringbuf_put`: store `b` unless full; never calls the callback. */
    method Put(b: byte)
      requires Valid()
      modifies this`head, this`Contents, buf
      ensures Valid()
      ensures old(Full()) ==> head == old(head) && Contents == old(Contents) && buf[..] == old(buf[..])
      ensures !old(Full()) ==> && head == old(Next(head)) == Wrap(old(head) + 1, size)
                               && Contents == old(Contents) + [b]
                               && buf[..] == old(buf[..])[old(head) := b]
      ensures tail == old(tail) && notifications == old(notifications)
    {
      var next := Next(head);
      if next == tail {
        return;
      }
      buf[head] := b;
      head := next;
      Contents := Contents + [b];
    }

    /**
     * `ringbuf_get`: `*out` is an in-out cell whose value before the call is
     * `prior`; it is returned as `out`, written only when a byte is taken.
     */
    method Get(prior: byte) returns (r: int, out: byte)
      requires Valid()
      modifies this`tail, this`Contents
      ensures Valid()
      ensures r == (if old(Contents) == [] then 0 else 1)
      ensures r == 0 ==> out == prior && Contents == old(Contents) && tail == old(tail)
      ensures r == 1 ==> && out == old(Contents)[0]
                         && Contents == old(Contents)[1..]
                         && tail == old(Next(tail)) == Wrap(old(tail) + 1, size)
      ensures head == old(head) && notifications == old(notifications)
    {
      if Empty() {
        return 0, prior;
      }
      out := buf[tail];
      tail := Next(tail);
      Contents := Contents[1..];
      r := 1;
    }
  }
}
