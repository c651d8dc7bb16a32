/**
 * The bulk operations of `src/ringbuf.c`: `ringbuf_read`, `ringbuf_write`
 * and `ringbuf_set_write_notify_fn`.
 *
 * `Read` and `Write` take a nullable `RingBuffer?`: a buffer that is not yet
 * wired is a no-op returning 0. Their effect on the live contents is stated
 * through `Accepted` and `Taken`, and `FifoTrace` proves from those two that
 * any interleaving of writes and reads hands the bytes back in the order in
 * which they were accepted.
 */
module RingbufBulk {
  import opened Bits
  import opened Ringbuf

  function Min(a: int, b: int): int
  {
    if a < b then a else b
  }

  /** A C `int` length, negative values counting as zero iterations. */
  function Iterations(len: int): nat
  {
    if len < 0 then 0 else len
  }

  /** The prefix of `data` that a write accepts into live contents `c` with room for `cap` bytes. */
  ghost function Accepted(c: seq<byte>, cap: int, data: seq<byte>, len: int): (a: seq<byte>)
    requires |c| <= cap && Min(Iterations(len), cap - |c|) <= |data|
    ensures |a| == Min(Iterations(len), cap - |c|)
    ensures a == data[..|a|]
    ensures |c + a| <= cap
    ensures |c + a| == cap <==> Iterations(len) >= cap - |c|
  {
    data[..Min(Iterations(len), cap - |c|)]
  }

  /** The oldest bytes that a read of at most `len` bytes takes from live contents `c`. */
  ghost function Taken(c: seq<byte>, len: int): (t: seq<byte>)
    ensures |t| == Min(Iterations(len), |c|)
    ensures t + c[|t|..] == c
  {
    c[..Min(Iterations(len), |c|)]
  }

  /** The copy loop of `ringbuf_read`: take bytes into `dst` while any are held and fewer than `len` were taken. */
  method CopyOut(rb: RingBuffer, dst: array<byte>, len: int) returns (n: int)
    requires rb.Valid() && dst != rb.buf && Min(Iterations(len), |rb.Contents|) <= dst.Length
    modifies rb`tail, rb`Contents, dst
    ensures rb.Valid()
    ensures n == Min(Iterations(len), |old(rb.Contents)|)
    ensures dst[..n] == old(rb.Contents)[..n] && dst[n..] == old(dst[n..])
    ensures rb.Contents == old(rb.Contents)[n..]
    ensures rb.tail == Wrap(old(rb.tail) + n, rb.size)
  {
    ghost var c0, d0, t0 := rb.Contents, dst[..], rb.tail;
    n := 0;
    while n < len && !rb.Empty()
      invariant rb.Valid()
      invariant 0 <= n <= |c0| && (n <= len || n == 0)
      invariant rb.Contents == c0[n..]
      invariant forall k :: 0 <= k < dst.Length ==> dst[k] == if k < n then c0[k] else d0[k]
      invariant rb.tail == Wrap(t0 + n, rb.size)
    {
      var _, b := rb.Get(dst[n]);
      dst[n] := b;
      n := n + 1;
    }
    assert dst[..n] == c0[..n];
  }

  /** `ringbuf_read`: move up to `len` of the oldest bytes into `dst[0..n)`; never calls the callback. */
  method Read(rb: RingBuffer?, dst: array<byte>, len: int) returns (n: int)
    requires rb != null ==> && rb.Valid() && dst != rb.buf
                            && Min(Iterations(len), |rb.Contents|) <= dst.Length
    modifies rb, dst
    ensures rb == null ==> n == 0 && dst[..] == old(dst[..])
    ensures rb != null ==> && rb.Valid()
                           && n == |Taken(old(rb.Contents), len)|
                           && dst[..n] == Taken(old(rb.Contents), len)
                           && dst[n..] == old(dst[n..])
                           && rb.Contents == old(rb.Contents)[n..]
                           && rb.tail == (old(rb.tail) + n) % rb.size
    ensures rb != null ==> unchanged(rb`buf, rb`size, rb`head, rb`notifyRegistered, rb`notifications)
  {
    if rb == null {
      return 0;
    }
    n := CopyOut(rb, dst, len);
    ModNear(old(rb.tail) + n, rb.size);
  }

  /** The copy loop of `ringbuf_write`: store bytes of `src` while not full and fewer than `len` were stored. */
  method CopyIn(rb: RingBuffer, src: array<byte>, len: int) returns (n: int)
    requires rb.Valid() && src != rb.buf && Min(Iterations(len), rb.size - 1 - |rb.Contents|) <= src.Length
    modifies rb`head, rb`Contents, rb.buf
    ensures rb.Valid()
    ensures n == Min(Iterations(len), rb.size - 1 - |old(rb.Contents)|)
    ensures rb.Contents == old(rb.Contents) + src[..n]
    ensures rb.head == Wrap(old(rb.head) + n, rb.size)
    ensures rb.buf[rb.size..] == old(rb.buf[rb.size..])
    ensures forall j :: 0 <= j < rb.size && Distance(old(rb.head), j, rb.size) >= n ==> rb.buf[j] == old(rb.buf[j])
  {
    ghost var c0, b0, h0 := rb.Contents, rb.buf[..], rb.head;
    n := 0;
    while n < len && !rb.Full()
      invariant rb.Valid()
      invariant 0 <= n <= Min(Iterations(len), rb.size - 1 - |c0|)
      invariant rb.Contents == c0 + src[..n]
      invariant rb.head == Wrap(h0 + n, rb.size)
      invariant rb.buf[rb.size..] == b0[rb.size..]
      invariant forall j :: 0 <= j < rb.size && Distance(h0, j, rb.size) >= n ==> rb.buf[j] == b0[j]
    {
      ghost var h := rb.head;
      rb.Put(src[n]);
      assert rb.head == Wrap(h + 1, rb.size);
      n := n + 1;
    }
  }

  /**
   * `ringbuf_write`: copy bytes from `src` while the buffer is not full, then
   * call the write-notify callback once if it is registered and either a byte
   * was stored or the buffer is full.
   */
  method Write(rb: RingBuffer?, src: array<byte>, len: int) returns (n: int)
    requires rb != null ==> && rb.Valid() && src != rb.buf
                            && Min(Iterations(len), rb.size - 1 - |rb.Contents|) <= src.Length
    modifies rb, if rb == null then {} else {rb.buf}
    ensures rb == null ==> n == 0
    ensures rb != null ==> && rb.Valid()
                           && n == Min(Iterations(len), old(rb.Free()))
                           && rb.Contents == old(rb.Contents) + Accepted(old(rb.Contents), old(rb.size) - 1, src[..], len)
                           && rb.head == (old(rb.head) + n) % rb.size
                           && rb.tail == old(rb.tail)
                           && (rb.Full() <==> Iterations(len) >= old(rb.Free()))
    ensures rb != null ==> unchanged(rb`buf, rb`size, rb`notifyRegistered)
    ensures rb != null ==> rb.buf[rb.size..] == old(rb.buf[rb.size..])
    ensures rb != null ==> forall j :: 0 <= j < rb.size && Distance(old(rb.head), j, rb.size) >= n ==> rb.buf[j] == old(rb.buf[j])
    ensures rb != null ==>
      rb.notifications == old(rb.notifications) + (if rb.notifyRegistered && (n > 0 || rb.Full()) then 1 else 0)
    ensures rb != null ==>
      rb.notifications == old(rb.notifications) + (if rb.notifyRegistered && (len > 0 || old(rb.Full())) then 1 else 0)
  {
    if rb == null {
      return 0;
    }
    n := CopyIn(rb, src, len);
    ModNear(old(rb.head) + n, rb.size);
    if rb.notifyRegistered && (n > 0 || rb.Full()) {
      rb.notifications := rb.notifications + 1;
    }
  }

  /** `ringbuf_set_write_notify_fn`: register (`registered`) or clear the callback; nothing else changes. */
  method SetWriteNotifyFn(rb: RingBuffer, registered: bool)
    modifies rb`notifyRegistered
    ensures rb.notifyRegistered == registered
    ensures unchanged(rb`buf, rb`size, rb`head, rb`tail, rb`Contents, rb`notifications)
    ensures old(rb.Valid()) ==> rb.Valid()
  {
    rb.notifyRegistered := registered;
  }

  /** One call on a ring buffer's live contents. */
  datatype Op = WriteOp(data: seq<byte>, len: int) | ReadOp(len: int)

  /** A call that is well formed on contents `c`: a write never reads beyond `data`. */
  ghost predicate Fits(c: seq<byte>, cap: int, op: Op)
  {
    op.WriteOp? ==> Min(Iterations(op.len), cap - |c|) <= |op.data|
  }

  /** What a trace of calls does to live contents `c`. */
  datatype Outcome = Outcome(contents: seq<byte>, accepted: seq<byte>, delivered: seq<byte>)

  /**
   * Runs `ops` from contents `c`: the final contents, every byte any write
   * accepted and every byte any read delivered, each in order.
   */
  ghost function Run(c: seq<byte>, cap: int, ops: seq<Op>): Outcome
    requires |c| <= cap
    decreases |ops|
  {
    if ops == [] || !Fits(c, cap, ops[0]) then Outcome(c, [], [])
    else match ops[0]
      case WriteOp(data, len) =>
        var a := Accepted(c, cap, data, len);
        var rest := Run(c + a, cap, ops[1..]);
        Outcome(rest.contents, a + rest.accepted, rest.delivered)
      case ReadOp(len) =>
        var t := Taken(c, len);
        var rest := Run(c[|t|..], cap, ops[1..]);
        Outcome(rest.contents, rest.accepted, t + rest.delivered)
  }

  /**
   * FIFO order: whatever the interleaving, the bytes delivered followed by the
   * bytes still held are the bytes held at the start followed by every byte
   * accepted.
   */
  lemma {:induction false} FifoTrace(c: seq<byte>, cap: int, ops: seq<Op>)
    requires |c| <= cap
    ensures Run(c, cap, ops).delivered + Run(c, cap, ops).contents == c + Run(c, cap, ops).accepted
    decreases |ops|
  {
    if ops == [] || !Fits(c, cap, ops[0]) {
    } else {
      match ops[0]
      case WriteOp(data, len) =>
        var a := Accepted(c, cap, data, len);
        FifoTrace(c + a, cap, ops[1..]);
        var rest := Run(c + a, cap, ops[1..]);
        assert rest.delivered + rest.contents == c + (a + rest.accepted);
      case ReadOp(len) =>
        var t := Taken(c, len);
        FifoTrace(c[|t|..], cap, ops[1..]);
        var rest := Run(c[|t|..], cap, ops[1..]);
        calc {
          (t + rest.delivered) + rest.contents;
          t + (rest.delivered + rest.contents);
          t + (c[|t|..] + rest.accepted);
          (t + c[|t|..]) + rest.accepted;
        }
    }
  }

  /** Whatever the interleaving, the buffer never holds more than `cap` bytes. */
  lemma {:induction false} RunWithinCapacity(c: seq<byte>, cap: int, ops: seq<Op>)
    requires |c| <= cap
    ensures |Run(c, cap, ops).contents| <= cap
    decreases |ops|
  {
    if ops != [] && Fits(c, cap, ops[0]) {
      match ops[0]
      case WriteOp(data, len) =>
        RunWithinCapacity(c + Accepted(c, cap, data, len), cap, ops[1..]);
      case ReadOp(len) =>
        RunWithinCapacity(c[|Taken(c, len)|..], cap, ops[1..]);
    }
  }

  /** Written into empty contents, any sequence that fits comes back whole from one read. */
  lemma RoundTrip(cap: int, s: seq<byte>)
    requires |s| <= cap
    ensures Run([], cap, [WriteOp(s, |s|), ReadOp(|s|)]).delivered == s
    ensures Run([], cap, [WriteOp(s, |s|), ReadOp(|s|)]).contents == []
  {
    var ops := [WriteOp(s, |s|), ReadOp(|s|)];
    assert Accepted([], cap, s, |s|) == s;
    assert ops[1..] == [ReadOp(|s|)];
    assert ops[1..][1..] == [];
    assert Taken(s, |s|) == s;
    assert Run(s[|s|..], cap, []) == Outcome([], [], []);
    assert Run(s, cap, ops[1..]) == Outcome([], [], s);
  }
}
