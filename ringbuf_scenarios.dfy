/**
 * The regression scenarios of `src/t/ringbuf_test.c`, each as a method whose
 * postcondition is what the test asserts.
 *
 * The program runs all its tests on one 8-slot buffer in turn. Each method
 * here starts from a fresh buffer moved, by `EmptyAt`, to the empty state at
 * the index where the program's earlier tests leave it: index 1 after tests
 * 1 and 2, index 6 in test 4, index 2 after test 4, index 1 after test 6 and
 * index 5 after the flush in test 7. So the fills of tests 5 and 7 wrap past
 * the end of the storage as they do in the program.
 */
module RingbufScenarios {
  import opened Bits
  import opened Ringbuf
  import opened RingbufBulk

  /** The buffer size the tests use. */
  const RbSize: u16 := 8

  lemma EightIsPow2()
    ensures IsPow2(RbSize as int)
  {
    assert IsPow2(2) && IsPow2(4);
  }

  method NewBuffer() returns (rb: RingBuffer)
    ensures fresh(rb) && fresh(rb.buf) && rb.Valid() && rb.size == RbSize && rb.buf.Length == RbSize as int
    ensures rb.Contents == [] && !rb.notifyRegistered && rb.notifications == 0
  {
    EightIsPow2();
    var storage := new byte[RbSize];
    rb := new RingBuffer.Init(storage, RbSize);
  }

  /** A fresh array holding `s`, like the test's initialised local arrays. */
  method ArrayOf(s: seq<byte>) returns (a: array<byte>)
    ensures fresh(a) && a[..] == s
  {
    a := new byte[|s|](i requires 0 <= i < |s| => s[i]);
  }

  /** Tests 1 and 2: a fresh buffer is empty with 7 free slots; one byte goes in and comes back out. */
  method InitPutGet() returns (empty0: bool, full0: bool, count0: int, free0: int, count1: int, r: int, b: byte, empty1: bool)
    ensures empty0 && !full0 && count0 == 0 && free0 == RbSize as int - 1
    ensures count1 == 1 && r == 1 && b == 0x11 && empty1
  {
    var rb := NewBuffer();
    empty0, full0, count0, free0 := rb.Empty(), rb.Full(), rb.Count(), rb.Free();
    rb.Put(0x11);
    count1 := rb.Count();
    r, b := rb.Get(0);
    empty1 := rb.Empty();
  }

  /** Test 3, from index 1 where tests 1 and 2 leave the buffer: four bytes written are read back in order. */
  method BulkWriteRead() returns (n: int, count: int, m: int, out: seq<byte>, empty: bool)
    ensures n == 4 && count == 4 && m == 4 && out == [1, 2, 3, 4] && empty
  {
    var rb := NewBuffer();
    EmptyAt(rb, 1);
    var src := ArrayOf([1, 2, 3, 4]);
    var dst := new byte[4];
    n := Write(rb, src, 4);
    assert rb.Contents == [1, 2, 3, 4];
    count := rb.Count();
    m := Read(rb, dst, 4);
    assert dst[..4] == [1, 2, 3, 4];
    out := dst[..];
    assert out == dst[..4];
    empty := rb.Empty();
  }

  /**
   * Flush, then assign both indices: the buffer is empty at `index`. This is
   * test 4's flush and direct assignment, and the empty state at `index`
   * that the program's earlier tests leave behind.
   */
  method EmptyAt(rb: RingBuffer, index: u16)
    requires rb.Valid() && index < rb.size
    modifies rb`head, rb`tail, rb`Contents
    ensures rb.Valid() && rb.Contents == [] && rb.head == index && rb.tail == index
  {
    rb.Flush();
    rb.head := index;
    rb.tail := index;
  }

  /** Test 4: with `head` and `tail` moved to 6, a four-byte write wraps `head` to 2 and reads back unchanged. */
  method WrapAround() returns (n: int, head: int, m: int, out: seq<byte>)
    ensures n == 4 && head == 2 && m == 4 && out == [9, 8, 7, 6]
  {
    var rb := NewBuffer();
    EmptyAt(rb, RbSize - 2);
    var src := ArrayOf([9, 8, 7, 6]);
    var dst := new byte[4];
    n := Write(rb, src, 4);
    assert rb.Contents == [9, 8, 7, 6];
    head := rb.head;
    m := Read(rb, dst, 4);
    assert dst[..4] == [9, 8, 7, 6];
    out := dst[..];
    assert out == dst[..4];
  }

  /**
   * Tests 5 and 6, after the flush at index 2 where test 4 leaves the buffer:
   * eight bytes offered, seven accepted, wrapping `head` to 1, and the buffer
   * full; a further write takes none; all seven come back.
   */
  method FillAndDrain() returns (n1: int, head1: int, full1: bool, n2: int, full2: bool, n3: int, recovered: seq<byte>, empty: bool)
    ensures n1 == RbSize as int - 1 && head1 == 1 && full1 && n2 == 0 && full2
    ensures n3 == RbSize as int - 1 && recovered == [0, 1, 2, 3, 4, 5, 6] && empty
  {
    var rb := NewBuffer();
    EmptyAt(rb, 2);
    var fill := ArrayOf([0, 1, 2, 3, 4, 5, 6, 7]);
    n1 := Write(rb, fill, RbSize as int);
    assert rb.Contents == [0, 1, 2, 3, 4, 5, 6];
    head1 := rb.head;
    full1 := rb.Full();
    n2 := Write(rb, fill, 1);
    assert rb.Contents == [0, 1, 2, 3, 4, 5, 6];
    full2 := rb.Full();
    var recover := new byte[RbSize];
    n3 := Read(rb, recover, RbSize as int);
    assert n3 == 7;
    recovered := recover[..n3];
    assert recovered == [0, 1, 2, 3, 4, 5, 6];
    empty := rb.Empty();
  }

  /** Test 7, from index 1 where test 6 leaves the buffer: with the callback registered it fires once for each write that stores bytes. */
  method NotifyOnWrite() returns (n1: int, ghost calls1: nat, n2: int, ghost calls2: nat)
    ensures n1 == 2 && calls1 == 1 && n2 == 2 && calls2 == 2
  {
    var rb := NewBuffer();
    EmptyAt(rb, 1);
    var cbtest := ArrayOf([0xAA, 0xBB]);
    SetWriteNotifyFn(rb, true);
    n1 := Write(rb, cbtest, 2);
    calls1 := rb.notifications;
    n2 := Write(rb, cbtest, 2);
    calls2 := rb.notifications;
  }

  /**
   * Tests 7 and 8, after the flush at index 5 in test 7: filling with seven
   * bytes wraps `head` to 4; a write that stores nothing into the full buffer
   * still fires the callback once, and a read never fires it.
   */
  method NotifyWhenFull() returns (k: int, head: int, n: int, ghost writeCalls: nat, m: int, ghost readCalls: nat)
    ensures k == RbSize as int - 1 && head == 4 && n == 0 && writeCalls == 1
    ensures m == RbSize as int - 1 && readCalls == 0
  {
    var rb := NewBuffer();
    EmptyAt(rb, 5);
    var fill := ArrayOf([0, 1, 2, 3, 4, 5, 6, 7]);
    var cbtest := ArrayOf([0xAA, 0xBB]);
    SetWriteNotifyFn(rb, true);
    k := Write(rb, fill, RbSize as int - 1);
    assert k == 7 && |rb.Contents| == 7 && rb.Full();
    head := rb.head;
    ghost var before := rb.notifications;
    n := Write(rb, cbtest, 2);
    assert n == 0 && |rb.Contents| == 7;
    writeCalls := rb.notifications - before;
    var recover := new byte[RbSize];
    before := rb.notifications;
    m := Read(rb, recover, RbSize as int);
    readCalls := rb.notifications - before;
  }

  /** Test 9: reading from or writing to a missing buffer does nothing and returns 0. */
  method NullBuffer() returns (r: int, w: int)
    ensures r == 0 && w == 0
  {
    var recover := new byte[RbSize];
    var cbtest := ArrayOf([0xAA, 0xBB]);
    r := Read(null, recover, 5);
    w := Write(null, cbtest, 2);
  }
}
