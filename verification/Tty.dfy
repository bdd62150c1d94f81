/** The terminal input queue: bytes pushed at the end, read from the front by shifting the buffer
    down with the kernel's forward memcpy. */
module Tty {

  import opened Memory

  const BUFFER_SIZE := 4192

  // ---- memcpy -------------------------------------------------------------------------------------

  /** Copying byte by byte from low to high addresses. */
  function ForwardCopy(m: seq<byte>, d: nat, s: nat, n: nat): (r: seq<byte>)
    requires d + n <= |m| && s + n <= |m|
    ensures |r| == |m|
  {
    if n == 0 then m
    else var c := ForwardCopy(m, d, s, n - 1); c[d + n - 1 := c[s + n - 1]]
  }

  /** memcpy: an odd byte first, then pairs. */
  method Memcpy(m: array<byte>, d: nat, s: nat, n: nat)
    requires d + n <= m.Length && s + n <= m.Length
    modifies m
    ensures m[..] == ForwardCopy(old(m[..]), d, s, n)
  {
    var i := 0;
    if n % 2 == 1 {
      m[d] := m[s];
      i := 1;
    }
    var count: nat := n / 2;
    while count != 0
      invariant i + 2 * count == n
      invariant m[..] == ForwardCopy(old(m[..]), d, s, i)
      decreases count
    {
      count := count - 1;
      m[d + i] := m[s + i];
      assert m[..] == ForwardCopy(old(m[..]), d, s, i + 1);
      m[d + i + 1] := m[s + i + 1];
      assert m[..] == ForwardCopy(old(m[..]), d, s, i + 2);
      i := i + 2;
    }
  }

  /** The bytes at d are those that were at s; everything else is as it was. */
  predicate Moved(m: seq<byte>, r: seq<byte>, d: nat, s: nat, n: nat)
    requires d + n <= |m| && s + n <= |m|
  {
    r == m[..d] + m[s..s + n] + m[d + n..]
  }

  lemma {:induction false} ForwardMoves(m: seq<byte>, d: nat, s: nat, n: nat)
    requires d + n <= |m| && s + n <= |m| && (d <= s || s + n <= d)
    ensures Moved(m, ForwardCopy(m, d, s, n), d, s, n)
  {
    if n > 0 {
      ForwardMoves(m, d, s, n - 1);
      hide ForwardCopy;
      MoveOneMore(m, d, s, n);
      assert ForwardCopy(m, d, s, n) == ForwardCopy(m, d, s, n - 1)[d + n - 1 := m[s + n - 1]] by { CopyNext(m, d, s, n); }
    }
  }

  lemma CopyNext(m: seq<byte>, d: nat, s: nat, n: nat)
    requires d + n <= |m| && s + n <= |m| && n > 0 && ForwardCopy(m, d, s, n - 1)[s + n - 1] == m[s + n - 1]
    ensures ForwardCopy(m, d, s, n) == ForwardCopy(m, d, s, n - 1)[d + n - 1 := m[s + n - 1]]
  {
  }

  /** A move of one byte less, and the last byte, which the others have not overwritten. */
  lemma MoveOneMore(m: seq<byte>, d: nat, s: nat, n: nat)
    requires d + n <= |m| && s + n <= |m| && n > 0 && (d <= s || s + n <= d)
    ensures var c := m[..d] + m[s..s + n - 1] + m[d + n - 1..];
            c[s + n - 1] == m[s + n - 1] && Moved(m, c[d + n - 1 := m[s + n - 1]], d, s, n)
  {
    var c := m[..d] + m[s..s + n - 1] + m[d + n - 1..];
    assert m[s..s + n] == m[s..s + n - 1] + [m[s + n - 1]];
    assert m[d + n - 1..] == [m[d + n - 1]] + m[d + n..];
  }

  lemma {:induction false} Echo(m: seq<byte>, d: nat, s: nat, n: nat)
    requires s < d < s + n && d + n <= |m|
    ensures ForwardCopy(m, d, s, n)[d] == m[s]
    ensures d - s < n && ForwardCopy(m, d, s, n)[d + (d - s)] == m[s]
    decreases n
  {
    EchoFirst(m, d, s, n - 1);
    if d < s + (n - 1) { Echo(m, d, s, n - 1); }
  }

  lemma {:induction false} EchoFirst(m: seq<byte>, d: nat, s: nat, n: nat)
    requires s < d && d + n <= |m| && n > 0
    ensures ForwardCopy(m, d, s, n)[d] == m[s]
    decreases n
  {
    if n > 1 { EchoFirst(m, d, s, n - 1); }
  }

  /** The forward copy is a correct move of every content exactly when the destination does not
      start inside the source behind its first byte. */
  lemma MoveIff(d: nat, s: nat, n: nat, size: nat)
    requires d + n <= size && s + n <= size
    ensures (forall m: seq<byte> :: |m| == size ==> Moved(m, ForwardCopy(m, d, s, n), d, s, n))
            <==> d <= s || s + n <= d
  {
    hide ForwardCopy; hide Moved;
    if d <= s || s + n <= d {
      forall m: seq<byte> | |m| == size ensures Moved(m, ForwardCopy(m, d, s, n), d, s, n) {
        ForwardMoves(m, d, s, n);
      }
    } else {
      var m := Overlapping(d, s, n, size);
    }
  }

  lemma Overlapping(d: nat, s: nat, n: nat, size: nat) returns (m: seq<byte>)
    requires d + n <= size && s + n <= size && s < d < s + n
    ensures |m| == size && !Moved(m, ForwardCopy(m, d, s, n), d, s, n)
  {
    hide ForwardCopy;
    m := seq(size, i => if i == s then 1 else 0);
    Echo(m, d, s, n);
    assert (m[..d] + m[s..s + n] + m[d + n..])[d + (d - s)] == m[d];
  }

  // ---- The input queue -------------------------------------------------------------------------------

  /** Moving the buffer down by the bytes read leaves the rest of the queue at its front. */
  lemma ShiftedDown(m: seq<byte>, r: seq<byte>, len: nat, copied: nat)
    requires |m| == BUFFER_SIZE && copied <= len <= BUFFER_SIZE && Moved(m, r, 0, copied, BUFFER_SIZE - copied)
    ensures |r| == BUFFER_SIZE && r[..len - copied] == m[..len][copied..]
    ensures forall i :: 0 <= i < len - copied ==> r[i] == m[i + copied]
    ensures forall i :: BUFFER_SIZE - copied <= i < BUFFER_SIZE ==> r[i] == m[i]
  {
    assert r == m[copied..] + m[BUFFER_SIZE - copied..];
  }

  class Terminal {
    const inbuf: array<byte>
    var inbuflen: nat

    /** The bytes waiting to be read; none is zero. */
    ghost predicate Valid()
      reads this, inbuf
    {
      inbuf.Length == BUFFER_SIZE && inbuflen <= BUFFER_SIZE && forall i :: 0 <= i < inbuflen ==> inbuf[i] != 0
    }

    ghost function Queue(): seq<byte>
      requires Valid()
      reads this, inbuf
    {
      inbuf[..inbuflen]
    }

    constructor ()
      ensures Valid() && Queue() == [] && fresh(inbuf)
    {
      inbuf := new byte[BUFFER_SIZE](_ => 0);
      inbuflen := 0;
    }

    /** tty_push_byte; the source does not check for room. */
    method PushByte(c: byte)
      requires Valid() && c != 0 && inbuflen < BUFFER_SIZE
      modifies this, inbuf
      ensures Valid() && Queue() == old(Queue()) + [c]
    {
      inbuf[inbuflen] := c;
      inbuflen := inbuflen + 1;
    }

    /** The copy loop ends before it looks behind the buffer: the request is no longer than the buffer,
        or a zero, or the length of the queue, stops the loop first. */
    predicate StopsInside(len: nat)
      requires inbuf.Length == BUFFER_SIZE
      reads this, inbuf
    {
      len <= BUFFER_SIZE || inbuflen == 0 || (inbuflen < BUFFER_SIZE && (inbuf[inbuflen] == 0 || inbuflen + 1 < BUFFER_SIZE))
    }

    /** The request stays inside the queue, or the byte behind the queue is zero. */
    predicate Exact(len: nat)
      requires inbuf.Length == BUFFER_SIZE && StopsInside(len)
      reads this, inbuf
    {
      len <= inbuflen || inbuflen == 0 || inbuf[inbuflen] == 0
    }

    /** The copy loop of tty_generic_read. */
    method CopyOut(buf: array<byte>, len: nat) returns (copied: nat)
      requires Valid() && 0 < inbuflen && 0 < len <= buf.Length && StopsInside(len) && buf != inbuf
      modifies buf
      ensures copied == if len <= inbuflen then len else if Exact(len) then inbuflen else inbuflen + 1
      ensures copied <= len && copied <= BUFFER_SIZE && buf[..copied] == inbuf[..copied] && buf[copied..] == old(buf[copied..])
    {
      copied := 0;
      var i := 0;
      while i < len
        invariant 0 <= i <= len && copied == i
        invariant i <= inbuflen || (i == inbuflen + 1 && !Exact(len) && i <= BUFFER_SIZE)
        invariant forall j :: 0 <= j < i ==> buf[j] == inbuf[j]
        invariant forall j :: i <= j < buf.Length ==> buf[j] == old(buf[j])
      {
        if inbuf[i] != 0 && i <= inbuflen {
          buf[i] := inbuf[i];
          copied := copied + 1;
        } else {
          break;
        }
        i := i + 1;
      }
    }

    /** tty_generic_read. It takes the front of the queue exactly when the request is exact;
        otherwise it takes one byte too many and the length wraps. */
    method GenericRead(buf: array<byte>, len: nat) returns (copied: nat)
      requires Valid() && len <= buf.Length && StopsInside(len) && buf != inbuf
      modifies this, inbuf, buf
      ensures old(Exact(len)) ==>
                && Valid() && copied == (if len < |old(Queue())| then len else |old(Queue())|)
                && buf[..copied] == old(Queue())[..copied] && Queue() == old(Queue())[copied..]
                && forall i :: BUFFER_SIZE - copied <= i < BUFFER_SIZE ==> inbuf[i] == old(inbuf[i])
      ensures !old(Exact(len)) ==> copied == |old(Queue())| + 1 && inbuflen == 0xFFFF_FFFF
    {
      hide Moved;
      copied := 0;
      if inbuflen == 0 || len == 0 {
        return;
      }
      copied := CopyOut(buf, len);
      if copied == 0 {
        return;
      }
      ghost var was, len0 := inbuf[..], inbuflen;
      Consume(copied);
      if copied <= len0 {
        ShiftedDown(was, inbuf[..], len0, copied);
        assert Queue() == inbuf[..][..inbuflen];
        assert old(Queue()) == was[..len0];
      }
    }

    /** The end of tty_generic_read: shorten the queue by the bytes read and move the rest down. */
    method Consume(copied: nat)
      requires inbuf.Length == BUFFER_SIZE && copied <= BUFFER_SIZE && inbuflen <= BUFFER_SIZE && copied <= inbuflen + 1
      modifies this, inbuf
      ensures inbuflen == if copied <= old(inbuflen) then old(inbuflen) - copied else 0xFFFF_FFFF
      ensures Moved(old(inbuf[..]), inbuf[..], 0, copied, BUFFER_SIZE - copied)
    {
      hide ForwardCopy; hide Moved;
      inbuflen := (inbuflen - copied) % 0x1_0000_0000;
      Memcpy(inbuf, 0, copied, BUFFER_SIZE - copied);
      ForwardMoves(old(inbuf[..]), 0, copied, BUFFER_SIZE - copied);
    }
  }

  /** Such a request can be reached: fill the buffer, read one byte, and the last byte stays behind the
      queue; a read of the whole buffer then takes one byte more than is waiting. */
  method OneTooMany(c: byte) returns (t: Terminal, copied: nat, ghost waiting: nat)
    requires c != 0
    ensures fresh(t) && waiting == BUFFER_SIZE - 1 && copied == waiting + 1 && t.inbuflen == 0xFFFF_FFFF
  {
    t := new Terminal();
    var buf := new byte[BUFFER_SIZE](_ => 0);
    var i := 0;
    while i < BUFFER_SIZE
      invariant 0 <= i <= BUFFER_SIZE && t.Valid() && fresh(t) && fresh(t.inbuf) && buf != t.inbuf && t.inbuflen == i
    {
      t.PushByte(c);
      assert |t.Queue()| == i + 1;
      i := i + 1;
    }
    copied := t.GenericRead(buf, 1);
    waiting := |t.Queue()|;
    assert t.inbuf[BUFFER_SIZE - 1] != 0;
    copied := t.GenericRead(buf, BUFFER_SIZE);
  }

  // ---- Any run of pushes and one-byte reads ------------------------------------------------------------

  datatype Op = Push(c: byte) | Read

  /** The queue an ideal FIFO holds after the operations, and what it gave out. */
  function Fifo(q: seq<byte>, ops: seq<Op>): (seq<byte>, seq<byte>)
    decreases |ops|
  {
    if ops == [] then (q, [])
    else
      var (r, out) := Fifo(q, ops[..|ops| - 1]);
      match ops[|ops| - 1]
      case Push(c) => (r + [c], out)
      case Read => if r == [] then (r, out) else (r[1..], out + [r[0]])
  }

  function Pushed(ops: seq<Op>): seq<byte> {
    if ops == [] then []
    else Pushed(ops[..|ops| - 1]) + match ops[|ops| - 1] { case Push(c) => [c] case Read => [] }
  }

  /** Pushes are of non-zero bytes and never overfill the buffer. */
  predicate Fitting(q: seq<byte>, ops: seq<Op>) {
    forall k :: 0 <= k < |ops| ==> ops[k].Push? ==> ops[k].c != 0 && |Fifo(q, ops[..k]).0| < BUFFER_SIZE
  }

  /** Nothing is lost, invented or reordered: what has come out, followed by what is waiting, is
      what was waiting before, followed by what was pushed. */
  lemma {:induction false} FifoOrder(q: seq<byte>, ops: seq<Op>)
    ensures var (r, out) := Fifo(q, ops); out + r == q + Pushed(ops)
    decreases |ops|
  {
    if ops != [] {
      FifoOrder(q, ops[..|ops| - 1]);
      var (r, out) := Fifo(q, ops[..|ops| - 1]);
      match ops[|ops| - 1]
      case Push(c) =>
        assert out + (r + [c]) == (out + r) + [c];
      case Read =>
        assert Pushed(ops) == Pushed(ops[..|ops| - 1]);
        if r != [] { assert (out + [r[0]]) + r[1..] == out + r; }
    }
  }

  /** A read answers with one byte, the oldest, whenever one is waiting, and with none otherwise. */
  lemma ReadAnswers(q: seq<byte>, ops: seq<Op>)
    ensures var before, after := Fifo(q, ops), Fifo(q, ops + [Read]);
            after.1 == before.1 + (if before.0 == [] then [] else [before.0[0]])
  {
    assert (ops + [Read])[..|ops|] == ops;
  }

  lemma FifoStart(q: seq<byte>)
    ensures Fifo(q, []) == (q, [])
  {
  }

  lemma FifoNext(q: seq<byte>, ops: seq<Op>, k: nat)
    requires k < |ops|
    ensures var (r, out) := Fifo(q, ops[..k]);
            Fifo(q, ops[..k + 1]) == match ops[k]
                                     case Push(c) => (r + [c], out)
                                     case Read => if r == [] then (r, out) else (r[1..], out + [r[0]])
  {
    assert ops[..k + 1][..k] == ops[..k];
  }

  /** Any run of non-zero pushes and one-byte reads on a terminal is a FIFO queue. */
  method Session(t: Terminal, ops: seq<Op>) returns (out: seq<byte>)
    requires t.Valid() && Fitting(t.Queue(), ops)
    modifies t, t.inbuf
    ensures t.Valid() && (t.Queue(), out) == Fifo(old(t.Queue()), ops)
  {
    hide Fifo;
    ghost var q := t.Queue();
    FifoStart(q);
    var buf := new byte[1](_ => 0);
    out := [];
    var k := 0;
    while k < |ops|
      invariant 0 <= k <= |ops| && t.Valid() && fresh(buf) && buf != t.inbuf && buf.Length == 1
      invariant (t.Queue(), out) == Fifo(q, ops[..k])
    {
      FifoNext(q, ops, k);
      match ops[k] {
        case Push(c) =>
          t.PushByte(c);
        case Read =>
          ghost var was := t.Queue();
          assert t.Exact(1);
          var n := t.GenericRead(buf, 1);
          if n == 1 {
            assert buf[..1][0] == was[..1][0];
            out := out + [buf[0]];
          }
      }
      k := k + 1;
    }
    assert ops[..|ops|] == ops;
  }
}
