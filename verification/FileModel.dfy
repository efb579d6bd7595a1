/** What a file is to a process that holds it open, and what the unbuffered operations on it do. This is
    the yardstick the buffered class of src/CFile.cpp is measured against. */
module FileModel {
  import opened Common

  /** The bytes behind a descriptor and the descriptor's own state. */
  datatype File = File(bytes: seq<byte>, pos: nat, readable: bool, writable: bool, append: bool)

  function Zeros(n: nat): seq<byte> {
    seq(n, _ => 0)
  }

  /** `data` laid over `bytes` at offset `at`; a gap past the end reads as zeros. */
  function Overlay(bytes: seq<byte>, at: nat, data: seq<byte>): seq<byte> {
    (if at <= |bytes| then bytes[..at] else bytes + Zeros(at - |bytes|))
    + data
    + (if at + |data| <= |bytes| then bytes[at + |data|..] else [])
  }

  function Written(f: File, data: seq<byte>): File {
    if data == [] then f
    else
      var at := if f.append then |f.bytes| else f.pos;
      f.(bytes := Overlay(f.bytes, at, data), pos := at + |data|)
  }

  /** However the kernel splits a write, the file ends up the same: the law the write buffer rests on. */
  lemma SplitWrite(f: File, a: seq<byte>, b: seq<byte>)
    ensures Written(Written(f, a), b) == Written(f, a + b)
  {
    if a == [] {
      assert a + b == b;
    } else if b == [] {
      assert a + b == a;
    } else {
      var at := if f.append then |f.bytes| else f.pos;
      assert Overlay(Overlay(f.bytes, at, a), at + |a|, b) == Overlay(f.bytes, at, a + b);
    }
  }

  /** Writing at the end of a file appends. */
  lemma WrittenAtEnd(f: File, data: seq<byte>)
    requires f.pos == |f.bytes|
    ensures Written(f, data) == f.(bytes := f.bytes + data, pos := |f.bytes + data|)
  {}

  datatype Op =
    | Write(data: seq<byte>)
    | Read(count: nat)
    | Seek(offset: nat)
    | Tell
    | Length
    | Available
    | SetLength(length: nat)
    | Flush

  datatype Out = Done(ok: bool) | Number(n: nat) | Bytes(data: seq<byte>) | EndOfFile | Refused

  function Resized(bytes: seq<byte>, n: nat): seq<byte> {
    if n <= |bytes| then bytes[..n] else bytes + Zeros(n - |bytes|)
  }

  /** What is left to read from the current position. */
  function Ahead(f: File): seq<byte> {
    if f.pos <= |f.bytes| then f.bytes[f.pos..] else []
  }

  /** One operation straight on the file. */
  function Direct(f: File, op: Op): (File, Out) {
    match op
    case Write(data) =>
      if data == [] then (f, Number(0))
      else if !f.writable then (f, Refused)
      else (Written(f, data), Number(|data|))
    case Read(count) =>
      var ahead := Ahead(f);
      if count == 0 then (f, Bytes([]))
      else if !f.readable then (f, Refused)
      else if count <= |ahead| then (f.(pos := f.pos + count), Bytes(ahead[..count]))
      else (f.(pos := f.pos + |ahead|), EndOfFile)
    case Seek(offset) => (f.(pos := offset), Number(offset))
    case Tell => (f, Number(f.pos))
    case Length => (f, Number(|f.bytes|))
    case Available => (f, Number(|Ahead(f)|))
    case SetLength(n) => if f.writable then (f.(bytes := Resized(f.bytes, n)), Done(true)) else (f, Done(false))
    case Flush => (f, Done(true))
  }

  // ----- What the operations mean, byte by byte -----

  /** The byte at an offset; a file reads as zeros past its end. */
  function ByteAt(bytes: seq<byte>, i: nat): byte {
    if i < |bytes| then bytes[i] else 0
  }

  /** Setting the length keeps every byte below it and adds zeros. */
  lemma ResizedIs(bytes: seq<byte>, n: nat)
    ensures |Resized(bytes, n)| == n
    ensures forall i | 0 <= i < n :: Resized(bytes, n)[i] == ByteAt(bytes, i)
  {}

  /** A write puts its data at the current position, or at the end when the descriptor appends, changes no other
      byte, makes the file just long enough and leaves the position behind the data. */
  lemma WrittenIs(f: File, data: seq<byte>)
    requires data != []
    ensures var at := if f.append then |f.bytes| else f.pos;
            var g := Written(f, data);
            && g == f.(bytes := g.bytes, pos := at + |data|)
            && |g.bytes| == (if at + |data| > |f.bytes| then at + |data| else |f.bytes|)
            && g.bytes[at..at + |data|] == data
            && forall i | 0 <= i < |g.bytes| && !(at <= i < at + |data|) :: g.bytes[i] == ByteAt(f.bytes, i)
  {}

  /** A read gives the bytes at the position, all `count` of them or none: then the position is at the end, unless it
      was past it. */
  lemma ReadIs(f: File, count: nat)
    requires f.readable && count > 0
    ensures var (g, out) := Direct(f, Read(count));
            if f.pos + count <= |f.bytes| then
              out == Bytes(f.bytes[f.pos..f.pos + count]) && g == f.(pos := f.pos + count)
            else out == EndOfFile && g == f.(pos := if f.pos < |f.bytes| then |f.bytes| else f.pos)
  {}

  /** What is available is the most that can be read at once. */
  lemma AvailableIsReadable(f: File, count: nat)
    requires f.readable && count > 0
    ensures Direct(f, Available).1.Number? && Direct(f, Available).0 == f
    ensures Direct(f, Read(count)).1.Bytes? <==> count <= Direct(f, Available).1.n
  {}

  /** The operations answer for one another: the position told is the one sought, the length the one set and what is
      available at the start, and what was written reads back. */
  lemma OperationsAgree(f: File, n: nat, data: seq<byte>)
    requires f.readable && f.writable && !f.append && data != []
    ensures var sought := Direct(f, Seek(n)).0;
            && Direct(sought, Tell) == (sought, Number(n))
            && Direct(Direct(Direct(sought, Write(data)).0, Seek(n)).0, Read(|data|)).1 == Bytes(data)
    ensures var cut := Direct(f, SetLength(n)).0;
            && Direct(cut, Length) == (cut, Number(n)) && cut.(bytes := f.bytes) == f
            && forall i | 0 <= i < n :: cut.bytes[i] == ByteAt(f.bytes, i)
    ensures Direct(f, Length).1 == Direct(Direct(f, Seek(0)).0, Available).1 && Direct(f, Flush) == (f, Done(true))
  {
    WrittenIs(Direct(f, Seek(n)).0, data);
  }

  /** The operation is not one this descriptor allows. */
  predicate Denies(f: File, op: Op) {
    Direct(f, op).1 == Refused || Direct(f, op).1 == Done(false)
  }

  /** A descriptor only denies what it was not opened for, and then nothing happens; nothing is always allowed. */
  lemma DeniedIs(f: File, op: Op)
    ensures Denies(f, op) <==>
              || (op.Write? && op.data != [] && !f.writable)
              || (op.Read? && op.count > 0 && !f.readable)
              || (op.SetLength? && !f.writable)
    ensures Denies(f, op) ==> Direct(f, op).0 == f
  {}

  /** The same file behind a userspace write buffer. */
  datatype Buffered = Buffered(file: File, pending: seq<byte>)

  const WRITE_BUFFER_SIZE: nat := 65536

  /** The file an unbuffered process would have by now. */
  function Logical(b: Buffered): File {
    Written(b.file, b.pending)
  }

  function Drained(b: Buffered): Buffered {
    Buffered(Logical(b), [])
  }

  predicate Refuses(b: Buffered, op: Op) {
    Denies(Logical(b), op)
  }

  /** A payload too large for the buffer goes out in one call; the kernel took only part of it. */
  ghost predicate ShortWrite(b: Buffered, data: seq<byte>, after: Buffered) {
    && b.file.writable && |data| >= WRITE_BUFFER_SIZE
    && exists n: nat :: 0 < n < |data| && after == Buffered(Written(Logical(b), data[..n]), [])
  }

  ghost predicate BufferOk(b: Buffered) {
    |b.pending| <= WRITE_BUFFER_SIZE && (b.pending != [] ==> b.file.writable)
  }

  /** One operation through the buffer: small writes wait in it, everything else drains it first. */
  function Lazily(b: Buffered, op: Op): (Buffered, Out) {
    if op.Write? && b.file.writable && |op.data| < WRITE_BUFFER_SIZE then
      var room := if |b.pending| + |op.data| > WRITE_BUFFER_SIZE then Drained(b) else b;
      ((if op.data == [] then b else room.(pending := room.pending + op.data)), Number(|op.data|))
    else
      var (f, out) := Direct(Drained(b).file, op);
      (Buffered(f, []), out)
  }

  lemma LazilyRefinesDirect(b: Buffered, op: Op)
    requires BufferOk(b)
    ensures var (b', out) := Lazily(b, op);
            BufferOk(b') && (Logical(b'), out) == Direct(Logical(b), op)
  {
    if op.Write? && b.file.writable && |op.data| < WRITE_BUFFER_SIZE {
      SplitWrite(b.file, b.pending, op.data);
      assert [] + op.data == op.data;
    }
  }

  /** A small write that still fits waits behind the others; one that does not drains them first. */
  lemma SmallWritesWait(b: Buffered, data: seq<byte>)
    requires BufferOk(b) && b.file.writable && 0 < |data| < 65536
    ensures Lazily(b, Write(data)) ==
              (if |b.pending + data| <= 65536 then Buffered(b.file, b.pending + data)
               else Buffered(Written(b.file, b.pending), data), Number(|data|))
  {
    assert [] + data == data;
  }

  ghost function DirectRun(f: File, ops: seq<Op>): (File, seq<Out>) {
    if ops == [] then (f, [])
    else
      var (g, outs) := DirectRun(f, ops[..|ops| - 1]);
      var (h, out) := Direct(g, ops[|ops| - 1]);
      (h, outs + [out])
  }

  ghost function LazyRun(b: Buffered, ops: seq<Op>): (Buffered, seq<Out>) {
    if ops == [] then (b, [])
    else
      var (g, outs) := LazyRun(b, ops[..|ops| - 1]);
      var (h, out) := Lazily(g, ops[|ops| - 1]);
      (h, outs + [out])
  }

  /** Over any run of operations the buffer cannot be observed: every answer is the unbuffered one, the
      buffer never overfills, and draining it leaves exactly the unbuffered bytes and position. */
  lemma {:induction false} BufferIsUnobservable(b: Buffered, ops: seq<Op>)
    requires BufferOk(b)
    ensures var (b', lazyOuts) := LazyRun(b, ops);
            var (f', outs) := DirectRun(Logical(b), ops);
            && BufferOk(b')
            && lazyOuts == outs
            && Logical(b') == f'
            && Drained(b').file == f'
  {
    if ops != [] {
      BufferIsUnobservable(b, ops[..|ops| - 1]);
      LazilyRefinesDirect(LazyRun(b, ops[..|ops| - 1]).0, ops[|ops| - 1]);
    }
  }

  /** A drain that fails after `taken` bytes reached the file keeps all of them pending. */
  function HalfDrained(b: Buffered, taken: nat): Buffered
    requires taken <= |b.pending|
  {
    Buffered(Written(b.file, b.pending[..taken]), b.pending)
  }

  /** A short write leaves the file as the whole one would if and only if it was not short. */
  lemma ShortWriteFallsShort(f: File, data: seq<byte>, n: nat)
    requires 0 < n <= |data|
    ensures Written(f, data[..n]) == Written(f, data) <==> n == |data|
  {
    assert n == |data| ==> data[..n] == data;
    assert f.append || Written(f, data[..n]).pos == f.pos + n;
    assert f.append ==> |Written(f, data[..n]).bytes| == |f.bytes| + n;
  }

  /** 64 KiB written in one call of which the kernel takes one byte: nothing failed, the call reports an error, and
      the byte is in the file. */
  lemma LostPayload()
    ensures var b := Buffered(File([], 0, false, true, false), []);
            ShortWrite(b, Zeros(WRITE_BUFFER_SIZE), Buffered(File([0], 1, false, true, false), []))
  {
    var b := Buffered(File([], 0, false, true, false), []);
    var data := Zeros(WRITE_BUFFER_SIZE);
    assert data[..1] == [0];
    assert Written(Logical(b), data[..1]) == File([0], 1, false, true, false);
  }

  /** One more partial write of a drain in progress. */
  lemma WriteContinues(f: File, data: seq<byte>, taken: nat, more: nat)
    requires taken + more <= |data|
    ensures Written(Written(f, data[..taken]), data[taken..][..more]) == Written(f, data[..taken + more])
  {
    SplitWrite(f, data[..taken], data[taken..][..more]);
    assert data[..taken] + data[taken..][..more] == data[..taken + more];
  }

  lemma FullyDrained(b: Buffered)
    ensures HalfDrained(b, 0) == b && HalfDrained(b, |b.pending|).file == Drained(b).file
  {}

  /** So a later, successful drain writes those bytes again: the file is right again exactly when the
      failed drain had delivered nothing. */
  lemma RetryAfterFailedDrain(b: Buffered, taken: nat)
    requires taken <= |b.pending|
    ensures Drained(HalfDrained(b, taken)) == Drained(b) <==> taken == 0
  {}

  /** The failure is real: three pending bytes, one delivered before the error. */
  lemma DuplicatedByte()
    ensures var b := Buffered(File([], 0, true, true, false), [1, 2, 3]);
            Drained(HalfDrained(b, 1)).file.bytes == [1, 1, 2, 3]
  {}
}
