/** `CFile` of src/CFile.cpp: a descriptor behind a lazily allocated 64 KiB write buffer. */
module CFileBuffer {
  import opened Common
  import opened FileModel
  import opened Kernel

  datatype Error = InvalidState | InvalidParams | Eof | IoFailure | SeekFailure

  datatype Result<+T> = Ok(value: T) | Err(error: Error)

  datatype OpenMode = ForRead | ForWrite | ForReadWrite | ForAppend | ForExclusive | ForSafeWrite

  datatype Origin = FromStart | FromCurrent | FromEnd

  // ----- File names -----

  const NEW_EXT: string := ".new"

  /** Which of the two families of systems this is. */
  const WINDOWS: bool

  /** A backslash is an ordinary character of a file's name elsewhere. */
  predicate EndsDirectory(c: char) {
    c == '/' || (WINDOWS && c == '\\')
  }

  predicate Marks(c: char) {
    c == '.' || EndsDirectory(c)
  }

  /** The last index at which there is a dot or the end of a directory, or -1. */
  function LastMark(p: string): (i: int)
    ensures -1 <= i < |p|
  {
    if p == [] then -1 else if Marks(p[|p| - 1]) then |p| - 1 else LastMark(p[..|p| - 1])
  }

  lemma {:induction false} LastMarkIs(p: string, i: nat)
    requires i < |p| && Marks(p[i]) && forall j | i < j < |p| :: !Marks(p[j])
    ensures LastMark(p) == i
  {
    if i < |p| - 1 {
      LastMarkIs(p[..|p| - 1], i);
    }
  }

  lemma {:induction false} LastMarkLast(p: string)
    ensures forall j | LastMark(p) < j < |p| :: !Marks(p[j])
  {
    if p != [] && !Marks(p[|p| - 1]) {
      LastMarkLast(p[..|p| - 1]);
    }
  }

  /** Drops the extension: everything from the last dot, unless that dot starts the file's own name. */
  function RemoveExt(p: string): string {
    var i := LastMark(p);
    if i > 0 && p[i] == '.' && !EndsDirectory(p[i - 1]) then p[..i] else p
  }

  predicate NamesAFile(p: string) {
    p != "" && p[|p| - 1] != '/' && !(WINDOWS && p[|p| - 1] == '\\')
  }

  /** An extension starts here: a dot behind a character of the file's own name, with no other dot and no end of a
      directory after it. */
  predicate DotsExt(p: string, i: nat) {
    && 0 < i < |p| && p[i] == '.'
    && p[i - 1] != '/' && !(WINDOWS && p[i - 1] == '\\')
    && forall j | i < j < |p| :: p[j] != '.' && p[j] != '/' && !(WINDOWS && p[j] == '\\')
  }

  /** An extension is dropped from its dot on; a name without one stays. */
  lemma RemoveExtIs(p: string)
    ensures forall i: nat | DotsExt(p, i) :: RemoveExt(p) == p[..i]
    ensures (forall i: nat :: !DotsExt(p, i)) ==> RemoveExt(p) == p
  {
    forall i: nat | DotsExt(p, i) ensures RemoveExt(p) == p[..i] {
      LastMarkIs(p, i);
    }
    if RemoveExt(p) != p {
      LastMarkLast(p);
      assert DotsExt(p, LastMark(p));
    }
  }

  /** The temporary name leads back to the original exactly when the original names a file. */
  lemma TemporaryNameLeadsBack(p: string)
    ensures RemoveExt(p + NEW_EXT) == p <==> NamesAFile(p)
  {
    var t := p + NEW_EXT;
    assert t[|p|] == '.' && t[|p| + 1] == 'n' && t[|p| + 2] == 'e' && t[|p| + 3] == 'w';
    LastMarkIs(t, |p|);
    assert t[..|p|] == p;
    if NamesAFile(p) {
      assert t[|p| - 1] == p[|p| - 1];
    }
  }

  function FlagsFor(mode: OpenMode, exists_: bool): Flags {
    match mode
    case ForRead => Flags(true, false, false, false, false, false)
    case ForAppend => if exists_ then Flags(false, true, true, false, false, false)
                      else Flags(false, true, false, true, true, false)
    case ForWrite => Flags(false, true, false, true, true, false)
    case ForSafeWrite => Flags(false, true, false, true, true, false)
    case ForExclusive => Flags(false, true, false, true, false, true)
    case ForReadWrite => Flags(true, true, false, false, false, false)
  }

  /** A mode cannot open a file that is missing, unless it writes, nor in exclusive mode one that is there. */
  predicate CannotOpen(mode: OpenMode, found: bool) {
    if found then mode == ForExclusive else mode == ForRead || mode == ForReadWrite
  }

  /** The temporary file takes the place of the one it was written for. */
  ghost function Renamed(names: map<string, Inode>, temporary: string): map<string, Inode>
    requires temporary in names
  {
    (names - {temporary})[RemoveExt(temporary) := names[temporary]]
  }

  /** The modes that empty an existing file. */
  predicate StartsOver(mode: OpenMode) {
    mode == ForWrite || mode == ForSafeWrite
  }

  /** Opening a file in a mode for writing has gone so. */
  predicate Tallied(now: Tally, before: Tally, mode: OpenMode, ok: bool) {
    && Follows(now, before) && now.kept == before.kept && now.aborts == before.aborts
    && now.outputs == before.outputs + (if ok && mode != ForRead then 1 else 0)
  }

  /** The name a mode really opens. */
  function NameFor(path: string, mode: OpenMode): string {
    if mode == ForSafeWrite then path + NEW_EXT else path
  }

  /** What a read of `count` bytes hands over: all there is up to `count`. The number returned says whether
      that was enough; when it was not, it leaves out the read that ran into the end of the file. */
  ghost predicate Delivered(f: File, count: nat, value: nat, data: seq<byte>, after: Buffered) {
    && value <= count
    && (count > 0 ==> f.readable)
    && (value == count <==> count <= |Ahead(f)|)
    && data == (if count <= |Ahead(f)| then Ahead(f)[..count] else Ahead(f))
    && after == Buffered(f.(pos := f.pos + |data|), [])
  }

  lemma Advance(f: File, data: seq<byte>, chunk: seq<byte>)
    requires data <= Ahead(f) && chunk <= Ahead(f.(pos := f.pos + |data|))
    ensures data + chunk <= Ahead(f)
    ensures Ahead(f.(pos := f.pos + |data + chunk|)) == [] <==> data + chunk == Ahead(f)
  {}

  class CFile {
    const fs: FileSystem
    var fd: Descriptor?
    var filePath: string
    var safeWrite: bool
    var buffer: array?<byte>
    var pending: nat
    var canBuffer: bool

    /** The open file, if there is one. */
    ghost function Handle(): set<object>
      reads this`fd
    {
      if fd != null then {fd, fd.inode} else {}
    }

    /** What writing out the pending bytes may change; nothing but the position when there are none. */
    ghost function Drainable(): set<object>
      reads this`fd, this`pending
    {
      if fd == null then {} else if pending > 0 then {fd, fd.inode} else {fd}
    }

    /** Everything besides the object itself that describes the open file. */
    ghost function Footprint(): set<object>
      reads this`fd, this`buffer
    {
      (if buffer != null then {buffer as object} else {}) + Handle()
    }

    ghost predicate Valid()
      reads this
    {
      && pending <= WRITE_BUFFER_SIZE
      && (buffer != null ==> buffer.Length == WRITE_BUFFER_SIZE)
      && (pending > 0 ==> buffer != null && canBuffer)
      && (fd == null ==> pending == 0)
      && (fd != null ==> canBuffer == fd.writable && fd.fs == fs)
    }

    predicate IsOpened()
      reads this
    {
      fd != null
    }

    /** The buffered file this object stands for. */
    ghost function Abs(): (b: Buffered)
      requires Valid() && IsOpened()
      reads this, Footprint()
      ensures BufferOk(b)
    {
      Buffered(fd.File(), if pending == 0 then [] else buffer[..pending])
    }

    /** A call of the kernel has failed that was in order. */
    twostate predicate Erred()
      reads fs`tally
    {
      fs.tally.errors > old(fs.tally.errors)
    }

    constructor (fs: FileSystem)
      ensures Valid() && !IsOpened() && this.fs == fs && buffer == null
    {
      this.fs := fs;
      fd := null;
      filePath := "";
      safeWrite := false;
      buffer := null;
      pending := 0;
      canBuffer := false;
    }

    /** The drain's loop over partial writes. */
    method WriteOut(bytes: seq<byte>) returns (ok: bool, ghost taken: nat)
      requires Valid() && IsOpened()
      modifies fd, fd.inode, fs`tally
      ensures Onward(fs.tally, old(fs.tally)) && (ok || !fd.writable || Erred())
      ensures fs.full ==> ok == (bytes == [])
      ensures if ok then taken == |bytes| else taken < |bytes|
      ensures fd.File() == Written(old(fd.File()), bytes[..taken])
    {
      var total := 0;
      ghost var before := fd.File();
      while total < |bytes|
        invariant total <= |bytes| && (fs.full ==> total == 0) && Onward(fs.tally, old(fs.tally))
        invariant fd.File() == Written(before, bytes[..total])
      {
        var written := WriteSome(bytes, total, before);
        if written < 0 {
          return false, total;
        }
        total := total + written;
      }
      assert bytes[..total] == bytes;
      return true, total;
    }

    /** One write, from where the last one stopped. */
    method WriteSome(bytes: seq<byte>, total: nat, ghost before: File) returns (written: int)
      requires Valid() && IsOpened() && total < |bytes| && fd.File() == Written(before, bytes[..total])
      modifies fd, fd.inode, fs`tally
      ensures Onward(fs.tally, old(fs.tally)) && (written != -1 || !fd.writable || Erred())
      ensures written == -1 || (0 < written <= |bytes| - total && !fs.full)
      ensures fd.File() == Written(before, bytes[..if written == -1 then total else total + written])
    {
      ghost var reached := fd.File();
      written := fd.Write(bytes[total..]);
      if written != -1 {
        assert fd.File() == Written(reached, bytes[total..][..written]);
        WriteContinues(before, bytes, total, written);
      }
    }

    /** Pending bytes reach the file in order; if a write fails they all stay pending, those already written
        included. */
    method DrainWriteBuffer() returns (r: Result<()>)
      requires Valid() && IsOpened()
      modifies this`pending, Drainable(), fs`tally
      ensures Onward(fs.tally, old(fs.tally))
      ensures r.Err? ==> Erred()
      ensures fs.full ==> r.Ok? == (old(pending) == 0)
      ensures old(pending) == 0 ==> r.Ok? && fs.tally == old(fs.tally)
      ensures Valid()
      ensures r.Ok? ==> Abs() == Drained(old(Abs()))
      ensures r.Err? ==> r.error == IoFailure && exists taken: nat ::
                taken < |old(Abs()).pending| && Abs() == HalfDrained(old(Abs()), taken)
    {
      if pending == 0 {
        return Ok(());
      }
      ghost var b := Abs();
      FullyDrained(b);
      var ok, taken := WriteOut(buffer[..pending]);
      if !ok {
        assert Abs() == HalfDrained(b, taken);
        return Err(IoFailure);
      }
      pending := 0;
      return Ok(());
    }

    method DoWrite(data: seq<byte>) returns (r: Result<nat>)
      requires Valid()
      modifies this`pending, this`buffer, Footprint(), fs`tally
      ensures Onward(fs.tally, old(fs.tally))
      ensures Valid() && (buffer == old(buffer) || fresh(buffer))
      ensures !old(IsOpened()) ==> r == Err(InvalidState)
      ensures old(IsOpened()) && r.Ok? ==> (Abs(), Number(r.value)) == Lazily(old(Abs()), Write(data))
      ensures old(IsOpened()) && r.Err? ==> r.error == IoFailure
      ensures old(IsOpened()) && r.Err? ==>
                (Erred() || Refuses(old(Abs()), Write(data)) ||
                 (fs.tally.shorts > old(fs.tally.shorts) && ShortWrite(old(Abs()), data, Abs())))
      ensures fs.full && old(IsOpened()) && canBuffer && old(pending) == 0 && data != [] ==>
                if |data| < WRITE_BUFFER_SIZE then r.Ok? && pending == |data| else r.Err? && pending == 0
    {
      if !IsOpened() {
        return Err(InvalidState);
      }
      if !canBuffer || |data| >= WRITE_BUFFER_SIZE {
        var drained := DrainWriteBuffer();
        if drained.Err? {
          return Err(drained.error);
        }
        if data == [] {
          return Ok(0);
        }
        var result := fd.Write(data);
        if result != |data| {
          return Err(IoFailure);
        }
        assert data[..result] == data;
        return Ok(result);
      }
      if data == [] {
        return Ok(0);
      }
      if pending + |data| > WRITE_BUFFER_SIZE {
        var drained := DrainWriteBuffer();
        if drained.Err? {
          return Err(drained.error);
        }
      }
      Enqueue(data);
      return Ok(|data|);
    }

    /** The buffer is allocated on the first write that needs it. */
    method Enqueue(data: seq<byte>)
      requires Valid() && IsOpened() && canBuffer && pending + |data| <= WRITE_BUFFER_SIZE
      modifies this`pending, this`buffer, if buffer != null then {buffer} else {}
      ensures Valid() && (buffer == old(buffer) || fresh(buffer))
      ensures Abs() == old(Abs()).(pending := old(Abs()).pending + data)
    {
      if buffer == null {
        buffer := new byte[WRITE_BUFFER_SIZE];
      }
      ghost var before := Abs().pending;
      CopyIn(data);
      pending := pending + |data|;
      assert buffer[..pending] == before + data;
    }

    /** The `memcpy` behind the pending bytes; it never leaves the buffer. */
    method CopyIn(data: seq<byte>)
      requires buffer != null && pending + |data| <= buffer.Length
      modifies buffer
      ensures buffer[..pending] == old(buffer[..pending])
      ensures buffer[pending..pending + |data|] == data
    {
      for i := 0 to |data|
        invariant buffer[..pending] == old(buffer[..pending])
        invariant forall j | 0 <= j < i :: buffer[pending + j] == data[j]
      {
        buffer[pending + i] := data[i];
      }
    }

    method GetPosition() returns (r: Result<nat>)
      requires Valid()
      modifies this`pending, Drainable(), fs`tally
      ensures fs.full && old(pending) == 0 ==> fs.tally == old(fs.tally)
      ensures Onward(fs.tally, old(fs.tally))
      ensures old(IsOpened()) && r.Err? ==> Erred()
      ensures Valid()
      ensures !old(IsOpened()) ==> r == Err(InvalidState)
      ensures old(IsOpened()) && r.Ok? ==> (Abs(), Number(r.value)) == Lazily(old(Abs()), Tell)
      ensures old(IsOpened()) && r.Err? ==> r.error != Eof && r.error != InvalidState
    {
      if !IsOpened() {
        return Err(InvalidState);
      }
      var drained := DrainWriteBuffer();
      if drained.Err? {
        return Err(drained.error);
      }
      var pos := fd.Tell();
      if pos == -1 {
        return Err(SeekFailure);
      }
      return Ok(pos);
    }

    method GetLength() returns (r: Result<nat>)
      requires Valid()
      modifies this`pending, Drainable(), fs`tally
      ensures fs.full && old(pending) == 0 ==> fs.tally == old(fs.tally)
      ensures Onward(fs.tally, old(fs.tally))
      ensures old(IsOpened()) && r.Err? ==> Erred()
      ensures Valid()
      ensures !old(IsOpened()) ==> r == Err(InvalidState)
      ensures old(IsOpened()) && r.Ok? ==> (Abs(), Number(r.value)) == Lazily(old(Abs()), Length)
      ensures old(IsOpened()) && r.Err? ==> r.error != Eof && r.error != InvalidState
    {
      if !IsOpened() {
        return Err(InvalidState);
      }
      var drained := DrainWriteBuffer();
      if drained.Err? {
        return Err(drained.error);
      }
      var size := fd.Size();
      if size == -1 {
        return Err(IoFailure);
      }
      return Ok(size);
    }

    method GetAvailable() returns (r: Result<nat>)
      requires Valid()
      modifies this`pending, Drainable(), fs`tally
      ensures Onward(fs.tally, old(fs.tally))
      ensures old(IsOpened()) && r.Err? ==> Erred()
      ensures Valid()
      ensures !old(IsOpened()) ==> r == Err(InvalidState)
      ensures old(IsOpened()) && r.Ok? ==> (Abs(), Number(r.value)) == Lazily(old(Abs()), Available)
    {
      var length := GetLength();
      if length.Err? {
        return Err(length.error);
      }
      var position := GetPosition();
      if position.Err? {
        return Err(position.error);
      }
      return Ok(if position.value < length.value then length.value - position.value else 0);
    }

    method AtEof() returns (r: Result<bool>)
      requires Valid() && IsOpened()
      modifies this`pending, Drainable(), fs`tally
      ensures fs.full && old(pending) == 0 ==> fs.tally == old(fs.tally)
      ensures Onward(fs.tally, old(fs.tally))
      ensures r.Err? ==> Erred()
      ensures Valid()
      ensures r.Ok? ==> Abs() == Drained(old(Abs())) && r.value == (Ahead(Abs().file) == [])
      ensures r.Ok? && old(pending) == 0 ==> pending == 0 && fd.File() == old(fd.File())
      ensures r.Err? ==> r.error != Eof && r.error != InvalidState
    {
      var position := GetPosition();
      if position.Err? {
        return Err(position.error);
      }
      var length := GetLength();
      if length.Err? {
        return Err(length.error);
      }
      return Ok(position.value >= length.value);
    }

    method DoRead(count: nat) returns (r: Result<nat>, data: seq<byte>)
      requires Valid()
      modifies this`pending, Drainable(), fs`tally
      ensures fs.full && old(pending) == 0 ==> fs.tally == old(fs.tally)
      ensures Onward(fs.tally, old(fs.tally))
      ensures old(IsOpened()) && r.Err? ==> Erred() || Refuses(old(Abs()), FileModel.Read(count))
      ensures Valid()
      ensures !old(IsOpened()) ==> r == Err(InvalidState)
      ensures old(IsOpened()) && r.Ok? ==> Delivered(Logical(old(Abs())), count, r.value, data, Abs())
      ensures old(IsOpened()) && r.Err? ==> r.error != Eof && r.error != InvalidState
    {
      data := [];
      if !IsOpened() {
        return Err(InvalidState), [];
      }
      var drained := DrainWriteBuffer();
      if drained.Err? {
        return Err(drained.error), [];
      }
      r, data := ReadLoop(count);
    }

    /** The loop over short reads; it stops early only at the end of the file. */
    method ReadLoop(count: nat) returns (r: Result<nat>, data: seq<byte>)
      requires Valid() && IsOpened() && pending == 0
      modifies this`pending, Drainable(), fs`tally
      ensures fs.full ==> fs.tally == old(fs.tally)
      ensures Onward(fs.tally, old(fs.tally))
      ensures r.Err? ==> Erred() || (count > 0 && !fd.readable)
      ensures Valid()
      ensures r.Ok? ==> Delivered(old(fd.File()), count, r.value, data, Abs())
      ensures r.Err? ==> r.error != Eof && r.error != InvalidState
    {
      data := [];
      ghost var f := fd.File();
      var total := 0;
      while total < count
        invariant total == |data| <= count && data <= Ahead(f) && Onward(fs.tally, old(fs.tally))
        invariant fs.full ==> fs.tally == old(fs.tally)
        invariant total > 0 ==> f.readable
        invariant pending == 0 && fd.File() == f.(pos := f.pos + total)
      {
        var chunk := ReadChunk(count, f, data);
        if chunk.Err? {
          return Err(chunk.error), data;
        }
        data := data + chunk.value.1;
        if chunk.value.0 {
          return Ok(total), data;
        }
        total := |data|;
      }
      return Ok(total), data;
    }

    /** One call of the kernel, and whether it ran into the end of the file. */
    method ReadChunk(count: nat, ghost f: File, data: seq<byte>) returns (r: Result<(bool, seq<byte>)>)
      requires Valid() && IsOpened() && pending == 0 && |data| < count && data <= Ahead(f)
      requires fd.File() == f.(pos := f.pos + |data|)
      modifies this`pending, fd, fs`tally
      ensures fs.full ==> fs.tally == old(fs.tally)
      ensures Valid() && Onward(fs.tally, old(fs.tally))
      ensures r.Err? ==> (Erred() || !fd.readable) && r.error != Eof && r.error != InvalidState
      ensures r.Ok? ==>
                var (ended, chunk) := r.value;
                && f.readable && pending == 0 && |data + chunk| <= count && data + chunk <= Ahead(f)
                && fd.File() == f.(pos := f.pos + |data + chunk|)
                && if ended then |data + chunk| < count && data + chunk == Ahead(f) else |chunk| > 0
    {
      var current, chunk := fd.Read(count - |data|);
      if current == -1 {
        return Err(IoFailure);
      }
      Advance(f, data, chunk);
      if |data| + current < count {
        var eof := AtEof();
        if eof.Err? {
          return Err(eof.error);
        }
        return Ok((eof.value, chunk));
      }
      return Ok((false, chunk));
    }

    method Read(count: nat) returns (r: Result<seq<byte>>)
      requires Valid()
      modifies this`pending, Drainable(), fs`tally
      ensures fs.full && old(pending) == 0 ==> fs.tally == old(fs.tally)
      ensures Onward(fs.tally, old(fs.tally))
      ensures old(IsOpened()) && r.Err? && r.error != Eof ==>
                Erred() || Refuses(old(Abs()), FileModel.Read(count))
      ensures Valid()
      ensures !old(IsOpened()) ==> r == Err(InvalidState)
      ensures old(IsOpened()) && r.Ok? ==> (Abs(), Bytes(r.value)) == Lazily(old(Abs()), FileModel.Read(count))
      ensures old(IsOpened()) && r == Err(Eof) ==> (Abs(), EndOfFile) == Lazily(old(Abs()), FileModel.Read(count))
    {
      var got, data := DoRead(count);
      if got.Err? {
        return Err(got.error);
      }
      if got.value == count {
        return Ok(data);
      }
      var eof := AtEof();
      if eof.Err? {
        return Err(eof.error);
      }
      return Err(if eof.value then Eof else IoFailure);
    }

    method DoSeek(offset: int) returns (r: Result<nat>)
      requires Valid()
      modifies this`pending, Drainable(), fs`tally
      ensures Onward(fs.tally, old(fs.tally))
      ensures old(IsOpened()) && offset >= 0 && r.Err? ==> Erred()
      ensures Valid()
      ensures !old(IsOpened()) ==> r == Err(SeekFailure)
      ensures old(IsOpened()) && offset < 0 ==> r == Err(InvalidParams) && Abs() == old(Abs())
      ensures old(IsOpened()) && r.Ok? ==>
                r.value == offset && (Abs(), Number(r.value)) == Lazily(old(Abs()), FileModel.Seek(offset))
    {
      if !IsOpened() {
        return Err(SeekFailure);
      }
      if offset < 0 {
        return Err(InvalidParams);
      }
      var drained := DrainWriteBuffer();
      if drained.Err? {
        return Err(drained.error);
      }
      var result := fd.Seek(offset);
      if result == offset {
        return Ok(result);
      }
      return Err(SeekFailure);
    }

    /** Seeking relative to the position or the end resolves against the logical file, pending bytes included. */
    method Seek(offset: int, from: Origin) returns (r: Result<nat>)
      requires Valid()
      modifies this`pending, Drainable(), fs`tally
      ensures Onward(fs.tally, old(fs.tally))
      ensures Valid()
      ensures !old(IsOpened()) ==> r.Err?
      ensures old(IsOpened()) && r.Ok? ==>
                var f := Logical(old(Abs()));
                var base := match from case FromStart => 0 case FromCurrent => f.pos case FromEnd => |f.bytes|;
                && 0 <= base + offset == r.value
                && (Abs(), Number(r.value)) == Lazily(old(Abs()), FileModel.Seek(base + offset))
    {
      var base := Ok(0);
      match from {
        case FromStart =>
        case FromCurrent => base := GetPosition();
        case FromEnd => base := GetLength();
      }
      if base.Err? {
        return Err(base.error);
      }
      if base.value + offset < 0 {
        return Err(InvalidParams);
      }
      r := DoSeek(base.value + offset);
    }

    method SetLength(length: nat) returns (r: Result<bool>)
      requires Valid()
      modifies this`pending, Handle(), fs`tally
      ensures Onward(fs.tally, old(fs.tally))
      ensures old(IsOpened()) && r != Ok(true) ==> Erred() || Refuses(old(Abs()), FileModel.SetLength(length))
      ensures Valid()
      ensures !old(IsOpened()) ==> r == Err(InvalidState)
      ensures old(IsOpened()) && r == Ok(true) ==>
                (Abs(), Done(true)) == Lazily(old(Abs()), FileModel.SetLength(length))
      ensures old(IsOpened()) && r == Ok(false) ==> Abs() == Drained(old(Abs()))
    {
      if !IsOpened() {
        return Err(InvalidState);
      }
      var drained := DrainWriteBuffer();
      if drained.Err? {
        return Err(drained.error);
      }
      var ok := fd.Truncate(length);
      return Ok(ok);
    }

    method Flush() returns (r: Result<bool>)
      requires Valid()
      modifies this`pending, Drainable(), fs`tally
      ensures Onward(fs.tally, old(fs.tally))
      ensures old(IsOpened()) && r != Ok(true) ==> Erred()
      ensures Valid()
      ensures !old(IsOpened()) ==> r == Err(InvalidState)
      ensures old(IsOpened()) && r.Ok? ==> (Abs(), Done(true)) == Lazily(old(Abs()), FileModel.Flush)
    {
      if !IsOpened() {
        return Err(InvalidState);
      }
      var drained := DrainWriteBuffer();
      if drained.Err? {
        return Err(drained.error);
      }
      var ok := fd.Sync();
      return Ok(ok);
    }

    /** Closing writes what is pending, gives up the descriptor and, in safe mode, renames. A failed drain
        leaves the file open with its bytes still pending. */
    method Close() returns (r: Result<bool>)
      requires Valid()
      modifies this`fd, this`pending, this`filePath, fs, Drainable()
      ensures Valid() && Onward(fs.tally, old(fs.tally))
      ensures old(IsOpened()) && r.Err? ==> Erred()
      ensures fs.full && old(IsOpened()) ==> r.Ok? == (old(pending) == 0)
      ensures fs.full && old(IsOpened()) && !safeWrite && r.Ok? ==> r == Ok(true)
      ensures r.Ok? && !r.value ==> Erred() || (safeWrite && old(filePath) !in old(fs.names))
      ensures r.Err? ==> fd == old(fd) && filePath == old(filePath) && fs.names == old(fs.names)
      ensures !old(IsOpened()) ==> r == Err(InvalidState)
      ensures old(IsOpened()) && r.Err? ==>
                r.error == IoFailure && exists taken: nat ::
                  taken < |old(Abs()).pending| && Abs() == HalfDrained(old(Abs()), taken)
      ensures old(IsOpened()) && r.Ok? ==>
                && !IsOpened()
                && old(fd).inode.bytes == Logical(old(Abs())).bytes
                && filePath == (if safeWrite then RemoveExt(old(filePath)) else old(filePath))
                && if safeWrite && r.value
                   then old(filePath) in old(fs.names) && fs.names == Renamed(old(fs.names), old(filePath))
                   else fs.names == old(fs.names)
    {
      if !IsOpened() {
        return Err(InvalidState);
      }
      var drained := DrainWriteBuffer();
      if drained.Err? {
        return Err(drained.error);
      }
      var closed := fd.Close();
      fd := null;
      closed := TakePlace(closed);
      return Ok(closed);
    }

    /** In safe mode the name is the real one from now on, and a file that was closed well is moved there. */
    method TakePlace(closed: bool) returns (ok: bool)
      modifies this`filePath, fs
      ensures Onward(fs.tally, old(fs.tally))
      ensures filePath == if safeWrite then RemoveExt(old(filePath)) else old(filePath)
      ensures !ok ==> !closed || Erred() || (safeWrite && old(filePath) !in old(fs.names))
      ensures if safeWrite && ok
              then old(filePath) in old(fs.names) && fs.names == Renamed(old(fs.names), old(filePath))
              else fs.names == old(fs.names)
      ensures !safeWrite ==> ok == closed
    {
      ok := closed;
      if safeWrite {
        var temporary := filePath;
        filePath := RemoveExt(filePath);
        if closed {
          ok := fs.Rename(temporary, filePath);
        }
      }
    }

    /** The destructor. It never replaces the original file; a drain that fails inside it ends the process. */
    method Destroy() returns (aborted: bool)
      requires Valid()
      modifies this, fs, Drainable()
      ensures Valid() && fs.names == old(fs.names)
      ensures Destroyed(fs.tally, old(fs.tally), aborted) && aborted == IsOpened()
      ensures aborted ==> old(IsOpened()) && old(pending) > 0 && pending == old(pending) && Erred()
      ensures fs.full ==> aborted == (old(pending) > 0)
      ensures old(IsOpened()) && !aborted ==> old(fd).inode.bytes == Logical(old(Abs())).bytes
    {
      aborted := false;
      if IsOpened() {
        safeWrite := false;
        var closed := Close();
        aborted := closed.Err?;
        if aborted {
          fs.tally := fs.tally.(aborts := fs.tally.aborts + 1);
        }
      }
    }

    /** The handle now stands for the freshly opened file `path` names under `mode`. */
    twostate predicate OpenedAs(path: string, mode: OpenMode)
      requires Valid()
      reads this, fs, Footprint()
    {
      var name := NameFor(path, mode);
      && fd != null && fresh(fd) && name in fs.names && fd.inode == fs.names[name]
      && !CannotOpen(mode, name in old(fs.names))
      && (if name in old(fs.names)
          then fs.names == old(fs.names)
          else fresh(fd.inode) && fs.names == old(fs.names)[name := fd.inode])
      && var initial := if name in old(fs.names) && !StartsOver(mode) then old(fs.names[name].bytes) else [];
         Abs() == Buffered(File(initial, 0, mode == ForRead || mode == ForReadWrite, mode != ForRead,
                                mode == ForAppend && path in old(fs.names)), [])
    }

    /** At the start of the named file, with the rights of the mode and nothing pending; the modes that start over
        leave the file empty. */
    ghost predicate Begins(path: string, mode: OpenMode)
      reads this`fd, this`pending, fs`names, Handle()
    {
      && fd != null && pending == 0 && fd.pos == 0
      && NameFor(path, mode) in fs.names && fd.inode == fs.names[NameFor(path, mode)]
      && (fd.readable <==> mode == ForRead || mode == ForReadWrite) && (fd.writable <==> mode != ForRead)
      && (StartsOver(mode) || mode == ForExclusive ==> fd.inode.bytes == [])
    }

    /** The name was found among `base`, or is the one addition to it. */
    ghost predicate OpenedOver(base: map<string, Inode>, name: string)
      requires fd != null
      reads this`fd, fs`names
    {
      fs.names == base[name := fd.inode] && (name in base ==> base[name] == fd.inode)
    }

    /** What opening a name gives once nothing is open any more. */
    method OpenName(path: string, mode: OpenMode) returns (ok: bool)
      requires Valid() && !IsOpened()
      modifies this, fs, if NameFor(path, mode) in fs.names then {fs.names[NameFor(path, mode)]} else {}
      ensures Valid() && ok == IsOpened() && buffer == old(buffer)
      ensures filePath == NameFor(path, mode) && safeWrite == (mode == ForSafeWrite)
      ensures !ok ==> fs.names == old(fs.names)
                      && fs.Content(NameFor(path, mode)) == old(fs.Content(NameFor(path, mode)))
      ensures ok ==> OpenedAs(path, mode) && Begins(path, mode) && fresh(fd)
      ensures Tallied(fs.tally, old(fs.tally), mode, ok)
      ensures !ok ==>
                (Erred() || CannotOpen(mode, NameFor(path, mode) in old(fs.names)))
      ensures fs.full ==> fs.tally.errors == old(fs.tally.errors)
    {
      safeWrite := mode == ForSafeWrite;
      filePath := NameFor(path, mode);
      pending := 0;
      canBuffer := mode != ForRead;
      fd := fs.Open(filePath, FlagsFor(mode, path in fs.names));
      return IsOpened();
    }

    /** In between, with the names `base`, the name may show what became of the file that was open. */
    method OpenInstead(path: string, mode: OpenMode)
      returns (closed: bool, ok: bool, ghost base: map<string, Inode>, ghost shown: seq<byte>)
      requires Valid() && IsOpened()
      modifies this, fs, Handle(),
               if NameFor(path, mode) in fs.names then {fs.names[NameFor(path, mode)]} else {},
               if filePath in fs.names then {fs.names[filePath]} else {}
      ensures Valid() && buffer == old(buffer)
      ensures if closed then Tallied(fs.tally, old(fs.tally), mode, ok) else Onward(fs.tally, old(fs.tally))
      ensures !closed ==> fd == old(fd) && Erred() && !ok
      ensures closed ==> ok == IsOpened() && filePath == NameFor(path, mode) && safeWrite == (mode == ForSafeWrite)
      ensures ok ==> Begins(path, mode) && fresh(fd) && OpenedOver(base, NameFor(path, mode))
      ensures ok ==> fd.inode.bytes == if NameFor(path, mode) !in base || StartsOver(mode) then [] else shown
      ensures ok && NameFor(path, mode) !in base ==> fresh(fd.inode)
      ensures base == old(fs.names) ||
              (old(safeWrite) && old(filePath) in old(fs.names) && base == Renamed(old(fs.names), old(filePath)))
      ensures closed && NameFor(path, mode) in base ==>
                var i := base[NameFor(path, mode)];
                shown == if i == old(fd).inode then Logical(old(Abs())).bytes else old(i.bytes)
    {
      closed, shown := Release(NameFor(path, mode));
      base := fs.names;
      if !closed {
        return false, false, base, shown;
      }
      ok := OpenNext(path, mode, base, shown);
    }

    /** Closing as `Open` needs it; a failed rename is not looked at. Afterwards `name` shows what it did, or what
        became of the file that was open. */
    method Release(ghost name: string) returns (closed: bool, ghost shown: seq<byte>)
      requires Valid() && IsOpened()
      modifies this`fd, this`pending, this`filePath, fs, Drainable()
      ensures Valid() && Onward(fs.tally, old(fs.tally))
      ensures if closed then !IsOpened() else fd == old(fd) && Erred() && fs.names == old(fs.names)
      ensures fs.names == old(fs.names) ||
              (old(safeWrite) && old(filePath) in old(fs.names) && fs.names == Renamed(old(fs.names), old(filePath)))
      ensures name in fs.names ==> fs.names[name].bytes == shown
      ensures closed && name in fs.names ==>
                var i := fs.names[name];
                shown == if i == old(fd).inode then Logical(old(Abs())).bytes else old(i.bytes)
    {
      var r := Close();
      closed := r.Ok?;
      shown := if name in fs.names then fs.names[name].bytes else [];
    }

    /** The same, said of the file that is found instead of the name. */
    method OpenNext(path: string, mode: OpenMode, ghost base: map<string, Inode>, ghost shown: seq<byte>)
      returns (ok: bool)
      requires Valid() && !IsOpened() && base == fs.names
      requires NameFor(path, mode) in base ==> base[NameFor(path, mode)].bytes == shown
      modifies this, fs, if NameFor(path, mode) in fs.names then {fs.names[NameFor(path, mode)]} else {}
      ensures Valid() && ok == IsOpened() && buffer == old(buffer) && Tallied(fs.tally, old(fs.tally), mode, ok)
      ensures filePath == NameFor(path, mode) && safeWrite == (mode == ForSafeWrite)
      ensures ok ==> Begins(path, mode) && fresh(fd) && OpenedOver(base, NameFor(path, mode))
      ensures ok ==> fd.inode.bytes == if NameFor(path, mode) !in base || StartsOver(mode) then [] else shown
      ensures ok && NameFor(path, mode) !in base ==> fresh(fd.inode)
    {
      ok := OpenName(path, mode);
    }

    /** An open file is closed first; if its pending bytes cannot be written it stays open. */
    method Open(path: string, mode: OpenMode) returns (r: Result<bool>)
      requires Valid()
      modifies this, fs, Handle(),
               if NameFor(path, mode) in fs.names then {fs.names[NameFor(path, mode)]} else {},
               if IsOpened() && filePath in fs.names then {fs.names[filePath]} else {}
      ensures Valid() && buffer == old(buffer)
      ensures path == "" ==> r == Err(InvalidParams)
      ensures r.Err? ==> fd == old(fd) && (path == "" || old(IsOpened()))
      ensures r.Ok? ==> r.value == IsOpened() && filePath == NameFor(path, mode) && safeWrite == (mode == ForSafeWrite)
      ensures r == Ok(true) ==> Begins(path, mode) && fresh(fd)
      ensures !old(IsOpened()) && r == Ok(true) ==> OpenedAs(path, mode)
      ensures old(IsOpened()) && r == Ok(true) ==>
                var i := fd.inode;
                && i.bytes == (if fresh(i) || StartsOver(mode) then []
                               else if i == old(fd).inode then Logical(old(Abs())).bytes else old(i.bytes))
                && (OpenedOver(old(fs.names), NameFor(path, mode)) ||
                    (old(safeWrite) && old(filePath) in old(fs.names) &&
                     OpenedOver(Renamed(old(fs.names), old(filePath)), NameFor(path, mode))))
      ensures Tallied(fs.tally, old(fs.tally), mode, r == Ok(true))
      ensures !old(IsOpened()) && r == Ok(false) ==>
                (Erred() || CannotOpen(mode, NameFor(path, mode) in old(fs.names)))
      ensures !old(IsOpened()) && fs.full ==> fs.tally.errors == old(fs.tally.errors)
      ensures !old(IsOpened()) && r != Ok(true) ==>
                fs.names == old(fs.names) && fs.Content(NameFor(path, mode)) == old(fs.Content(NameFor(path, mode)))
    {
      if path == "" {
        return Err(InvalidParams);
      }
      if !IsOpened() {
        var ok := OpenName(path, mode);
        return Ok(ok);
      }
      var closed, ok, base, shown := OpenInstead(path, mode);
      return if closed then Ok(ok) else Err(IoFailure);
    }
  }
}
