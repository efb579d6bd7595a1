/** Whole uses of `CFile`: arbitrary runs of operations, files saved in safe mode, and `CloneFile`. */
module FileSessions {
  import opened Common
  import opened FileModel
  import opened Kernel
  import opened CFileBuffer

  /** Why an operation on a healthy system may fail all the same: the descriptor does not allow it, or it is a write
      too large for the buffer of which the kernel took only part. */
  twostate predicate Excused(f: CFile, b: Buffered, op: Op)
    requires f.Valid() && f.IsOpened()
    reads f, f.Footprint(), f.fs`tally
  {
    Refuses(b, op) || (op.Write? && f.fs.tally.shorts > old(f.fs.tally.shorts) && ShortWrite(b, op.data, f.Abs()))
  }

  /** Any client at all: it performs the operations one by one and gives up at the first that fails. Up to there the
      class behaves as the pure buffered file, whatever the kernel did with each call; and it fails only if the
      kernel did, or with an excuse. */
  method Use(f: CFile, ops: seq<Op>) returns (outs: seq<Out>, failed: bool)
    requires f.Valid() && f.IsOpened()
    modifies f`pending, f`buffer, f.Footprint(), f.fs`tally
    ensures f.Valid() && (f.buffer == old(f.buffer) || fresh(f.buffer)) && Onward(f.fs.tally, old(f.fs.tally))
    ensures !failed ==> (f.Abs(), outs) == LazyRun(old(f.Abs()), ops)
    ensures failed ==>
              && |outs| < |ops| && outs == LazyRun(old(f.Abs()), ops[..|outs|]).1
              && (f.fs.tally.errors > old(f.fs.tally.errors) ||
                  Excused(f, LazyRun(old(f.Abs()), ops[..|outs|]).0, ops[|outs|]))
  {
    outs := [];
    failed := false;
    ghost var b := f.Abs();
    for i := 0 to |ops|
      invariant f.Valid() && (f.buffer == old(f.buffer) || fresh(f.buffer)) && Onward(f.fs.tally, old(f.fs.tally))
      invariant (f.Abs(), outs) == LazyRun(b, ops[..i]) && |outs| == i
    {
      ghost var before := f.Abs();
      var out := Perform(f, ops[i]);
      if out == Refused {
        assert f.fs.tally.errors > old(f.fs.tally.errors) || Excused(f, before, ops[i]);
        return outs, true;
      }
      assert ops[..i + 1][..i] == ops[..i];
      outs := outs + [out];
    }
    assert ops[..|ops|] == ops;
  }

  method Perform(f: CFile, op: Op) returns (out: Out)
    requires f.Valid() && f.IsOpened()
    modifies f`pending, f`buffer, f.Footprint(), f.fs`tally
    ensures f.Valid() && (f.buffer == old(f.buffer) || fresh(f.buffer)) && Onward(f.fs.tally, old(f.fs.tally))
    ensures out != Refused ==> (f.Abs(), out) == Lazily(old(f.Abs()), op)
    ensures out == Refused ==> f.fs.tally.errors > old(f.fs.tally.errors) || Excused(f, old(f.Abs()), op)
  {
    match op
    case Write(data) =>
      var r := f.DoWrite(data);
      return if r.Ok? then Number(r.value) else Refused;
    case Read(count) =>
      var r := f.Read(count);
      return if r.Ok? then Bytes(r.value) else if r.error == Eof then EndOfFile else Refused;
    case Seek(offset) =>
      var r := f.DoSeek(offset);
      return if r.Ok? then Number(r.value) else Refused;
    case Tell =>
      var r := f.GetPosition();
      return if r.Ok? then Number(r.value) else Refused;
    case Length =>
      var r := f.GetLength();
      return if r.Ok? then Number(r.value) else Refused;
    case Available =>
      var r := f.GetAvailable();
      return if r.Ok? then Number(r.value) else Refused;
    case SetLength(length) =>
      var r := f.SetLength(length);
      return if r == Ok(true) then Done(true) else Refused;
    case Flush =>
      var r := f.Flush();
      return if r == Ok(true) then Done(true) else Refused;
  }

  /** Some operation of the run is one the descriptor does not allow at that point. */
  ghost predicate AnyRefused(b: Buffered, ops: seq<Op>) {
    exists i: nat :: i < |ops| && Refuses(LazyRun(b, ops[..i]).0, ops[i])
  }

  /** Something went wrong below: a call failed, or a write was cut short. */
  twostate predicate Disturbed(fs: FileSystem)
    reads fs`tally
  {
    fs.tally.errors > old(fs.tally.errors) || fs.tally.shorts > old(fs.tally.shorts)
  }

  method Drive(f: CFile, ops: seq<Op>) returns (outs: seq<Out>, failed: bool)
    requires f.Valid() && f.IsOpened()
    modifies f`pending, f`buffer, f.Footprint(), f.fs`tally
    ensures f.Valid() && (f.buffer == old(f.buffer) || fresh(f.buffer)) && Onward(f.fs.tally, old(f.fs.tally))
    ensures !failed ==> (f.Abs(), outs) == LazyRun(old(f.Abs()), ops)
    ensures failed ==> Disturbed(f.fs) || AnyRefused(old(f.Abs()), ops)
  {
    outs, failed := Use(f, ops);
  }

  /** How a file being saved ends: closed by its owner, or dropped by the destructor, which ends the process if it
      cannot write what is still pending. */
  datatype Ending = Closed(ok: bool) | Dropped | Terminated

  /** Saving in safe mode is all or nothing: unless an explicit close succeeds the name keeps showing
      exactly the old bytes, whatever was written; and if it succeeds, the name shows exactly the bytes an
      unbuffered file would hold. Left to itself it fails only if something below did, or on a forbidden operation.
      The old file and the temporary one must not be hard links to each other. */
  method SaveSafely(fs: FileSystem, path: string, ops: seq<Op>, drop: bool) returns (ending: Ending)
    requires NamesAFile(path)
    requires path in fs.names && path + NEW_EXT in fs.names ==> fs.names[path] != fs.names[path + NEW_EXT]
    modifies fs, if path + NEW_EXT in fs.names then {fs.names[path + NEW_EXT]} else {}
    ensures ending != Closed(true) ==> fs.Content(path) == old(fs.Content(path))
    ensures ending != Closed(true) ==>
              drop || Disturbed(fs) || AnyRefused(Buffered(File([], 0, false, true, false), []), ops)
    ensures ending == Closed(true) ==>
              && fs.Content(path) == Some(DirectRun(File([], 0, false, true, false), ops).0.bytes)
              && path + NEW_EXT !in fs.names
    ensures ending == Terminated <==> fs.tally.aborts > old(fs.tally.aborts)
  {
    var f := new CFile(fs);
    var started := f.Open(path, ForSafeWrite);
    if started != Ok(true) {
      return Dropped;
    }
    TemporaryNameLeadsBack(path);
    assert |path + NEW_EXT| != |path|;
    assert f.Footprint() == {f.fd, f.fd.inode};
    ghost var empty := File([], 0, false, true, false);
    BufferIsUnobservable(Buffered(empty, []), ops);
    ending := SaveOpened(f, path, ops, drop);
  }

  /** The handle writes to a file of its own, and `path` names another one or none. */
  ghost predicate Shielded(f: CFile, path: string)
    reads f`fd, f`filePath, f.fs`names
  {
    && f.fd != null
    && f.filePath in f.fs.names && f.fs.names[f.filePath] == f.fd.inode
    && (path in f.fs.names ==> f.fs.names[path] != f.fd.inode)
  }

  /** Closing moves the file written to its real name, or leaves that name alone. */
  method CloseSaved(f: CFile, path: string) returns (r: CFileBuffer.Result<bool>)
    requires f.Valid() && Shielded(f, path) && f.safeWrite
    requires RemoveExt(f.filePath) == path != f.filePath
    modifies f`fd, f`pending, f`filePath, f.fs, f.Drainable()
    ensures f.Valid() && Onward(f.fs.tally, old(f.fs.tally))
    ensures r.Err? ==> f.fd == old(f.fd) && Shielded(f, path)
    ensures r == Ok(true) ==>
              f.fs.Content(path) == Some(old(Logical(f.Abs())).bytes) && old(f.filePath) !in f.fs.names
    ensures r != Ok(true) ==> f.fs.Content(path) == old(f.fs.Content(path)) && Disturbed(f.fs)
  {
    r := f.Close();
    assert r.Ok? && r.value ==> r == Ok(true);
  }

  /** Whatever the destructor does, it leaves that name alone. */
  method DropSaved(f: CFile, path: string) returns (ending: Ending)
    requires f.Valid() && Shielded(f, path)
    modifies f, f.fs, f.Drainable()
    ensures f.fs.Content(path) == old(f.fs.Content(path))
    ensures (ending == Dropped || ending == Terminated)
    ensures Destroyed(f.fs.tally, old(f.fs.tally), ending == Terminated)
  {
    var aborted := f.Destroy();
    return if aborted then Terminated else Dropped;
  }

  /** Writing does not touch that name either. */
  method DriveShielded(f: CFile, path: string, ops: seq<Op>) returns (failed: bool)
    requires f.Valid() && Shielded(f, path)
    modifies f`pending, f`buffer, f.Footprint(), f.fs`tally
    ensures f.Valid() && Shielded(f, path) && f.fs.Content(path) == old(f.fs.Content(path))
    ensures Onward(f.fs.tally, old(f.fs.tally)) && (failed ==> Disturbed(f.fs) || AnyRefused(old(f.Abs()), ops))
    ensures !failed ==> f.Abs() == LazyRun(old(f.Abs()), ops).0
  {
    var outs;
    outs, failed := Drive(f, ops);
  }

  method SaveOpened(f: CFile, path: string, ops: seq<Op>, drop: bool) returns (ending: Ending)
    requires f.Valid() && Shielded(f, path) && f.safeWrite
    requires RemoveExt(f.filePath) == path != f.filePath
    modifies f, f.fs, f.Footprint()
    ensures ending != Closed(true) ==> f.fs.Content(path) == old(f.fs.Content(path))
    ensures ending != Closed(true) ==> drop || Disturbed(f.fs) || AnyRefused(old(f.Abs()), ops)
    ensures ending == Closed(true) ==>
              && f.fs.Content(path) == Some(Logical(LazyRun(old(f.Abs()), ops).0).bytes)
              && old(f.filePath) !in f.fs.names
    ensures Destroyed(f.fs.tally, old(f.fs.tally), ending == Terminated)
  {
    var failed := DriveShielded(f, path, ops);
    if !failed && !drop {
      var closed := CloseSaved(f, path);
      if closed.Ok? {
        return Closed(closed.value);
      }
    }
    ending := DropSaved(f, path);
  }

  const CLONE_BUFFER_SIZE: nat := 1048576

  /** `Threw`: the exception of an empty path, which the clone does not catch. `Aborted`: the destructor of the
      target could not write what was still pending, which ends the process. */
  datatype CloneOutcome = Cloned | NotCloned | Threw | Aborted

  /** The source has been read up to `copied`. */
  ghost predicate SourceAt(source: CFile, whole: seq<byte>, copied: int)
    reads source, source.Footprint()
  {
    && source.Valid() && source.IsOpened() && source.pending == 0 && source.buffer == null
    && 0 <= copied <= |whole| && source.fd.File() == File(whole, copied, true, false, false)
  }

  /** The target holds as much, some of it perhaps still pending. */
  ghost predicate TargetAt(target: CFile, whole: seq<byte>, copied: int)
    reads target, target.Footprint()
  {
    && target.Valid() && target.IsOpened()
    && 0 <= copied <= |whole| && Logical(target.Abs()) == File(whole[..copied], copied, false, true, false)
  }

  /** The first `copied` bytes of `whole` have gone from the source to the target. */
  ghost predicate Copying(source: CFile, target: CFile, whole: seq<byte>, copied: int)
    reads source, source.Footprint(), target, target.Footprint()
  {
    && SourceAt(source, whole, copied) && TargetAt(target, whole, copied)
    && source != target && source.fd != target.fd && source.fd.inode != target.fd.inode && source.fs == target.fs
  }

  /** A full disk takes what fits in the buffer, and nothing else. */
  ghost predicate Taken(target: CFile, chunk: nat, ok: bool)
    reads target`pending
  {
    ok == (chunk < WRITE_BUFFER_SIZE) && target.pending == if ok then chunk else 0
  }

  method FetchChunk(source: CFile, chunk: nat, ghost whole: seq<byte>, ghost copied: nat)
    returns (r: CFileBuffer.Result<seq<byte>>)
    requires SourceAt(source, whole, copied) && copied + chunk <= |whole|
    modifies source`pending, source.fd, source.fs`tally
    ensures source.Valid() && source.pending == 0
    ensures Onward(source.fs.tally, old(source.fs.tally)) && (r.Err? ==> Disturbed(source.fs))
    ensures source.fs.full ==> r.Ok?
    ensures r.Ok? ==> r.value == whole[copied..copied + chunk] && SourceAt(source, whole, copied + chunk)
  {
    r := source.Read(chunk);
    assert whole[copied..][..chunk] == whole[copied..copied + chunk];
  }

  /** At the end of what the target holds. */
  method WriteChunk(target: CFile, data: seq<byte>, ghost whole: seq<byte>, ghost copied: nat)
    returns (r: CFileBuffer.Result<()>)
    requires TargetAt(target, whole, copied) && data <= whole[copied..]
    modifies target`pending, target`buffer, target.Footprint(), target.fs`tally
    ensures target.Valid() && (target.buffer == old(target.buffer) || fresh(target.buffer))
    ensures Onward(target.fs.tally, old(target.fs.tally)) && (r.Err? ==> Disturbed(target.fs))
    ensures r.Ok? ==> TargetAt(target, whole, copied + |data|)
    ensures target.fs.full && old(target.pending) == 0 && data != [] ==> Taken(target, |data|, r.Ok?)
  {
    LazilyRefinesDirect(target.Abs(), Write(data));
    WrittenAtEnd(Logical(target.Abs()), data);
    assert whole[..copied] + data == whole[..copied + |data|];
    var written := target.DoWrite(data);
    return if written.Err? then Err(written.error) else Ok(());
  }

  method CopyChunk(source: CFile, target: CFile, chunk: nat, ghost whole: seq<byte>, ghost copied: nat)
    returns (r: CFileBuffer.Result<()>)
    requires Copying(source, target, whole, copied) && copied + chunk <= |whole|
    modifies source`pending, source.fd, source.fs`tally
    modifies target`pending, target`buffer, target.Footprint()
    ensures source.Valid() && source.pending == 0 && target.Valid()
    ensures target.buffer == old(target.buffer) || fresh(target.buffer)
    ensures Onward(source.fs.tally, old(source.fs.tally)) && (r.Err? ==> Disturbed(source.fs))
    ensures r.Ok? ==> Copying(source, target, whole, copied + chunk)
    ensures target.fs.full && old(target.pending) == 0 && chunk > 0 ==> Taken(target, chunk, r.Ok?)
  {
    var data := FetchChunk(source, chunk, whole, copied);
    if data.Err? {
      return Err(data.error);
    }
    r := WriteChunk(target, data.value, whole, copied);
  }

  method CopyAll(source: CFile, target: CFile, length: nat, ghost whole: seq<byte>)
    returns (r: CFileBuffer.Result<()>)
    requires Copying(source, target, whole, 0) && length == |whole|
    requires source.buffer == null == target.buffer && source.fs == target.fs && target.pending == 0
    modifies source`pending, source.fd, source.fs`tally
    modifies target`pending, target`buffer, target.fd, target.fd.inode
    ensures source.Valid() && source.pending == 0 && target.Valid()
    ensures Onward(source.fs.tally, old(source.fs.tally)) && (r.Err? ==> Disturbed(source.fs))
    ensures r.Ok? ==> Logical(target.Abs()).bytes == whole
    ensures target.fs.full && length > 0 ==> Taken(target, length, r.Ok?)
  {
    ghost var copied: nat := 0;
    var remaining := length;
    while remaining > 0
      invariant copied + remaining == |whole| && Onward(source.fs.tally, old(source.fs.tally))
      invariant target.buffer == null || fresh(target.buffer)
      invariant Copying(source, target, whole, copied)
      invariant copied == 0 ==> target.pending == 0
      invariant target.fs.full && copied > 0 ==> remaining == 0 && Taken(target, length, true)
    {
      var chunk := if remaining < CLONE_BUFFER_SIZE then remaining else CLONE_BUFFER_SIZE;
      var done := CopyChunk(source, target, chunk, whole, copied);
      if done.Err? {
        return Err(done.error);
      }
      remaining := remaining - chunk;
      copied := copied + chunk;
    }
    assert whole[..copied] == whole;
    return Ok(());
  }

  /** Two fresh handles, the target's file empty and nothing pending in either. */
  ghost predicate Ready(source: CFile, target: CFile)
    reads source, source.Footprint(), target, target.Footprint()
  {
    && source.Valid() && source.IsOpened() && target.Valid() && target.IsOpened()
    && source != target && source.fd != target.fd && source.fs == target.fs
    && source.pending == 0 && source.fd.File() == File(source.fd.inode.bytes, 0, true, false, false)
    && target.pending == 0 && target.fd.File() == File([], 0, false, true, false)
    && source.buffer == null == target.buffer && !target.safeWrite
    && (source.fd.inode == target.fd.inode ==> source.fd.inode.bytes == [])
  }

  /** All there is in the source goes to the target, which may keep some of it pending. */
  method CopyWhole(source: CFile, target: CFile) returns (r: CFileBuffer.Result<()>)
    requires Ready(source, target)
    modifies source`pending, source.fd, source.fs`tally
    modifies target`pending, target`buffer, target.fd, target.fd.inode
    ensures source.Valid() && source.pending == 0 && target.Valid()
    ensures Onward(source.fs.tally, old(source.fs.tally)) && (r.Err? ==> Disturbed(source.fs))
    ensures r.Ok? ==> Logical(target.Abs()).bytes == old(source.fd.inode.bytes)
    ensures target.fs.full ==> Taken(target, |old(source.fd.inode.bytes)|, r.Ok?)
  {
    var length := source.GetLength();
    if length.Err? {
      return Err(length.error);
    }
    if length.value == 0 {
      return Ok(());
    }
    r := CopyAll(source, target, length.value, source.fd.inode.bytes);
  }

  /** The guarded part: copy everything, then close the target to surface deferred errors. */
  method CopyContents(source: CFile, target: CFile) returns (ok: bool)
    requires Ready(source, target)
    modifies source`pending, source.fd
    modifies target`fd, target`filePath, target`pending, target`buffer, target.fd, target.fd.inode, target.fs
    ensures source.Valid() && source.pending == 0 && target.Valid() && target.fs.names == old(target.fs.names)
    ensures target.fd == old(target.fd) || !target.IsOpened()
    ensures Onward(target.fs.tally, old(target.fs.tally)) && (!ok ==> Disturbed(target.fs))
    ensures ok ==> !target.IsOpened() && old(target.fd).inode.bytes == old(source.fd.inode.bytes)
    ensures target.fs.full ==>
              var size := |old(source.fd.inode.bytes)|;
              ok == (size == 0) && (!ok ==> target.pending == if size < WRITE_BUFFER_SIZE then size else 0)
  {
    var done := CopyWhole(source, target);
    if done.Err? {
      return false;
    }
    var closed := target.Close();
    return closed.Ok? && closed.value;
  }

  /** What closing reports is not looked at. */
  method CloseQuietly(target: CFile)
    requires target.Valid() && !target.safeWrite
    modifies target`fd, target`pending, target`filePath, target.fs, target.Handle()
    ensures target.Valid() && target.fs.names == old(target.fs.names)
    ensures Onward(target.fs.tally, old(target.fs.tally))
    ensures target.fd == old(target.fd) || !target.IsOpened()
    ensures target.IsOpened() ==> target.fs.tally.errors > old(target.fs.tally.errors)
    ensures target.fs.full ==> (target.pending > 0 <==> old(target.pending) > 0)
  {
    if target.IsOpened() {
      var ignored := target.Close();
    }
  }

  /** The clean-up after a failed copy: the target is closed if that can be done, its name removed, and both objects
      destroyed. The process ends exactly if the target is still open then. */
  method GiveUp(source: CFile, target: CFile, dst: string) returns (outcome: CloneOutcome)
    requires source.Valid() && source.IsOpened() && target.Valid() && source.pending == 0
    requires source != target && source.fs == target.fs && source.fd != target.fd && !target.safeWrite
    modifies source, target, source.fs, source.fd, target.Handle()
    ensures outcome == NotCloned || (outcome == Aborted && target.fs.tally.errors >= old(target.fs.tally.errors) + 2)
    ensures outcome == Aborted <==> target.IsOpened()
    ensures CleanedUp(target.fs, dst, outcome)
    ensures target.fs.full ==> (outcome == Aborted <==> old(target.pending) > 0)
  {
    CloseQuietly(target);
    var removed := target.fs.Unlink(dst);
    var aborted := target.Destroy();
    var dropped := source.Destroy();
    return if aborted then Aborted else NotCloned;
  }

  /** The name is gone unless it could not be removed, and the process has ended exactly if a destructor failed. */
  twostate predicate CleanedUp(fs: FileSystem, dst: string, outcome: CloneOutcome)
    reads fs
  {
    && Follows(fs.tally, old(fs.tally)) && fs.tally.outputs == old(fs.tally.outputs)
    && fs.tally.aborts == old(fs.tally.aborts) + (if outcome == Aborted then 1 else 0)
    && (fs.names == old(fs.names) - {dst} || (fs.names == old(fs.names) && fs.tally.kept > old(fs.tally.kept)))
  }

  /** How a clone of so many bytes ends on a full disk: what fits in the buffer is pending when the target is
      destroyed, and what does not is refused at once. */
  function OnFullDisk(size: nat): CloneOutcome {
    if size == 0 then Cloned else if size < WRITE_BUFFER_SIZE then Aborted else NotCloned
  }

  /** Everything after both files are open, clean-up included. */
  method CloneBetween(source: CFile, target: CFile, dst: string) returns (outcome: CloneOutcome)
    requires Ready(source, target)
    modifies source, source.fd, target, target.fd, target.fd.inode, target.fs
    ensures outcome != Threw
    ensures outcome == Cloned ==>
              && target.fs.names == old(target.fs.names) && Onward(target.fs.tally, old(target.fs.tally))
              && old(target.fd).inode.bytes == old(source.fd.inode.bytes)
    ensures outcome != Cloned ==> Disturbed(target.fs) && CleanedUp(target.fs, dst, outcome)
    ensures outcome == Aborted ==> target.fs.tally.errors >= old(target.fs.tally.errors) + 2
    ensures target.fs.full ==> outcome == OnFullDisk(|old(source.fd.inode.bytes)|)
  {
    var ok := CopyContents(source, target);
    if ok {
      var dropped := source.Destroy();
      return Cloned;
    }
    outcome := GiveUp(source, target, dst);
  }

  /** `source` and `target` named the same file before the call. */
  twostate predicate SameFile(fs: FileSystem, src: string, dst: string)
    reads fs
  {
    src in old(fs.names) && dst in old(fs.names) && old(fs.names)[src] == old(fs.names)[dst]
  }

  /** Opening the target empties the source as well if they are the same file. */
  method OpenTarget(source: CFile, dst: string) returns (target: CFile, started: CFileBuffer.Result<bool>)
    requires source.Valid() && source.IsOpened() && source.pending == 0 && source.buffer == null
    requires source.fd.File() == File(source.fd.inode.bytes, 0, true, false, false)
    modifies source.fs, if dst in source.fs.names then {source.fs.names[dst]} else {}
    ensures fresh(target) && Follows(source.fs.tally, old(source.fs.tally))
    ensures started.Err? <==> dst == ""
    ensures var fs, ok := source.fs, started.Ok? && started.value;
            && fs.tally.kept == old(fs.tally.kept) && fs.tally.aborts == old(fs.tally.aborts)
            && fs.tally.outputs == old(fs.tally.outputs) + (if ok then 1 else 0)
            && (!ok ==> fs.names == old(fs.names) && fs.Content(dst) == old(fs.Content(dst)))
            && (!ok && dst != "" ==> fs.tally.errors > old(fs.tally.errors) && !fs.full)
            && (ok ==>
                  && Ready(source, target) && fresh(target.fd) && dst in fs.names && fs.names[dst] == target.fd.inode
                  && (if dst in old(fs.names) then fs.names == old(fs.names)
                      else fs.names == old(fs.names)[dst := target.fd.inode] && fresh(target.fd.inode)))
    ensures source.Valid() && source.fd.File() == File(source.fd.inode.bytes, 0, true, false, false)
    ensures source.fd.inode.bytes ==
              if dst in old(source.fs.names) && old(source.fs.names[dst]) == source.fd.inode
                 && started.Ok? && started.value then [] else old(source.fd.inode.bytes)
  {
    target := new CFile(source.fs);
    started := target.Open(dst, ForWrite);
  }

  /** The rest of the clone, once the source is open. */
  method CloneTo(source: CFile, dst: string) returns (outcome: CloneOutcome)
    requires source.Valid() && source.IsOpened() && source.pending == 0 && source.buffer == null
    requires source.fd.File() == File(source.fd.inode.bytes, 0, true, false, false)
    modifies source, source.fd, source.fs, if dst in source.fs.names then {source.fs.names[dst]} else {}
    ensures Follows(source.fs.tally, old(source.fs.tally))
    ensures var fs, s := source.fs, old(source.fd).inode;
            && (outcome == Cloned ==> dst in fs.names && fs.names[dst].bytes == s.bytes)
            && OnlyTouches(fs, dst, outcome == Cloned)
            && (if dst in old(fs.names) && old(fs.names[dst]) == s then outcome == Cloned ==> s.bytes == []
                else s.bytes == old(s.bytes))
            && (outcome != Cloned ==> dst == "" || Disturbed(fs))
            && (outcome == Threw ==> dst == "")
            && (if fs.tally.outputs == old(fs.tally.outputs)
                then outcome != Cloned && outcome != Aborted && fs.names == old(fs.names)
                     && fs.Content(dst) == old(fs.Content(dst))
                else outcome == Cloned || dst !in fs.names || fs.tally.kept > old(fs.tally.kept))
            && (outcome == Aborted ==> fs.tally.errors >= old(fs.tally.errors) + 2)
            && (outcome == Aborted <==> fs.tally.aborts > old(fs.tally.aborts))
            && (fs.full && dst != "" ==>
                  outcome == OnFullDisk(if dst in old(fs.names) && old(fs.names[dst]) == s then 0 else |old(s.bytes)|))
  {
    var target, started := OpenTarget(source, dst);
    if started.Err? || !started.value {
      var dropped := source.Destroy();
      return if started.Err? then Threw else NotCloned;
    }
    outcome := CloneBetween(source, target, dst);
  }

  /** Names lead where they did, but for `dst`, which may be a new one, or be gone unless all is kept. */
  twostate predicate OnlyTouches(fs: FileSystem, dst: string, all: bool)
    reads fs`names
  {
    && (forall n | n in fs.names :: if n in old(fs.names) then fs.names[n] == old(fs.names[n]) else n == dst)
    && (forall n | n in old(fs.names) && (all || n != dst) :: n in fs.names)
  }

  /** A clone that reports success leaves equal contents; one that fails after the target was opened leaves no
      target unless removing it fails too. The source keeps its bytes unless it is the target itself, in which
      case opening the target has emptied it and an empty file is "copied". A clone fails only for want of a source,
      for a target it must not touch, or because something below it went wrong. */
  method CloneFile(fs: FileSystem, src: string, dst: string, overwrite: bool) returns (outcome: CloneOutcome)
    modifies fs, if src in fs.names then {fs.names[src]} else {}, if dst in fs.names then {fs.names[dst]} else {}
    ensures outcome == Cloned ==> dst in fs.names && fs.Content(dst) == fs.Content(src)
    ensures outcome == Cloned && SameFile(fs, src, dst) ==> fs.Content(dst) == Some([])
    ensures src in old(fs.names) && src in fs.names && !SameFile(fs, src, dst) ==>
              fs.Content(src) == old(fs.Content(src))
    ensures Follows(fs.tally, old(fs.tally))
    ensures outcome != Cloned && fs.tally.outputs > old(fs.tally.outputs) ==>
              dst !in fs.names || fs.tally.kept > old(fs.tally.kept)
    ensures fs.tally.outputs == old(fs.tally.outputs) ==>
              outcome != Cloned && fs.names == old(fs.names) && fs.Content(dst) == old(fs.Content(dst))
    ensures outcome == Aborted ==>
              fs.tally.outputs > old(fs.tally.outputs) && fs.tally.errors >= old(fs.tally.errors) + 2
    ensures outcome == Aborted <==> fs.tally.aborts > old(fs.tally.aborts)
    ensures outcome == Threw ==> src == "" || dst == ""
    ensures fs.full && src != "" && dst != "" && src in old(fs.names) && (overwrite || dst !in old(fs.names)) ==>
              outcome == OnFullDisk(if SameFile(fs, src, dst) then 0 else |old(fs.names[src].bytes)|)
    ensures outcome != Cloned ==>
              (src == "" || dst == "" || src !in old(fs.names) || (!overwrite && dst in old(fs.names)) || Disturbed(fs))
    ensures !overwrite && dst in old(fs.names) ==> outcome == NotCloned && fs.tally == old(fs.tally)
  {
    if !overwrite && dst in fs.names {
      return NotCloned;
    }
    var source := new CFile(fs);
    var started := source.Open(src, ForRead);
    if started.Err? {
      return Threw;
    }
    if !started.value {
      return NotCloned;
    }
    outcome := CloneTo(source, dst);
  }

  /** On a system where nothing goes wrong, cloning a file onto itself succeeds, and empties it. */
  method CloneOntoItself(fs: FileSystem, path: string) returns (outcome: CloneOutcome)
    requires path != "" && path in fs.names
    modifies fs, fs.names[path]
    ensures Disturbed(fs) || (outcome == Cloned && fs.Content(path) == Some([]))
  {
    outcome := CloneFile(fs, path, path, true);
  }

  /** On a full disk where nothing else goes wrong, cloning onto another file that may be written succeeds exactly
      for an empty one, ends the process for one that fits in the buffer, and is refused otherwise. */
  method CloneOnFullDisk(fs: FileSystem, src: string, dst: string) returns (outcome: CloneOutcome)
    requires fs.full && src in fs.names && src != "" && dst != ""
    requires dst in fs.names ==> fs.names[dst] != fs.names[src]
    modifies fs, fs.names[src], if dst in fs.names then {fs.names[dst]} else {}
    ensures outcome == OnFullDisk(|old(fs.names[src].bytes)|)
  {
    outcome := CloneFile(fs, src, dst, true);
  }

  // ----- File after file -----

  datatype Session = Session(path: string, mode: OpenMode, ops: seq<Op>)

  /** What the names of a file system show. */
  ghost function Shown(fs: FileSystem): map<string, seq<byte>>
    reads fs`names, set n | n in fs.names :: fs.names[n]
  {
    map n | n in fs.names :: fs.names[n].bytes
  }

  /** The file a mode opens for a path, given what is there. */
  ghost function Begun(disk: map<string, seq<byte>>, path: string, mode: OpenMode): File {
    var name := NameFor(path, mode);
    File(if name in disk && !StartsOver(mode) then disk[name] else [], 0,
         mode == ForRead || mode == ForReadWrite, mode != ForRead, mode == ForAppend && path in disk)
  }

  /** The disk once the file `name` holds `bytes` and is closed, in safe mode under its real name. */
  ghost function Left(disk: map<string, seq<byte>>, name: string,
                        bytes: seq<byte>, safe: bool): map<string, seq<byte>>
  {
    if safe then (disk - {name})[RemoveExt(name) := bytes] else disk[name := bytes]
  }

  /** Opening, using and closing a file without any buffer; in safe mode the file then takes its real name. */
  ghost function Once(disk: map<string, seq<byte>>, s: Session): (map<string, seq<byte>>, seq<Out>) {
    var (f, outs) := DirectRun(Begun(disk, s.path, s.mode), s.ops);
    (Left(disk, NameFor(s.path, s.mode), f.bytes, s.mode == ForSafeWrite), outs)
  }

  ghost function Sessions(disk: map<string, seq<byte>>, ss: seq<Session>): (map<string, seq<byte>>, seq<seq<Out>>) {
    if ss == [] then (disk, [])
    else
      var (before, outs) := Sessions(disk, ss[..|ss| - 1]);
      var (after, out) := Once(before, ss[|ss| - 1]);
      (after, outs + [out])
  }

  /** No use asking: there is no such file, there must be none, or some operation is not for this mode. */
  ghost predicate Hopeless(disk: map<string, seq<byte>>, s: Session) {
    || s.path == ""
    || CannotOpen(s.mode, NameFor(s.path, s.mode) in disk)
    || AnyRefused(Buffered(Begun(disk, s.path, s.mode), []), s.ops)
  }

  /** No other name leads to the same file. */
  ghost predicate Alone(names: map<string, Inode>, n: string)
    requires n in names
  {
    forall m | m in names && m != n :: names[m] != names[n]
  }

  ghost predicate AllAlone(names: map<string, Inode>) {
    forall n {:trigger Alone(names, n)} | n in names :: Alone(names, n)
  }

  ghost predicate NoLinks(fs: FileSystem)
    reads fs`names
  {
    AllAlone(fs.names)
  }

  ghost function Inodes(fs: FileSystem): set<Inode>
    reads fs`names
  {
    Range(fs.names)
  }

  ghost function Range(names: map<string, Inode>): set<Inode> {
    set n | n in names :: names[n]
  }

  /** The open file is the one its name leads to, and no other name does. */
  ghost predicate AtItsName(f: CFile)
    reads f`fd, f`filePath, f.fs`names
  {
    && f.fd != null && f.filePath in f.fs.names && f.fs.names[f.filePath] == f.fd.inode
    && Alone(f.fs.names, f.filePath)
  }

  twostate predicate OldOrNew(fs: FileSystem)
    reads fs`names
  {
    forall i | i in Inodes(fs) :: i in old(Inodes(fs)) || fresh(i)
  }

  method Begin(f: CFile, path: string, mode: OpenMode) returns (ok: bool)
    requires f.Valid() && !f.IsOpened() && NoLinks(f.fs)
    modifies f, f.fs, Inodes(f.fs)
    ensures f.Valid() && ok == f.IsOpened() && f.buffer == old(f.buffer) && OldOrNew(f.fs) && NoLinks(f.fs)
    ensures Follows(f.fs.tally, old(f.fs.tally)) && f.fs.tally.aborts == old(f.fs.tally.aborts)
    ensures !ok ==>
              path == "" || Disturbed(f.fs) ||
              CannotOpen(mode, NameFor(path, mode) in old(f.fs.names))
    ensures ok ==>
              && AtItsName(f) && fresh(f.fd) && f.filePath == NameFor(path, mode)
              && f.safeWrite == (mode == ForSafeWrite)
              && f.Abs() == Buffered(Begun(old(Shown(f.fs)), path, mode), [])
              && Shown(f.fs) == old(Shown(f.fs))[f.filePath := f.fd.inode.bytes]
  {
    ghost var was := f.fs.names;
    var started := f.Open(path, mode);
    ok := f.IsOpened();
    if ok {
      OneMoreAlone(was, f.fs.names, f.filePath);
    }
  }

  lemma OneMoreAlone(was: map<string, Inode>, names: map<string, Inode>, name: string)
    requires AllAlone(was) && name in names && names == was[name := names[name]]
    requires if name in was then was[name] == names[name] else forall m | m in was :: was[m] != names[name]
    ensures AllAlone(names)
  {
    forall n | n in names ensures Alone(names, n) {
      assert n in was ==> Alone(was, n);
    }
  }

  /** Only what its own name shows may change. */
  method UseHere(f: CFile, ops: seq<Op>) returns (outs: seq<Out>, failed: bool)
    requires f.Valid() && AtItsName(f)
    modifies f`pending, f`buffer, f.Footprint(), f.fs`tally
    ensures f.Valid() && (f.buffer == old(f.buffer) || fresh(f.buffer))
    ensures Shown(f.fs) == old(Shown(f.fs))[f.filePath := f.fd.inode.bytes] && Onward(f.fs.tally, old(f.fs.tally))
    ensures failed ==> Disturbed(f.fs) || AnyRefused(old(f.Abs()), ops)
    ensures !failed ==> (Logical(f.Abs()), outs) == DirectRun(old(Logical(f.Abs())), ops)
  {
    BufferIsUnobservable(f.Abs(), ops);
    ghost var shown, names := Shown(f.fs), f.fs.names;
    outs, failed := Drive(f, ops);
    OnlyHere(names, shown, Shown(f.fs), f.filePath);
  }

  lemma OnlyHere(names: map<string, Inode>, disk: map<string, seq<byte>>, after: map<string, seq<byte>>, name: string)
    requires name in names && disk.Keys == names.Keys == after.Keys
    requires forall m | m in names && m != name :: after[m] == disk[m]
    ensures after == disk[name := after[name]]
  {}

  /** It does not matter what the name showed before. */
  lemma LeftAnyway(disk: map<string, seq<byte>>, name: string, before: seq<byte>, bytes: seq<byte>, safe: bool)
    ensures Left(disk[name := before], name, bytes, safe) == Left(disk, name, bytes, safe)
  {
    assert disk[name := before] - {name} == disk - {name};
    assert disk[name := before][name := bytes] == disk[name := bytes];
  }

  /** Closing moves names about, and the bytes of everything but the closed file stay as they were. */
  lemma LeftShown(was: map<string, Inode>, names: map<string, Inode>, name: string, safe: bool,
                  disk: map<string, seq<byte>>, after: map<string, seq<byte>>)
    requires name in was && names == (if safe then Renamed(was, name) else was)
    requires disk.Keys == was.Keys && after.Keys == names.Keys
    requires forall m | m in was && m in names && was[m] == names[m] && m != name :: after[m] == disk[m]
    ensures var closed := if safe then RemoveExt(name) else name;
            closed in after && after == Left(disk, name, after[closed], safe)
  {
    var closed := if safe then RemoveExt(name) else name;
    forall n | n in names && n != closed ensures n in disk && after[n] == disk[n] {
      assert names[n] == was[n];
    }
  }

  /** The names stay, or one moves to its real place. */
  ghost predicate MovedAtMost(was: map<string, Inode>, names: map<string, Inode>, name: string, safe: bool) {
    names == was || (safe && name in was && names == Renamed(was, name))
  }

  lemma StillAlone(was: map<string, Inode>, names: map<string, Inode>, name: string, safe: bool)
    requires AllAlone(was) && MovedAtMost(was, names, name, safe)
    ensures AllAlone(names)
    ensures Range(names) <= Range(was)
  {
    forall n | n in names ensures Alone(names, n) && names[n] in Range(was) {
      var m := if names != was && n == RemoveExt(name) then name else n;
      assert Alone(was, m) && was[m] == names[n];
    }
  }

  /** But for the open file, the disk shows `disk`. */
  method End(f: CFile, ghost disk: map<string, seq<byte>>) returns (done: bool, aborted: bool)
    requires f.Valid() && AtItsName(f) && Shown(f.fs) == disk[f.filePath := f.fd.inode.bytes]
    modifies f, f.fs, f.Handle()
    ensures MovedAtMost(old(f.fs.names), f.fs.names, old(f.filePath), old(f.safeWrite))
    ensures Destroyed(f.fs.tally, old(f.fs.tally), aborted) && (!done ==> Disturbed(f.fs)) && (aborted ==> !done)
    ensures done ==>
              Shown(f.fs) == Left(disk, old(f.filePath), old(Logical(f.Abs())).bytes, old(f.safeWrite))
  {
    ghost var names, shown, name, safe := f.fs.names, Shown(f.fs), f.filePath, f.safeWrite;
    LeftAnyway(disk, name, f.fd.inode.bytes, Logical(f.Abs()).bytes, safe);
    var closed := f.Close();
    if closed.Err? {
      aborted := f.Destroy();
      return false, aborted;
    }
    done, aborted := closed.value, false;
    if done {
      LeftShown(names, f.fs.names, name, safe, shown, Shown(f.fs));
    }
  }

  /** Everything that is done with a file once it is open. */
  method UseAndEnd(f: CFile, ops: seq<Op>, ghost disk: map<string, seq<byte>>)
    returns (outs: seq<Out>, done: bool, aborted: bool)
    requires f.Valid() && AtItsName(f) && Shown(f.fs) == disk[f.filePath := f.fd.inode.bytes]
    modifies f, f.fs, f.Footprint()
    ensures MovedAtMost(old(f.fs.names), f.fs.names, old(f.filePath), old(f.safeWrite))
    ensures Destroyed(f.fs.tally, old(f.fs.tally), aborted) && (aborted ==> !done)
    ensures !done ==> Disturbed(f.fs) || AnyRefused(old(f.Abs()), ops)
    ensures done ==>
              var (end, answers) := DirectRun(old(Logical(f.Abs())), ops);
              outs == answers && Shown(f.fs) == Left(disk, old(f.filePath), end.bytes, old(f.safeWrite))
  {
    ghost var name, bytes := f.filePath, f.fd.inode.bytes;
    var failed;
    outs, failed := UseHere(f, ops);
    assert disk[name := bytes][name := f.fd.inode.bytes] == disk[name := f.fd.inode.bytes];
    if failed {
      aborted := f.Destroy();
      return outs, false, aborted;
    }
    done, aborted := End(f, disk);
  }

  /** One file, opened in any mode, used at will and closed: the disk shows what it would without the buffer. */
  method OneSession(fs: FileSystem, s: Session) returns (outs: seq<Out>, done: bool, aborted: bool)
    requires NoLinks(fs)
    modifies fs, Inodes(fs)
    ensures NoLinks(fs) && OldOrNew(fs)
    ensures done ==> (Shown(fs), outs) == Once(old(Shown(fs)), s)
    ensures Follows(fs.tally, old(fs.tally)) && (!done ==> Disturbed(fs) || Hopeless(old(Shown(fs)), s))
    ensures (aborted ==> !done) && (aborted <==> fs.tally.aborts > old(fs.tally.aborts))
  {
    ghost var disk := Shown(fs);
    var f := new CFile(fs);
    var ok := Begin(f, s.path, s.mode);
    if !ok {
      return [], false, false;
    }
    ghost var names, name, safe := fs.names, f.filePath, f.safeWrite;
    outs, done, aborted := UseAndEnd(f, s.ops, disk);
    StillAlone(names, fs.names, name, safe);
  }

  /** And so for file after file: the disk at the end, and all that was answered on the way. The process ends exactly
      if a destructor could not write what was pending. */
  method RunSessions(fs: FileSystem, ss: seq<Session>) returns (outs: seq<seq<Out>>, done: bool, aborted: bool)
    requires NoLinks(fs)
    modifies fs, Inodes(fs)
    ensures NoLinks(fs) && OldOrNew(fs)
    ensures done ==> (Shown(fs), outs) == Sessions(old(Shown(fs)), ss)
    ensures Follows(fs.tally, old(fs.tally))
    ensures (aborted ==> !done) && (aborted <==> fs.tally.aborts > old(fs.tally.aborts))
    ensures !done ==>
              Disturbed(fs) || exists i: nat :: i < |ss| && Hopeless(Sessions(old(Shown(fs)), ss[..i]).0, ss[i])
    decreases |ss|
  {
    if ss == [] {
      return [], true, false;
    }
    outs, done, aborted := RunSessions(fs, ss[..|ss| - 1]);
    assert forall i: nat | i < |ss| - 1 :: ss[..|ss| - 1][..i] == ss[..i];
    if done {
      var out;
      out, done, aborted := OneSession(fs, ss[|ss| - 1]);
      outs := outs + [out];
    }
  }
}
