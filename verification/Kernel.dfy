/** The operating system under src/CFile.cpp: names, the files they name, and open descriptors. Every call
    may fail; a write may stop short and a read may return less than was asked for. */
module Kernel {
  import opened Common
  import opened FileModel

  class Inode {
    var bytes: seq<byte>

    constructor ()
      ensures bytes == []
    {
      bytes := [];
    }
  }

  datatype Flags = Flags(readable: bool, writable: bool, append: bool, create: bool, truncate: bool, exclusive: bool)

  /** What has gone other than hoped: calls that failed for no fault of the caller's, writes that stopped short
      without failing, and names that could not be removed. Files opened for writing are counted beside them, and
      destructors that could not write what was pending. */
  datatype Tally = Tally(errors: nat, shorts: nat, kept: nat, outputs: nat, aborts: nat)

  predicate Follows(now: Tally, before: Tally) {
    && before.errors <= now.errors && before.shorts <= now.shorts
    && before.kept <= now.kept && before.outputs <= now.outputs && before.aborts <= now.aborts
  }

  /** The same, and nothing was opened, removed or destroyed meanwhile. */
  predicate Onward(now: Tally, before: Tally) {
    Follows(now, before) && now.kept == before.kept && now.outputs == before.outputs && now.aborts == before.aborts
  }

  /** The same, but for one destructor. */
  predicate Destroyed(now: Tally, before: Tally, aborted: bool) {
    && Follows(now, before) && now.kept == before.kept && now.outputs == before.outputs
    && now.aborts == before.aborts + (if aborted then 1 else 0)
  }

  function OneError(t: Tally, ok: bool): Tally {
    if ok then t else t.(errors := t.errors + 1)
  }

  /** An open file description. */
  class Descriptor {
    const fs: FileSystem
    const inode: Inode
    var pos: nat
    const readable: bool
    const writable: bool
    const append: bool

    constructor (fs: FileSystem, inode: Inode, flags: Flags)
      ensures this.fs == fs && this.inode == inode && pos == 0
      ensures readable == flags.readable && writable == flags.writable && append == flags.append
    {
      this.fs, this.inode, pos := fs, inode, 0;
      readable, writable, append := flags.readable, flags.writable, flags.append;
    }

    ghost function File(): File
      reads this, inode
    {
      FileModel.File(inode.bytes, pos, readable, writable, append)
    }

    method Write(data: seq<byte>) returns (n: int)
      requires data != []
      modifies this, inode, fs`tally
      ensures n == -1 || (0 < n <= |data| && writable && !fs.full)
      ensures File() == if n == -1 then old(File()) else Written(old(File()), data[..n])
      ensures fs.tally == if n == -1 then OneError(old(fs.tally), !writable)
                          else if n < |data| then old(fs.tally).(shorts := old(fs.tally).shorts + 1) else old(fs.tally)
    {
      if !writable {
        return -1;
      }
      var fails := *;
      if fails || fs.full {
        fs.tally := OneError(fs.tally, false);
        return -1;
      }
      n :| 0 < n <= |data|;
      if n < |data| {
        fs.tally := fs.tally.(shorts := fs.tally.shorts + 1);
      }
      var at := if append then |inode.bytes| else pos;
      inode.bytes := Overlay(inode.bytes, at, data[..n]);
      pos := at + n;
    }

    /** Nothing is returned only at the end of the file. */
    method Read(count: nat) returns (n: int, data: seq<byte>)
      requires 0 < count
      modifies this, fs`tally
      ensures fs.tally == OneError(old(fs.tally), n != -1 || !readable)
      ensures fs.full && readable ==> n != -1
      ensures n == -1 || (0 <= n == |data| <= count && readable && data <= Ahead(old(File())))
      ensures n == 0 ==> Ahead(old(File())) == []
      ensures File() == if n == -1 then old(File()) else old(File()).(pos := old(pos) + n)
    {
      data := [];
      if !readable {
        return -1, [];
      }
      var fails := *;
      if fails && !fs.full {
        fs.tally := OneError(fs.tally, false);
        return -1, [];
      }
      var ahead := if pos <= |inode.bytes| then inode.bytes[pos..] else [];
      n := 0;
      if ahead != [] {
        n :| 0 < n <= |ahead| && n <= count;
      }
      data := ahead[..n];
      pos := pos + n;
    }

    method Seek(offset: nat) returns (result: int)
      modifies this, fs`tally
      ensures result == -1 || result == offset
      ensures fs.tally == OneError(old(fs.tally), result != -1)
      ensures File() == if result == -1 then old(File()) else old(File()).(pos := offset)
    {
      if * {
        fs.tally := OneError(fs.tally, false);
        return -1;
      }
      pos := offset;
      return offset;
    }

    method Tell() returns (result: int)
      modifies fs`tally
      ensures result == pos || (result == -1 && !fs.full)
      ensures fs.tally == OneError(old(fs.tally), result != -1)
    {
      var fails := *;
      if fails && !fs.full {
        fs.tally := OneError(fs.tally, false);
        return -1;
      }
      return pos;
    }

    method Size() returns (result: int)
      modifies fs`tally
      ensures result == |inode.bytes| || (result == -1 && !fs.full)
      ensures fs.tally == OneError(old(fs.tally), result != -1)
    {
      var fails := *;
      if fails && !fs.full {
        fs.tally := OneError(fs.tally, false);
        return -1;
      }
      return |inode.bytes|;
    }

    method Truncate(n: nat) returns (ok: bool)
      modifies inode, fs`tally
      ensures ok ==> writable
      ensures fs.tally == OneError(old(fs.tally), ok || !writable)
      ensures File() == if ok then old(File()).(bytes := Resized(old(inode.bytes), n)) else old(File())
    {
      if !writable {
        return false;
      }
      if * {
        fs.tally := OneError(fs.tally, false);
        return false;
      }
      inode.bytes := Resized(inode.bytes, n);
      return true;
    }

    method Sync() returns (ok: bool)
      modifies fs`tally
      ensures fs.tally == OneError(old(fs.tally), ok)
    {
      ok := *;
      fs.tally := OneError(fs.tally, ok);
    }

    /** The descriptor is gone even when closing it reports an error. */
    method Close() returns (ok: bool)
      modifies fs`tally
      ensures fs.full ==> ok
      ensures fs.tally == OneError(old(fs.tally), ok)
    {
      ok := *;
      ok := ok || fs.full;
      fs.tally := OneError(fs.tally, ok);
    }
  }

  /** The caller's own fault: the file is missing, or must not be there. */
  predicate Unopenable(exists_: bool, flags: Flags) {
    if exists_ then flags.exclusive else !flags.create
  }

  function Opened(t: Tally, flags: Flags): Tally {
    if flags.writable then t.(outputs := t.outputs + 1) else t
  }

  class FileSystem {
    var names: map<string, Inode>
    ghost var tally: Tally

    /** The disk takes no more bytes; looking, opening, closing and removing do not fail then. */
    const full: bool

    /** The bytes a name shows when it is looked up. */
    ghost function Content(name: string): Option<seq<byte>>
      reads `names, if name in names then {names[name]} else {}
    {
      if name in names then Some(names[name].bytes) else None
    }

    /** What opening a name does: an existing file is found, and emptied if asked; a missing one is made. */
    method Open(path: string, flags: Flags) returns (fd: Descriptor?)
      modifies this, if path in names then {names[path]} else {}
      ensures tally == if fd != null then Opened(old(tally), flags)
                       else OneError(old(tally), Unopenable(path in old(names), flags))
      ensures fd == null ==> !full || Unopenable(path in old(names), flags)
      ensures fd == null ==> names == old(names) && (path in names ==> names[path].bytes == old(names[path].bytes))
      ensures fd != null ==>
                && fresh(fd) && fd.fs == this && fd.pos == 0
                && fd.readable == flags.readable && fd.writable == flags.writable && fd.append == flags.append
                && path in names && fd.inode == names[path]
                && if path in old(names) then
                     && !flags.exclusive
                     && names == old(names)
                     && fd.inode.bytes == (if flags.truncate then [] else old(names[path].bytes))
                   else
                     && flags.create
                     && fresh(fd.inode)
                     && names == old(names)[path := fd.inode]
                     && fd.inode.bytes == []
    {
      if Unopenable(path in names, flags) {
        return null;
      }
      var fails := *;
      if fails && !full {
        tally := OneError(tally, false);
        return null;
      }
      if path in names {
        if flags.truncate {
          names[path].bytes := [];
        }
      } else {
        var inode := new Inode();
        names := names[path := inode];
      }
      fd := new Descriptor(this, names[path], flags);
      tally := Opened(tally, flags);
    }

    method Rename(src: string, dst: string) returns (ok: bool)
      modifies this
      ensures tally == OneError(old(tally), ok || src !in old(names))
      ensures ok ==> src in old(names) && names == (old(names) - {src})[dst := old(names)[src]]
      ensures !ok ==> names == old(names)
    {
      if src !in names {
        return false;
      }
      if * {
        tally := OneError(tally, false);
        return false;
      }
      names := (names - {src})[dst := names[src]];
      return true;
    }

    method Unlink(name: string) returns (ok: bool)
      modifies this
      ensures full ==> ok
      ensures names == if ok then old(names) - {name} else old(names)
      ensures tally == if ok then old(tally) else OneError(old(tally), false).(kept := old(tally).kept + 1)
    {
      var fails := *;
      if fails && !full {
        tally := OneError(tally, false).(kept := tally.kept + 1);
        return false;
      }
      names := names - {name};
      return true;
    }
  }
}
