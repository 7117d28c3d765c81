/** The descriptor behind read, write, lseek, fsync and close: backed directly by
    the card, by a bounded cache in memory, or spilled from one to the other. */
module FileCache {
  import opened Wrappers
  import opened FatFile
  import opened PlainFile

  const FILE_CACHE_LIMIT: nat := 512 * 1024

  class CircleFile {
    var file: Fil
    var inUse: bool
    var contents: array<Byte>   // bytes of a cached file
    var capacity: nat          // bytes reserved for contents
    var size: nat
    var position: nat
    var mode: Mode
    var append: bool
    var writtenTo: bool
    var cached: bool

    ghost predicate Valid()
      reads this, file, contents
    {
      && file.Valid()
      && position <= size <= UINT_MAX
      && capacity == contents.Length
      && if cached then
           && size <= capacity <= FILE_CACHE_LIMIT
           && (!writtenTo ==> file.bytes == file.durable == contents[..size])
         else
           && capacity == 0
           && file.ptr == position && size == |file.bytes|
           && (!writtenTo ==> file.durable == file.bytes)
    }

    /** The bytes and cursor a client of the descriptor sees. */
    ghost function State(): Plain
      requires Valid()
      reads this, file, contents
    {
      Plain(if cached then contents[..size] else file.bytes, position)
    }

    function Options(): Opened
      reads this
    {
      Opened(mode, append, file.fullReads, file.fullWrites)
    }

    constructor (file: Fil)
      ensures !inUse && this.file == file && fresh(contents)
    {
      this.file, inUse, contents := file, false, new Byte[0];
      capacity, size, position := 0, 0, 0;
      mode, append, writtenTo, cached := ReadOnly, false, false, false;
    }

    // ---------------------------------------------------------------- cache

    /** Makes room for `required` bytes, doubling up to the limit; refuses more than that. */
    method EnsureFileCapacity(required: nat) returns (ok: bool)
      requires capacity == contents.Length <= FILE_CACHE_LIMIT
      modifies `contents, `capacity
      ensures ok <==> required <= FILE_CACHE_LIMIT
      ensures capacity == contents.Length <= FILE_CACHE_LIMIT && (ok ==> required <= capacity)
      ensures old(contents.Length) <= contents.Length
      ensures contents[..old(contents.Length)] == old(contents[..])
      ensures contents == old(contents) || fresh(contents)
    {
      if required <= capacity {
        return true;
      }
      if required > FILE_CACHE_LIMIT {
        return false;
      }
      var newCapacity := if capacity != 0 then capacity else 1024;
      while newCapacity < required
        invariant capacity <= newCapacity <= FILE_CACHE_LIMIT && 0 < newCapacity
        decreases FILE_CACHE_LIMIT - newCapacity
      {
        if newCapacity > FILE_CACHE_LIMIT / 2 {
          newCapacity := FILE_CACHE_LIMIT;
        } else {
          newCapacity := newCapacity * 2;
        }
      }
      var grown := new Byte[newCapacity](i => 0);
      forall k | 0 <= k < capacity {
        grown[k] := contents[k];
      }
      contents, capacity := grown, newCapacity;
      return true;
    }

    method ReleaseFileContents()
      modifies `contents, `capacity
      ensures fresh(contents) && capacity == contents.Length == 0
    {
      contents := new Byte[0];
      capacity := 0;
    }

    /** Loads a small file into memory; only the card's pointer moves.  Fails when
        the file is too large, and unless it is empty also when `loadable` denies that
        there is memory and that the file may be read. */
    method CacheFile(loadable: bool) returns (ok: bool)
      requires Valid()
      modifies `contents, `capacity, `cached, file`ptr
      ensures Valid() && State() == old(State())
      ensures ok == cached && (ok <==> old(cached) || (size <= FILE_CACHE_LIMIT && (loadable || size == 0)))
      ensures !ok ==> file.ptr == old(file.ptr)
      ensures contents == old(contents) || fresh(contents)
    {
      if cached {
        return true;
      }
      if size > FILE_CACHE_LIMIT {
        return false;
      }
      var buffer := new Byte[0];
      if size != 0 {
        if !loadable {
          return false;
        }
        buffer := new Byte[size](i => 0);
        file.Seek(0);
        ReadExact(file, buffer, size);
      }
      contents, capacity, cached := buffer, size, true;
      assert contents[..size] == file.bytes;
      return true;
    }

    /** Writes a modified cache back to the card; an unmodified one is not rewritten. */
    method FlushCachedFile()
      requires Valid() && cached
      modifies file`bytes, file`ptr, file`updates, file`durable
      ensures Valid() && State() == old(State())
      ensures file.bytes == file.durable == State().bytes
      ensures !writtenTo ==> file.updates == old(file.updates) && file.ptr == old(file.ptr)
    {
      if !writtenTo {
        return;
      }
      file.Seek(0);
      if size != 0 {
        WriteExact(file, contents, size);
      }
      file.Seek(size);
      file.Truncate();
      file.Sync();
    }

    /** Turns a cached file into a direct one without losing a byte. */
    method SpillCache()
      requires Valid()
      modifies `contents, `capacity, `cached, file`bytes, file`ptr, file`updates, file`durable
      ensures Valid() && !cached && State() == old(State())
      ensures contents == old(contents) || fresh(contents)
      ensures old(cached) ==> file.durable == State().bytes
      ensures old(cached) && !writtenTo ==> file.updates == old(file.updates)
    {
      if !cached {
        return;
      }
      FlushCachedFile();
      ReleaseFileContents();
      cached := false;
      file.Seek(position);
    }

    // ---------------------------------------------------------------- calls

    /** Opens the slot on a file FatFs has just opened, created or truncated.  FatFs
        does not truncate a file that it opens for appending; one that is then to be
        cached but is open for writing only cannot be read, and is refused. */
    method Open(newFile: Fil, newMode: Mode, newAppend: bool, truncate: bool) returns (ok: bool)
      requires !inUse && newFile.Valid() && newFile.durable == newFile.bytes
      requires newFile.ptr == if newAppend then |newFile.bytes| else 0
      requires truncate && !newAppend ==> newFile.bytes == []
      modifies this, newFile`ptr
      ensures ok == inUse
      ensures ok <==> |newFile.bytes| <= UINT_MAX && !(newMode.WriteOnly? && truncate && newFile.bytes != [])
      ensures ok ==>
                && Valid() && file == newFile && (contents == old(contents) || fresh(contents))
                && State() == Plain(newFile.bytes, if newAppend then |newFile.bytes| else 0)
                && Options() == Opened(newMode, newAppend, newFile.fullReads, newFile.fullWrites)
                && (cached <==> (newMode.ReadWrite? && size <= FILE_CACHE_LIMIT) || (newMode.WriteOnly? && truncate))
    {
      hide Splice;
      file, position, size := newFile, 0, 0;
      contents, capacity := new Byte[0], 0;
      mode, append, writtenTo, cached := newMode, newAppend, false, false;
      if |newFile.bytes| > UINT_MAX {
        return false;
      }
      size := |newFile.bytes|;
      if newAppend {
        position := size;
      }
      var cacheReadWrite := newMode.ReadWrite? && size <= FILE_CACHE_LIMIT;
      var cacheTruncatedWrite := newMode.WriteOnly? && truncate;
      if cacheReadWrite || cacheTruncatedWrite {
        var loaded := CacheFile(!newMode.WriteOnly?);
        if !loaded {
          return false;
        }
      }
      inUse := true;
      return true;
    }

    method Read(len: int) returns (r: Reply)
      requires inUse ==> Valid()
      modifies `position, file`ptr
      ensures !inUse ==> r == Failed(if len < 0 then EINVAL else EBADF)
      ensures inUse ==>
                && Valid()
                && Legal(old(State()), Options(), Call.Read(len), r)
                && State() == After(old(State()), Options(), Call.Read(len), r)
                && (cached && r.Data? ==> |r.data| == Min(len, size - old(position)))
    {
      hide Splice;
      if len < 0 {
        return Failed(EINVAL);
      }
      if !inUse || mode.WriteOnly? {
        return Failed(EBADF);
      }
      if !cached {
        var data := file.Read(len);
        position := position + |data|;
        return Data(data);
      }
      var count := Min(len, size - position);
      r := Data(contents[position..position + count]);
      position := position + count;
    }

    method Write(data: seq<Byte>) returns (r: Reply)
      requires inUse ==> Valid()
      modifies this, file`bytes, file`ptr, file`updates, file`durable, contents
      ensures file == old(file) && inUse == old(inUse) && Options() == old(Options())
      ensures contents == old(contents) || fresh(contents)
      ensures !inUse ==> r == Failed(EBADF)
      ensures inUse ==>
                && Valid()
                && Legal(old(State()), Options(), Call.Write(data), r)
                && State() == After(old(State()), Options(), Call.Write(data), r)
                && (cached && r.Count? ==> r.count == |data|)
    {
      hide Splice;
      if !inUse || mode.ReadOnly? {
        return Failed(EBADF);
      }
      if data == [] {
        return Count(0);
      }
      if append {
        position := size;
        if !cached {
          file.Seek(position);
        }
      }
      if |data| > UINT_MAX - position {
        return Failed(EFBIG);
      }
      var written := Store(data);
      return Count(written);
    }

    /** Writes at the cursor, to the cache while it fits, else to the card. */
    method Store(data: seq<Byte>) returns (written: nat)
      requires inUse && Valid() && data != [] && position + |data| <= UINT_MAX
      modifies this, file`bytes, file`ptr, file`updates, file`durable, contents
      ensures file == old(file) && inUse && Valid() && Options() == old(Options())
      ensures contents == old(contents) || fresh(contents)
      ensures 0 < written <= |data| && (cached || file.fullWrites ==> written == |data|)
      ensures State() == Plain(Splice(old(State()).bytes, old(position), data[..written]), old(position) + written)
    {
      hide Splice;
      var required := position + |data|;
      if cached && required > FILE_CACHE_LIMIT {
        SpillCache();
      }
      if cached {
        WriteToCache(data);
        assert data[..|data|] == data;
        return |data|;
      }
      written := WriteDirect(data);
    }

    /** Hands the data to the card at the cursor; the card may take only a part. */
    method WriteDirect(data: seq<Byte>) returns (written: nat)
      requires Valid() && !cached && data != [] && position + |data| <= UINT_MAX
      modifies `position, `size, `writtenTo, file`bytes, file`ptr, file`updates
      ensures Valid() && writtenTo && 0 < written <= |data| && (file.fullWrites ==> written == |data|)
      ensures State() == Plain(Splice(old(State()).bytes, old(position), data[..written]), old(position) + written)
    {
      written := file.Write(data);
      position := position + written;
      if position > size {
        size := position;
      }
      writtenTo := true;
    }

    /** Stores the data at the cursor of a cached file, growing the cache as needed. */
    method WriteToCache(data: seq<Byte>)
      requires Valid() && cached && position + |data| <= FILE_CACHE_LIMIT
      modifies `contents, `capacity, `position, `size, `writtenTo, contents
      ensures Valid() && writtenTo
      ensures contents == old(contents) || fresh(contents)
      ensures State() == Plain(Splice(old(State()).bytes, old(position), data), old(position) + |data|)
    {
      hide Splice;
      var ok := EnsureFileCapacity(position + |data|);
      assert contents[..size] == old(contents[..size]);
      Overwrite(contents, size, position, data);
      position := position + |data|;
      if position > size {
        size := position;
      }
      writtenTo := true;
    }

    /** Overwrites cells of which the first `held` hold bytes. */
    static method Overwrite(cells: array<Byte>, held: nat, at: nat, data: seq<Byte>)
      requires at <= held <= cells.Length && at + |data| <= cells.Length
      modifies cells
      ensures cells[..Max(at + |data|, held)] == Splice(old(cells[..held]), at, data)
    {
      hide Splice;
      OverwriteSplices(cells[..], held, at, data);
      ghost var before := cells[..];
      forall k | 0 <= k < |data| {
        cells[at + k] := data[k];
      }
      assert cells[..] == before[..at] + data + before[at + |data|..];
      assert before[..held] == old(cells[..held]);
    }

    /** `memory` says whether the allocation for a cache made by this seek succeeds. */
    method Lseek(offset: int, whence: Whence, memory: bool) returns (r: Reply)
      requires inUse ==> Valid()
      modifies `contents, `capacity, `cached, `position, file`ptr
      ensures contents == old(contents) || fresh(contents)
      ensures !inUse ==> r == Failed(EBADF)
      ensures inUse ==>
                && Valid()
                && Legal(old(State()), Options(), Call.Seek(offset, whence), r)
                && State() == After(old(State()), Options(), Call.Seek(offset, whence), r)
                && (cached <==> old(cached) || (r.Position? && mode.ReadOnly? && size <= FILE_CACHE_LIMIT
                                                && (memory || size == 0)))
    {
      hide Splice;
      if !inUse {
        return Failed(EBADF);
      }
      var next: int;
      match whence {
        case Set => next := offset;
        case Cur => next := position + offset;
        case End => next := size + offset;
        case OtherWhence => return Failed(EINVAL);
      }
      if next < 0 || next > size {
        return Failed(EINVAL);
      }
      if mode.ReadOnly? && !cached && size <= FILE_CACHE_LIMIT {
        var loaded := CacheFile(memory);
      }
      if !cached {
        file.Seek(next);
      }
      position := next;
      return Position(AsInt(next));
    }

    method Fsync() returns (r: Reply)
      requires inUse ==> Valid()
      modifies `writtenTo, file`bytes, file`ptr, file`updates, file`durable
      ensures !inUse ==> r == Failed(EBADF)
      ensures inUse ==>
                && Valid()
                && Legal(old(State()), Options(), Call.Fsync, r)
                && State() == old(State())
                && (r == Done ==> file.bytes == file.durable == State().bytes && !writtenTo)
                && (cached && !old(writtenTo) ==> file.updates == old(file.updates))
    {
      if !inUse || mode.ReadOnly? {
        return Failed(EBADF);
      }
      if cached {
        FlushCachedFile();
      } else {
        file.Sync();
      }
      writtenTo := false;
      return Done;
    }

    /** Releases the slot; the card then holds the logical bytes. */
    method Close() returns (ok: bool)
      requires inUse ==> Valid()
      modifies this, file`bytes, file`ptr, file`updates, file`durable
      ensures ok == old(inUse) && !inUse && file == old(file)
      ensures contents == old(contents) || fresh(contents)
      ensures ok ==> file.bytes == file.durable == old(State().bytes)
      ensures ok && !old(writtenTo) ==> file.updates == old(file.updates)
    {
      if !inUse {
        return false;
      }
      if cached {
        FlushCachedFile();
      } else if writtenTo {
        file.Sync();
      }
      ReleaseFileContents();
      size, position, mode, append := 0, 0, ReadOnly, false;
      inUse, writtenTo, cached := false, false, false;
      return true;
    }

    // ----------------------------------------------------------------- runs

    method Do(call: Call, memory: bool) returns (r: Reply)
      requires inUse && Valid()
      modifies this, file`bytes, file`ptr, file`updates, file`durable, contents
      ensures file == old(file) && inUse && Valid() && Options() == old(Options())
      ensures contents == old(contents) || fresh(contents)
      ensures Legal(old(State()), Options(), call, r)
      ensures State() == After(old(State()), Options(), call, r)
    {
      match call {
        case Read(len) => r := Read(len);
        case Write(data) => r := Write(data);
        case Seek(offset, whence) => r := Lseek(offset, whence, memory);
        case Fsync => r := Fsync();
      }
    }

    /** Any run of calls gives the replies of the plain file and ends in its state,
        whatever the descriptor's form and whenever that form changes. */
    method Run(calls: seq<Call>, memory: seq<bool>) returns (replies: seq<Reply>)
      requires inUse && Valid() && |memory| == |calls|
      modifies this, file`bytes, file`ptr, file`updates, file`durable, contents
      ensures inUse && Valid() && file == old(file) && (contents == old(contents) || fresh(contents))
      ensures LegalRun(old(State()), old(Options()), calls, replies, State())
    {
      replies := [];
      for n := 0 to |calls|
        invariant file == old(file) && inUse && Valid() && Options() == old(Options())
        invariant contents == old(contents) || fresh(contents)
        invariant LegalRun(old(State()), old(Options()), calls[..n], replies, State())
      {
        ghost var before, soFar := State(), replies;
        var r := Do(calls[n], memory[n]);
        replies := replies + [r];
        assert calls[..n + 1][..n] == calls[..n] && replies[..n] == soFar;
        assert before.Valid() && LegalRun(old(State()), old(Options()), calls[..n], soFar, before);
      }
      assert calls[..|calls|] == calls;
    }
  }
}
