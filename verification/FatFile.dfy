/** An open FatFs file, reduced to its bytes and read/write pointer, under the
    assumption that calls succeed.  Transfers may be short but make progress. */
module FatFile {
  import opened Wrappers

  /** The bytes with `data` written over them from `at` on. */
  function Splice(bytes: seq<Byte>, at: nat, data: seq<Byte>): (r: seq<Byte>)
    requires at <= |bytes|
    ensures |r| == if at + |data| > |bytes| then at + |data| else |bytes|
  {
    bytes[..at] + data + if at + |data| <= |bytes| then bytes[at + |data|..] else []
  }

  /** Writing in two pieces is writing once. */
  lemma SpliceTwice(bytes: seq<Byte>, at: nat, first: seq<Byte>, second: seq<Byte>)
    requires at <= |bytes|
    ensures Splice(Splice(bytes, at, first), at + |first|, second) == Splice(bytes, at, first + second)
  {
  }

  /** What was written can be read back, and nothing else changes. */
  lemma SpliceAt(bytes: seq<Byte>, at: nat, data: seq<Byte>, k: nat)
    requires at <= |bytes| && k < |Splice(bytes, at, data)|
    ensures Splice(bytes, at, data)[k] == if at <= k < at + |data| then data[k - at] else bytes[k]
  {
  }

  /** Overwriting cells of a buffer splices into the bytes it holds. */
  lemma OverwriteSplices(cells: seq<Byte>, size: nat, at: nat, data: seq<Byte>)
    requires at <= size <= |cells| && at + |data| <= |cells|
    ensures (cells[..at] + data + cells[at + |data|..])[..Max(at + |data|, size)] == Splice(cells[..size], at, data)
  {
  }

  class Fil {
    var bytes: seq<Byte>
    var ptr: nat
    var durable: seq<Byte>   // what the card holds after the last sync
    var updates: nat         // number of calls that changed the file
    const fullReads: bool    // reads are short only at the end of the file
    const fullWrites: bool   // writes are never short

    ghost predicate Valid()
      reads this
    {
      ptr <= |bytes|
    }

    function Remaining(): nat
      requires Valid()
      reads this
    {
      |bytes| - ptr
    }

    constructor (bytes: seq<Byte>, atEnd: bool, fullReads: bool, fullWrites: bool)
      ensures Valid() && this.bytes == durable == bytes
      ensures ptr == if atEnd then |bytes| else 0
      ensures this.fullReads == fullReads && this.fullWrites == fullWrites
    {
      this.bytes, durable, updates := bytes, bytes, 0;
      ptr := if atEnd then |bytes| else 0;
      this.fullReads, this.fullWrites := fullReads, fullWrites;
    }

    method Seek(offset: nat)
      requires offset <= |bytes|
      modifies `ptr
      ensures ptr == offset
    {
      ptr := offset;
    }

    method Read(len: nat) returns (data: seq<Byte>)
      requires Valid()
      modifies `ptr
      ensures Valid() && ptr == old(ptr) + |data|
      ensures |data| <= Min(len, old(Remaining())) && (data == [] <==> Min(len, old(Remaining())) == 0)
      ensures fullReads ==> |data| == Min(len, old(Remaining()))
      ensures data == bytes[old(ptr)..ptr]
    {
      var count := Min(len, |bytes| - ptr);
      var granted: int := *;
      if !fullReads && 0 < granted < count {
        count := granted;
      }
      data := bytes[ptr..ptr + count];
      ptr := ptr + count;
    }

    method Write(data: seq<Byte>) returns (count: nat)
      requires Valid() && data != []
      modifies `bytes, `ptr, `updates
      ensures Valid() && 0 < count <= |data| && (fullWrites ==> count == |data|)
      ensures bytes == Splice(old(bytes), old(ptr), data[..count])
      ensures ptr == old(ptr) + count && updates == old(updates) + 1
    {
      count := |data|;
      var granted: int := *;
      if !fullWrites && 0 < granted < count {
        count := granted;
      }
      bytes := Splice(bytes, ptr, data[..count]);
      ptr := ptr + count;
      updates := updates + 1;
    }

    method Truncate()
      requires Valid()
      modifies `bytes, `updates
      ensures Valid() && bytes == old(bytes)[..ptr] && updates == old(updates) + 1
    {
      bytes := bytes[..ptr];
      updates := updates + 1;
    }

    method Sync()
      modifies `durable
      ensures durable == bytes
    {
      durable := bytes;
    }
  }

  /** Fills the buffer from the file; terminates however short the reads are. */
  method ReadExact(file: Fil, buffer: array<Byte>, size: nat)
    requires file.Valid() && size <= file.Remaining() && size <= buffer.Length
    modifies file`ptr, buffer
    ensures file.Valid() && file.ptr == old(file.ptr) + size
    ensures buffer[..size] == file.bytes[old(file.ptr)..old(file.ptr) + size]
  {
    var received := 0;
    while received < size
      invariant received <= size
      invariant file.Valid() && file.ptr == old(file.ptr) + received
      invariant buffer[..received] == file.bytes[old(file.ptr)..old(file.ptr) + received]
    {
      var data := file.Read(size - received);
      ghost var before := buffer[..received];
      forall k | 0 <= k < |data| {
        buffer[received + k] := data[k];
      }
      assert buffer[..received + |data|] == before + data;
      ghost var start := old(file.ptr);
      assert file.bytes[start..start + received + |data|]
          == file.bytes[start..start + received] + file.bytes[start + received..start + received + |data|];
      received := received + |data|;
    }
  }

  /** Writes the whole buffer prefix; terminates however short the writes are. */
  method WriteExact(file: Fil, buffer: array<Byte>, size: nat)
    requires file.Valid() && size <= buffer.Length
    modifies file`bytes, file`ptr, file`updates
    ensures file.Valid() && file.ptr == old(file.ptr) + size
    ensures file.bytes == Splice(old(file.bytes), old(file.ptr), buffer[..size])
  {
    var written := 0;
    assert Splice(file.bytes, file.ptr, []) == file.bytes;
    while written < size
      invariant written <= size
      invariant file.Valid() && file.ptr == old(file.ptr) + written
      invariant file.bytes == Splice(old(file.bytes), old(file.ptr), buffer[..written])
    {
      var count := file.Write(buffer[written..size]);
      SpliceTwice(old(file.bytes), old(file.ptr), buffer[..written], buffer[written..size][..count]);
      assert buffer[..written] + buffer[written..size][..count] == buffer[..written + count];
      written := written + count;
    }
  }
}
