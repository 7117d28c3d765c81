/** The file a client is meant to see: a byte sequence and a cursor, with no
    cache, no card and no transfer loops. */
module PlainFile {
  import opened Wrappers
  import opened FatFile

  const UINT_MAX: nat := 0xFFFF_FFFF
  const INT_MAX: int := 0x7FFF_FFFF

  datatype Mode = ReadOnly | WriteOnly | ReadWrite

  /** How a descriptor was opened, and whether its device never cuts a read or a write short. */
  datatype Opened = Opened(mode: Mode, append: bool, fullReads: bool, fullWrites: bool)

  datatype Whence = Set | Cur | End | OtherWhence

  datatype Errno = EBADF | EINVAL | EFBIG

  datatype Call =
    | Read(len: int)
    | Write(data: seq<Byte>)
    | Seek(offset: int, whence: Whence)
    | Fsync

  datatype Reply =
    | Data(data: seq<Byte>)
    | Count(count: nat)
    | Position(value: int)
    | Done
    | Failed(errno: Errno)

  datatype Plain = Plain(bytes: seq<Byte>, pos: nat)
  {
    predicate Valid() {
      pos <= |bytes| <= UINT_MAX
    }
  }

  /** The cursor a seek asks for. */
  function Target(p: Plain, offset: int, whence: Whence): int {
    match whence
    case Set => offset
    case Cur => p.pos + offset
    case End => |p.bytes| + offset
    case OtherWhence => -1
  }

  /** An unsigned 32-bit value returned through a signed 32-bit result. */
  function AsInt(value: nat): int
    requires value <= UINT_MAX
  {
    if value <= INT_MAX then value else value - UINT_MAX - 1
  }

  /** Where a write starts. */
  function WriteAt(p: Plain, o: Opened): nat {
    if o.append then |p.bytes| else p.pos
  }

  /** The reply is one the plain file may give.  A transfer may be cut short, to a
      nonempty prefix, only when the device does so. */
  predicate Legal(p: Plain, o: Opened, call: Call, reply: Reply)
    requires p.Valid()
  {
    match call
    case Read(len) =>
      if len < 0 then reply == Failed(EINVAL)
      else if o.mode.WriteOnly? then reply == Failed(EBADF)
      else
        var available := Min(len, |p.bytes| - p.pos);
        && reply.Data? && |reply.data| <= available
        && (reply.data == [] <==> available == 0)
        && (o.fullReads ==> |reply.data| == available)
        && reply.data == p.bytes[p.pos..p.pos + |reply.data|]
    case Write(data) =>
      if o.mode.ReadOnly? then reply == Failed(EBADF)
      else if data == [] then reply == Count(0)
      else if WriteAt(p, o) + |data| > UINT_MAX then reply == Failed(EFBIG)
      else reply.Count? && 0 < reply.count <= |data| && (o.fullWrites ==> reply.count == |data|)
    case Seek(offset, whence) =>
      var target := Target(p, offset, whence);
      if whence.OtherWhence? || target < 0 || target > |p.bytes| then reply == Failed(EINVAL)
      else reply == Position(AsInt(target))
    case Fsync =>
      reply == if o.mode.ReadOnly? then Failed(EBADF) else Done
  }

  /** The plain file after a call that was given this reply. */
  function After(p: Plain, o: Opened, call: Call, reply: Reply): (p': Plain)
    requires p.Valid() && Legal(p, o, call, reply)
    ensures p'.Valid()
  {
    match (call, reply)
    case (Read(len), Data(data)) => p.(pos := p.pos + |data|)
    case (Write(data), Count(n)) =>
      if data == [] then p
      else Plain(Splice(p.bytes, WriteAt(p, o), data[..n]), WriteAt(p, o) + n)
    case (Write(data), Failed(EFBIG)) => p.(pos := WriteAt(p, o))
    case (Seek(offset, whence), Position(_)) => p.(pos := Target(p, offset, whence))
    case _ => p
  }

  /** A whole run of calls on the plain file with the replies given. */
  ghost predicate LegalRun(p: Plain, o: Opened, calls: seq<Call>, replies: seq<Reply>, p': Plain)
    requires p.Valid()
    decreases |calls|
  {
    if calls == [] then replies == [] && p' == p
    else
      var n := |calls| - 1;
      && |replies| == |calls|
      && exists q: Plain :: q.Valid() && LegalRun(p, o, calls[..n], replies[..n], q)
                            && Legal(q, o, calls[n], replies[n])
                            && p' == After(q, o, calls[n], replies[n])
  }

  // ------------------------------------------------ what a call does, in full

  /** The seek can only be refused as invalid, and then changes nothing. */
  ghost predicate Refused(p: Plain, o: Opened, offset: int, whence: Whence)
    requires p.Valid()
  {
    forall reply :: Legal(p, o, Seek(offset, whence), reply) <==> reply == Failed(EINVAL)
  }

  /** The seek can only succeed, and leaves the cursor there. */
  ghost predicate LeadsTo(p: Plain, o: Opened, offset: int, whence: Whence, pos: nat)
    requires p.Valid()
  {
    && (exists reply :: Legal(p, o, Seek(offset, whence), reply))
    && forall reply | Legal(p, o, Seek(offset, whence), reply) ::
         reply.Position? && After(p, o, Seek(offset, whence), reply) == Plain(p.bytes, pos)
  }

  /** Every place from the start to the end is reached from the start, from the cursor
      and from the end, by its distance; no other seek succeeds. */
  lemma SeeksLead(p: Plain, o: Opened, pos: int)
    requires p.Valid()
    ensures 0 <= pos <= |p.bytes| ==>
              && LeadsTo(p, o, pos, Set, pos)
              && LeadsTo(p, o, pos - p.pos, Cur, pos)
              && LeadsTo(p, o, pos - |p.bytes|, End, pos)
    ensures !(0 <= pos <= |p.bytes|) ==>
              && Refused(p, o, pos, Set)
              && Refused(p, o, pos - p.pos, Cur)
              && Refused(p, o, pos - |p.bytes|, End)
    ensures Refused(p, o, pos, OtherWhence)
  {
    if 0 <= pos <= |p.bytes| {
      assert Legal(p, o, Seek(pos, Set), Position(AsInt(pos)));
      assert Legal(p, o, Seek(pos - p.pos, Cur), Position(AsInt(pos)));
      assert Legal(p, o, Seek(pos - |p.bytes|, End), Position(AsInt(pos)));
    }
  }

  /** A refused call changes nothing but the cursor of an appending write that would
      leave the file too large. */
  lemma RefusalsKeep(p: Plain, o: Opened, call: Call, errno: Errno)
    requires p.Valid() && Legal(p, o, call, Failed(errno))
    ensures After(p, o, call, Failed(errno)) ==
            if o.append && call.Write? && errno == EFBIG then Plain(p.bytes, |p.bytes|) else p
  {
  }

  /** A write replaces the bytes from its start on by the ones it took, and leaves the
      cursor behind them; it starts at the cursor, or at the end of a file opened for
      appending. */
  lemma WriteReplaces(p: Plain, o: Opened, data: seq<Byte>, count: nat)
    requires p.Valid() && data != [] && Legal(p, o, Write(data), Count(count))
    ensures var q := After(p, o, Write(data), Count(count));
            if o.append
            then q.bytes == p.bytes + data[..count] && q.pos == |q.bytes|
            else && q.bytes[..p.pos] == p.bytes[..p.pos]
                 && q.pos == p.pos + count <= |q.bytes| && q.bytes[p.pos..q.pos] == data[..count]
                 && q.bytes[q.pos..] == if q.pos <= |p.bytes| then p.bytes[q.pos..] else []
  {
    var at := WriteAt(p, o);
    var q := After(p, o, Write(data), Count(count));
    forall k | 0 <= k < |q.bytes|
      ensures q.bytes[k] == if at <= k < at + count then data[..count][k - at] else p.bytes[k]
    {
      SpliceAt(p.bytes, at, data[..count], k);
    }
    hide Splice;
  }

  /** A write is too large exactly if it would end behind 32 bits. */
  lemma WriteTooLargeIff(p: Plain, o: Opened, data: seq<Byte>)
    requires p.Valid() && data != [] && !o.mode.ReadOnly?
    ensures Legal(p, o, Write(data), Failed(EFBIG)) <==> (if o.append then |p.bytes| else p.pos) + |data| >= 0x1_0000_0000
  {
  }

  /** A read hands over the bytes at the cursor and moves it behind them, so that two
      reads in a row hand over one stretch of the file. */
  lemma ReadsContinue(p: Plain, o: Opened, len: int, first: seq<Byte>, len': int, second: seq<Byte>)
    requires p.Valid() && Legal(p, o, Read(len), Data(first))
    requires Legal(After(p, o, Read(len), Data(first)), o, Read(len'), Data(second))
    ensures var q := After(p, o, Read(len), Data(first));
            var r := After(q, o, Read(len'), Data(second));
            && r.bytes == p.bytes && r.pos == p.pos + |first| + |second| <= |p.bytes|
            && p.bytes[p.pos..r.pos] == first + second
  {
  }

  /** A seek that succeeds returns the position it leads to if and only if that
      position is at most INT_MAX; beyond it the caller sees a negative number
      although the seek took place.  In a file of at most INT_MAX bytes all is well. */
  lemma PositionIsReported(p: Plain, o: Opened, offset: int, whence: Whence, reply: Reply)
    requires p.Valid() && Legal(p, o, Seek(offset, whence), reply) && reply.Position?
    ensures reply.value == After(p, o, Seek(offset, whence), reply).pos <==> Target(p, offset, whence) <= INT_MAX
    ensures reply.value < 0 <==> Target(p, offset, whence) > INT_MAX
    ensures |p.bytes| <= INT_MAX ==> reply.value == After(p, o, Seek(offset, whence), reply).pos
  {
  }

  /** A file of two gigabytes and a seek to its end that is reported as a failure. */
  lemma PositionIsMisreported(o: Opened)
    ensures var p := Plain(seq(0x8000_0000, _ => 0), 0);
            var reply := Position(-0x8000_0000);
            p.Valid() && Legal(p, o, Seek(0, End), reply) && After(p, o, Seek(0, End), reply).pos == 0x8000_0000
  {
  }

  /** On a plain file what a write stored is what reads at that place return: a
      nonempty beginning of it, and all of it from a device that cuts no read short. */
  lemma ReadBack(p: Plain, o: Opened, data: seq<Byte>, count: nat)
    requires p.Valid() && o.mode.ReadWrite? && data != [] && Legal(p, o, Write(data), Count(count))
    ensures var at := WriteAt(p, o);
            var q := After(p, o, Write(data), Count(count));
            && Legal(q, o, Seek(at, Set), Position(AsInt(at)))
            && var r := After(q, o, Seek(at, Set), Position(AsInt(at)));
               forall reply :: Legal(r, o, Read(count), reply) ==>
                 && reply.Data? && reply.data != [] && reply.data <= data[..count]
                 && (o.fullReads ==> reply.data == data[..count])
  {
    var at := WriteAt(p, o);
    var q := After(p, o, Write(data), Count(count));
    assert q.bytes[at..at + count] == data[..count];
    forall n | 0 <= n <= count
      ensures q.bytes[at..at + n] == data[..count][..n]
    {
      assert q.bytes[at..at + n] == q.bytes[at..at + count][..n];
    }
  }

  /** A device that never cuts a transfer short leaves no choice: the replies, and
      with them the bytes and the cursor, are a function of the calls. */
  lemma FullTransfersAreDetermined(p: Plain, o: Opened, call: Call, reply: Reply, reply': Reply)
    requires p.Valid() && o.fullReads && o.fullWrites
    requires Legal(p, o, call, reply) && Legal(p, o, call, reply')
    ensures reply == reply'
  {
  }
}
