/** The bounded byte queue between a client and the network worker: a ring buffer
    whose operations each run under the queue's own lock. */
module ByteQueues {
  import opened Wrappers

  const QUEUE_SIZE: nat := 16384

  /** Where the `k`-th cell of a ring that starts over after `n` cells lies. */
  function Cell(k: nat, n: nat): (i: nat)
    requires k < 2 * n
    ensures i < n
  {
    if k < n then k else k - n
  }

  /** The bytes of a ring, oldest first. */
  ghost function Ring(cells: seq<Byte>, head: nat, count: nat): (s: seq<Byte>)
    requires head < |cells| && count <= |cells|
    ensures |s| == count
  {
    seq(count, i requires 0 <= i < count => cells[Cell(head + i, |cells|)])
  }

  /** Storing a byte just behind the queued ones appends it and disturbs none of them. */
  lemma RingAppend(cells: seq<Byte>, head: nat, count: nat, b: Byte)
    requires head < |cells| && count < |cells|
    ensures Ring(cells[Cell(head + count, |cells|) := b], head, count + 1) == Ring(cells, head, count) + [b]
  {
    var n := |cells|;
    var after := cells[Cell(head + count, n) := b];
    forall i | 0 <= i <= count
      ensures Ring(after, head, count + 1)[i] == (Ring(cells, head, count) + [b])[i]
    {
      assert i < count ==> Cell(head + i, n) != Cell(head + count, n);
    }
  }

  /** Advancing the head drops exactly the oldest byte. */
  lemma RingAdvance(cells: seq<Byte>, head: nat, count: nat)
    requires head < |cells| && 0 < count <= |cells|
    ensures Ring(cells, head, count)[0] == cells[head]
    ensures Ring(cells, Cell(head + 1, |cells|), count - 1) == Ring(cells, head, count)[1..]
  {
    var n := |cells|;
    assert Cell(head + 0, n) == head;
    forall i | 0 <= i < count - 1
      ensures Ring(cells, Cell(head + 1, n), count - 1)[i] == Ring(cells, head, count)[1..][i]
    {
      assert Cell(Cell(head + 1, n) + i, n) == Cell(head + (1 + i), n);
    }
  }

  /** What a queue that holds `held` bytes takes of the bytes pushed, and what a pop of at
      most `len` bytes takes of those queued. */
  function Fitting(held: nat, bytes: seq<Byte>): seq<Byte>
    requires held <= QUEUE_SIZE
  {
    bytes[..Min(|bytes|, QUEUE_SIZE - held)]
  }

  function Oldest(queued: seq<Byte>, len: nat): seq<Byte> {
    queued[..Min(len, |queued|)]
  }

  /** They are the longest beginnings that fit. */
  lemma LongestBeginnings(held: nat, bytes: seq<Byte>, len: nat, some: seq<Byte>)
    requires held <= QUEUE_SIZE
    ensures some <= bytes && held + |some| <= QUEUE_SIZE <==> some <= Fitting(held, bytes)
    ensures some <= bytes && |some| <= len <==> some <= Oldest(bytes, len)
  {
  }

  class ByteQueue {
    const data: array<Byte>
    var head: nat
    var tail: nat
    var count: nat

    ghost predicate Valid()
      reads this
    {
      && data.Length == QUEUE_SIZE
      && head < QUEUE_SIZE && tail < QUEUE_SIZE && count <= QUEUE_SIZE
      && tail == Cell(head + count, QUEUE_SIZE)
    }

    /** The queued bytes, oldest first. */
    ghost function Contents(): (s: seq<Byte>)
      requires Valid()
      reads this, data
      ensures |s| == count
    {
      Ring(data[..], head, count)
    }

    constructor ()
      ensures Valid() && Contents() == [] && fresh(data)
    {
      data := new Byte[QUEUE_SIZE](i => 0);
      head, tail, count := 0, 0, 0;
    }

    /** Appends as much of the data as fits. */
    method Push(bytes: seq<Byte>) returns (written: nat)
      requires Valid()
      modifies this, data
      ensures Valid()
      ensures written == |Fitting(|old(Contents())|, bytes)|
      ensures Contents() == old(Contents()) + Fitting(|old(Contents())|, bytes)
    {
      hide Ring;
      written := 0;
      while written < |bytes| && count < QUEUE_SIZE
        invariant Valid() && written <= |bytes|
        invariant Contents() == old(Contents()) + bytes[..written]
      {
        RingAppend(data[..], head, count, bytes[written]);
        ghost var cells := data[..][tail := bytes[written]];
        data[tail] := bytes[written];
        written := written + 1;
        assert data[..] == cells;
        tail := (tail + 1) % QUEUE_SIZE;
        count := count + 1;
        assert bytes[..written] == bytes[..written - 1] + [bytes[written - 1]];
      }
    }

    /** Removes and returns the oldest bytes, at most `len` of them. */
    method Pop(len: nat) returns (bytes: seq<Byte>)
      requires Valid()
      modifies `head, `count
      ensures Valid() && bytes == Oldest(old(Contents()), len)
      ensures old(Contents()) == bytes + Contents()
    {
      hide Ring;
      bytes := [];
      while |bytes| < len && count > 0
        invariant Valid() && |bytes| <= len
        invariant old(Contents()) == bytes + Contents()
      {
        RingAdvance(data[..], head, count);
        bytes := bytes + [data[head]];
        head := (head + 1) % QUEUE_SIZE;
        count := count - 1;
      }
    }

    /** Copies the oldest bytes, at most `len` of them, and leaves them queued. */
    method Peek(len: nat) returns (bytes: seq<Byte>)
      requires Valid()
      ensures bytes == Oldest(Contents(), len)
    {
      bytes := [];
      var pos := head;
      while |bytes| < len && |bytes| < count
        invariant |bytes| <= len && |bytes| <= count
        invariant pos == Cell(head + |bytes|, QUEUE_SIZE)
        invariant bytes == Contents()[..|bytes|]
      {
        bytes := bytes + [data[pos]];
        pos := (pos + 1) % QUEUE_SIZE;
      }
    }

    /** Removes the oldest bytes, at most `len` of them. */
    method Drop(len: nat) returns (dropped: nat)
      requires Valid()
      modifies `head, `count
      ensures Valid() && dropped == |Oldest(old(Contents()), len)|
      ensures Contents() == old(Contents())[dropped..]
    {
      hide Ring;
      dropped := 0;
      while dropped < len && count > 0
        invariant Valid() && dropped <= len && dropped <= |old(Contents())|
        invariant Contents() == old(Contents())[dropped..]
      {
        RingAdvance(data[..], head, count);
        head := (head + 1) % QUEUE_SIZE;
        count := count - 1;
        dropped := dropped + 1;
      }
    }

    method Clear()
      requires Valid()
      modifies `head, `tail, `count
      ensures Valid() && Contents() == []
    {
      head, tail, count := 0, 0, 0;
    }
  }
}
