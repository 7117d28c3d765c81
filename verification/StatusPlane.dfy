/** The status plane's row cache: a back buffer is kept equal to the palette applied to
    the layer, converting only the rows that differ from a snapshot of their indices. */
module StatusPlane {
  import opened Wrappers
  import opened PaletteSignature

  /** A window onto a pixel buffer with a row pitch. */
  datatype Window = Window(source: seq<Byte>, pitch: nat, x: nat, y: nat, width: nat, height: nat)
  {
    function Index(row: nat, col: nat): nat {
      (y + row) * pitch + x + col
    }

    /** The window lies inside the buffer. */
    ghost predicate InBounds() {
      forall row: nat, col: nat | row < height && col < width :: Index(row, col) < |source|
    }

    ghost predicate Within(fb: array2<Colour>) {
      InBounds() && height <= fb.Length0 && width <= fb.Length1
    }
  }

  datatype Flush = FlushAll | FlushRows(first: nat, count: nat)

  predicate Flushes(f: Flush, row: nat) {
    f.FlushAll? || f.first <= row < f.first + f.count
  }

  predicate AnyFlushes(log: seq<Flush>, row: nat) {
    exists i | 0 <= i < |log| :: Flushes(log[i], row)
  }

  /** The buffer shows the snapshot's indices through the palette. */
  ghost predicate Agrees(fb: array2<Colour>, copy: array2<Byte>, colours: Palette)
    requires copy.Length0 <= fb.Length0 && copy.Length1 <= fb.Length1
    reads fb, copy
  {
    forall r, c | 0 <= r < copy.Length0 && 0 <= c < copy.Length1 :: fb[r, c] == colours[copy[r, c]]
  }

  /** One call: the window and its palette, whether the caller forces a full conversion,
      and whether a new snapshot finds memory. */
  datatype Draw = Draw(window: Window, colours: Palette, force: bool, memory: bool)

  /** No two palettes of the run share a signature. */
  ghost predicate NoCollision(calls: seq<Draw>) {
    forall i, j | 0 <= i < |calls| && 0 <= j < |calls| && Signature(calls[i].colours) == Signature(calls[j].colours) ::
      calls[i].colours == calls[j].colours
  }

  class StatusPlane {
    const known: bool    // the layer slot and buffer number are in range
    var fb: array2<Colour>
    var shadow: array2?<Byte>
    var sourceX: nat
    var sourceY: nat
    var signature: bv32
    var valid: bool
    var flushes: seq<Flush>
    ghost var palette: Palette    // the one last converted with

    ghost predicate Separate()
      reads this
    {
      shadow != null ==> (shadow as object) != fb
    }

    ghost predicate Valid()
      reads this
    {
      Separate() && (valid ==> known && shadow != null)
    }

    /** A valid snapshot holds the indices whose colours are in the buffer.  It stays so
        while only this plane writes the buffer. */
    ghost predicate InStep()
      reads this, fb, shadow
    {
      valid ==>
        && shadow != null && shadow.Length0 <= fb.Length0 && shadow.Length1 <= fb.Length1
        && Agrees(fb, shadow, palette)
    }

    constructor (height: nat, width: nat, inRange: bool)
      ensures Valid() && InStep() && fresh(fb) && !valid && shadow == null && flushes == [] && known == inRange
      ensures fb.Length0 == height && fb.Length1 == width
    {
      fb := new Colour[height, width]((r, c) => 0);
      known, shadow, valid, flushes := inRange, null, false, [];
      sourceX, sourceY, signature := 0, 0, 0;
      palette := seq(256, _ => 0);
    }

    predicate HasSize(width: nat, height: nat)
      reads this
    {
      shadow != null && shadow.Length0 == height && shadow.Length1 == width
    }

    /** Keeps a snapshot of the right size, or starts a new, invalid one if memory allows. */
    method EnsureShadow(width: nat, height: nat, memory: bool) returns (ok: bool)
      requires Separate()
      modifies this
      ensures Separate() && flushes == old(flushes) && palette == old(palette) && fb == old(fb)
      ensures old(HasSize(width, height)) && ok ==> unchanged(this)
      ensures ok <==> known && width > 0 && height > 0 && (memory || old(HasSize(width, height)))
      ensures ok ==> HasSize(width, height)
      ensures ok && shadow != old(shadow) ==> !valid && fresh(shadow)
      ensures ok && shadow == old(shadow) ==> unchanged(this)
      ensures !ok ==> (shadow == null && !valid) || (unchanged(this) && (!known || width == 0 || height == 0))
    {
      if !known || width == 0 || height == 0 {
        return false;
      }
      if shadow != null && shadow.Length1 == width && shadow.Length0 == height {
        return true;
      }
      shadow, sourceX, sourceY, signature, valid := null, 0, 0, 0, false;
      if !memory {
        return false;
      }
      shadow := new Byte[height, width]((r, c) => 0);
      return true;
    }

    method ConvertRow(w: Window, row: nat, colours: Palette)
      requires w.Within(fb) && row < w.height
      modifies fb
      ensures forall c: nat | c < w.width :: fb[row, c] == colours[w.source[w.Index(row, c)]]
      ensures forall r, c | 0 <= r < fb.Length0 && 0 <= c < fb.Length1 && (r != row || c >= w.width) ::
                fb[r, c] == old(fb[r, c])
    {
      for col := 0 to w.width
        invariant forall c: nat | c < col :: fb[row, c] == colours[w.source[w.Index(row, c)]]
        invariant forall r, c | 0 <= r < fb.Length0 && 0 <= c < fb.Length1 && (r != row || c >= col) ::
                    fb[r, c] == old(fb[r, c])
      {
        fb[row, col] := colours[w.source[w.Index(row, col)]];
      }
    }

    /** The buffer's rows show the window's. */
    ghost predicate Shows(w: Window, colours: Palette, first: nat, limit: nat)
      requires w.Within(fb) && limit <= w.height
      reads this`fb, fb
    {
      forall r: nat, c: nat | first <= r < limit && c < w.width :: fb[r, c] == colours[w.source[w.Index(r, c)]]
    }

    ghost predicate ShowsRow(w: Window, colours: Palette, row: nat)
      requires w.Within(fb) && row < w.height
      reads this`fb, fb
    {
      forall c: nat | c < w.width :: fb[row, c] == colours[w.source[w.Index(row, c)]]
    }

    /** Then each pixel has the colour of the byte at its row and column of the source. */
    lemma ShowsByte(w: Window, colours: Palette, r: nat, c: nat)
      requires w.Within(fb) && r < w.height && c < w.width && Shows(w, colours, 0, w.height)
      ensures 0 <= (w.y + r) * w.pitch + w.x + c < |w.source|
      ensures fb[r, c] == colours[w.source[(w.y + r) * w.pitch + w.x + c]]
    {
      assert w.Index(r, c) == (w.y + r) * w.pitch + w.x + c;
    }

    lemma ShowsRowByRow(w: Window, colours: Palette)
      requires w.Within(fb)
      ensures Shows(w, colours, 0, w.height) <==> forall r: nat | r < w.height :: ShowsRow(w, colours, r)
    {
      if forall r: nat | r < w.height :: ShowsRow(w, colours, r) {
        forall r: nat, c: nat | r < w.height && c < w.width
          ensures fb[r, c] == colours[w.source[w.Index(r, c)]]
        {
          assert ShowsRow(w, colours, r);
        }
      }
    }

    /** Nothing outside the given rows of the window has changed. */
    twostate predicate Untouched(w: Window, first: nat, limit: nat)
      requires fb == old(fb)
      reads this`fb, fb
    {
      forall r, c | 0 <= r < fb.Length0 && 0 <= c < fb.Length1 && !(first <= r < limit && c < w.width) ::
        fb[r, c] == old(fb[r, c])
    }

    method ConvertRows(w: Window, first: nat, count: nat, colours: Palette)
      requires w.Within(fb) && first + count <= w.height
      modifies fb
      ensures Shows(w, colours, first, first + count) && Untouched(w, first, first + count)
    {
      for row := first to first + count
        invariant Shows(w, colours, first, row) && Untouched(w, first, row)
      {
        ConvertRow(w, row, colours);
      }
    }

    /** The snapshot's rows hold the window's indices. */
    ghost predicate Remembers(copy: array2<Byte>, w: Window, first: nat, limit: nat)
      requires w.InBounds() && copy.Length0 == w.height && copy.Length1 == w.width && limit <= w.height
      reads copy
    {
      forall r: nat, c: nat | first <= r < limit && c < w.width :: copy[r, c] == w.source[w.Index(r, c)]
    }

    ghost predicate RemembersRow(copy: array2<Byte>, w: Window, row: nat)
      requires w.InBounds() && copy.Length0 == w.height && copy.Length1 == w.width && row < w.height
      reads copy
    {
      forall c: nat | c < w.width :: copy[row, c] == w.source[w.Index(row, c)]
    }

    method RememberRow(copy: array2<Byte>, w: Window, row: nat)
      requires w.InBounds() && copy.Length0 == w.height && copy.Length1 == w.width && row < w.height
      modifies copy
      ensures RemembersRow(copy, w, row)
      ensures forall r, c | 0 <= r < w.height && 0 <= c < w.width && r != row :: copy[r, c] == old(copy[r, c])
    {
      for col := 0 to w.width
        invariant forall c: nat | c < col :: copy[row, c] == w.source[w.Index(row, c)]
        invariant forall r, c | 0 <= r < w.height && 0 <= c < w.width && r != row :: copy[r, c] == old(copy[r, c])
      {
        copy[row, col] := w.source[w.Index(row, col)];
      }
    }

    method RowUnchanged(copy: array2<Byte>, w: Window, row: nat) returns (same: bool)
      requires w.InBounds() && copy.Length0 == w.height && copy.Length1 == w.width && row < w.height
      ensures same <==> RemembersRow(copy, w, row)
    {
      for col := 0 to w.width
        invariant forall c: nat | c < col :: copy[row, c] == w.source[w.Index(row, c)]
      {
        if copy[row, col] != w.source[w.Index(row, col)] {
          return false;
        }
      }
      return true;
    }

    /** Converts and remembers every row, and flushes everything. */
    method CopyAll(w: Window, copy: array2<Byte>, colours: Palette)
      requires w.Within(fb) && copy.Length0 == w.height && copy.Length1 == w.width && (copy as object) != fb
      requires (copy as object) != this
      modifies `flushes, fb, copy
      ensures Shows(w, colours, 0, w.height) && Untouched(w, 0, w.height) && Remembers(copy, w, 0, w.height)
      ensures Agrees(fb, copy, colours)
      ensures flushes == old(flushes) + [FlushAll]
    {
      ConvertRows(w, 0, w.height, colours);
      for row := 0 to w.height
        invariant Shows(w, colours, 0, w.height) && Untouched(w, 0, w.height) && Remembers(copy, w, 0, row)
        invariant flushes == old(flushes)
      {
        RememberRow(copy, w, row);
      }
      flushes := flushes + [FlushAll];
    }

    /** Converts and remembers one row, unless it equals the snapshot's. */
    method RefreshRow(w: Window, copy: array2<Byte>, row: nat, colours: Palette) returns (same: bool)
      requires w.Within(fb) && copy.Length0 == w.height && copy.Length1 == w.width && (copy as object) != fb
      requires row < w.height
      modifies fb, copy
      ensures same == old(RemembersRow(copy, w, row)) && Untouched(w, row, row + 1)
      ensures RemembersRow(copy, w, row)
      ensures forall r: nat | r < w.height && r != row ::
                && RemembersRow(copy, w, r) == old(RemembersRow(copy, w, r))
                && ShowsRow(w, colours, r) == old(ShowsRow(w, colours, r))
      ensures if same then unchanged(fb) && unchanged(copy) else ShowsRow(w, colours, row)
    {
      same := RowUnchanged(copy, w, row);
      if !same {
        ConvertRows(w, row, 1, colours);
        RememberRow(copy, w, row);
      }
    }

    /** Flushes the open range of changed rows. */
    method CloseRange(start: nat, row: nat, ghost from: nat, ghost changed: set<nat>, height: nat)
      requires from <= |flushes| && Flushed(flushes[from..], start, row, changed, height) && start <= row <= height
      modifies `flushes
      ensures old(flushes) <= flushes && Flushed(flushes[from..], height, row, changed, height)
    {
      FlushRange(flushes[from..], start, row, changed, height);
      flushes := flushes + [FlushRows(start, row - start)];
      assert flushes[from..] == old(flushes)[from..] + [FlushRows(start, row - start)];
    }

    /** Converts and remembers only the rows that differ from the snapshot, and flushes
        exactly those.  The others show afterwards what they showed before. */
    method CopyChanged(w: Window, copy: array2<Byte>, colours: Palette)
      requires w.Within(fb) && copy.Length0 == w.height && copy.Length1 == w.width && (copy as object) != fb
      requires (copy as object) != this
      modifies `flushes, fb, copy
      ensures Untouched(w, 0, w.height)
      ensures forall r: nat | r < w.height :: RemembersRow(copy, w, r)
      ensures forall r: nat | r < w.height ::
                ShowsRow(w, colours, r) <==> !old(RemembersRow(copy, w, r)) || old(ShowsRow(w, colours, r))
      ensures old(flushes) <= flushes
      ensures forall r: nat | r < w.height ::
                AnyFlushes(flushes[|old(flushes)|..], r) <==> !old(RemembersRow(copy, w, r))
    {
      ghost var before := flushes;
      ghost var changed := set r: nat | r < w.height && !RemembersRow(copy, w, r);
      ghost var shown := set r: nat | r < w.height && ShowsRow(w, colours, r);
      var start: nat := w.height;
      assert Flushed(flushes[|before|..], start, 0, changed, w.height);
      hide AnyFlushes, RemembersRow, ShowsRow, Flushed;
      for row := 0 to w.height
        invariant Untouched(w, 0, row)
        invariant forall r: nat | r < row :: RemembersRow(copy, w, r)
        invariant forall r: nat | r < row :: ShowsRow(w, colours, r) <==> r in changed || r in shown
        invariant forall r: nat | row <= r < w.height :: RemembersRow(copy, w, r) <==> r !in changed
        invariant forall r: nat | row <= r < w.height :: ShowsRow(w, colours, r) <==> r in shown
        invariant before <= flushes && (start < row || start == w.height)
        invariant Flushed(flushes[|before|..], start, row, changed, w.height)
      {
        var same := RefreshRow(w, copy, row, colours);
        assert same <==> row !in changed;
        if same {
          if start != w.height {
            CloseRange(start, row, |before|, changed, w.height);
            start := w.height;
          }
          RowSeen(flushes[|before|..], start, row, changed, w.height);
        } else {
          RowSeen(flushes[|before|..], start, row, changed, w.height);
          if start == w.height {
            start := row;
          }
        }
      }
      if start != w.height {
        CloseRange(start, w.height, |before|, changed, w.height);
      }
      AllSeen(flushes[|before|..], changed, w.height);
    }

    /** Whether the snapshot can be trusted to say what is in the buffer. */
    predicate Trusted(w: Window, sum: bv32)
      reads this
    {
      valid && HasSize(w.width, w.height) && sourceX == w.x && sourceY == w.y && signature == sum
    }

    /** Every row is converted, whatever the snapshot says. */
    predicate FullCopy(w: Window, sum: bv32, force: bool)
      reads this
    {
      !known || w.width == 0 || w.height == 0 || force || !Trusted(w, sum)
    }

    /** The rows that equal the snapshot already show the window through the palette. */
    ghost predicate KeptRowsShow(w: Window, colours: Palette)
      requires w.Within(fb) && HasSize(w.width, w.height)
      reads this, fb, shadow
    {
      forall r: nat | r < w.height && RemembersRow(shadow, w, r) :: ShowsRow(w, colours, r)
    }

    /** Afterwards the buffer shows the window through the palette if and only if every
        row was converted, or the rows that equal the snapshot showed it already.  They
        do when nobody else has written the buffer since the snapshot was taken and equal
        signatures stand for equal palettes, and then that will also be so the next time.
        The rows flushed are all, or exactly those that differ from the snapshot. */
    method CopyStatusLayer(w: Window, colours: Palette, sum: bv32, force: bool, memory: bool)
      requires Valid() && w.Within(fb)
      modifies this, fb, shadow
      ensures Valid() && fb == old(fb) && Untouched(w, 0, w.height)
      ensures Shows(w, colours, 0, w.height) <==> old(FullCopy(w, sum, force) || KeptRowsShow(w, colours))
      ensures old(InStep() && (valid && sum == signature ==> colours == palette)) ==>
                Shows(w, colours, 0, w.height) && InStep()
      ensures old(FullCopy(w, sum, force)) && w.width > 0 && w.height > 0 ==> InStep()
      ensures known && w.width > 0 && w.height > 0 ==> (Trusted(w, sum) <==> memory || old(HasSize(w.width, w.height)))
      ensures w.width > 0 && w.height > 0 && Trusted(w, sum) ==> forall r: nat | r < w.height :: RemembersRow(shadow, w, r)
      ensures valid ==>
                (signature == sum && palette == colours)
                || (old(valid) && signature == old(signature) && palette == old(palette))
      ensures shadow == null || shadow == old(shadow) || fresh(shadow)
      ensures if old(FullCopy(w, sum, force)) then flushes == old(flushes) + [FlushAll]
              else old(flushes) <= flushes
                   && forall r: nat | r < w.height ::
                        AnyFlushes(flushes[|old(flushes)|..], r) <==> !old(RemembersRow(shadow, w, r))
    {
      hide AnyFlushes, Shows;
      var ok := EnsureShadow(w.width, w.height, memory);
      if !ok {
        ConvertRows(w, 0, w.height, colours);
        flushes := flushes + [FlushAll];
        return;
      }
      CopyWithSnapshot(w, colours, sum, force);
    }

    /** Over any run of calls, nobody else writing the buffer and no two palettes sharing a
        signature, the buffer shows the window of the last call through its palette. */
    method Run(calls: seq<Draw>)
      requires Valid() && !valid && NoCollision(calls) && forall k | 0 <= k < |calls| :: calls[k].window.Within(fb)
      modifies this, fb, shadow
      ensures Valid() && fb == old(fb) && (shadow == null || shadow == old(shadow) || fresh(shadow))
      ensures calls != [] ==>
                var last := calls[|calls| - 1]; Shows(last.window, last.colours, 0, last.window.height)
    {
      hide Shows, Agrees, InStep, Untouched, AnyFlushes, Signature;
      assert InStep() by { NothingRemembered(); }
      for n := 0 to |calls|
        invariant Valid() && InStep() && fb == old(fb)
        invariant shadow == null || shadow == old(shadow) || fresh(shadow)
        invariant valid ==> exists k :: 0 <= k < n && Signature(calls[k].colours) == signature && calls[k].colours == palette
        invariant n > 0 ==> Shows(calls[n - 1].window, calls[n - 1].colours, 0, calls[n - 1].window.height)
      {
        var d := calls[n];
        var sum := PaletteSignatureArgb(d.colours);
        CopyStatusLayer(d.window, d.colours, sum, d.force, d.memory);
      }
    }

    lemma NothingRemembered()
      requires !valid
      ensures InStep()
    {
    }

    method CopyWithSnapshot(w: Window, colours: Palette, sum: bv32, force: bool)
      requires Valid() && w.Within(fb) && known && w.width > 0 && w.height > 0
      requires HasSize(w.width, w.height)
      modifies this, fb, shadow
      ensures Valid() && fb == old(fb) && shadow == old(shadow) && Untouched(w, 0, w.height)
      ensures Trusted(w, sum) && palette == colours && forall r: nat | r < w.height :: RemembersRow(shadow, w, r)
      ensures Shows(w, colours, 0, w.height) <==> old(FullCopy(w, sum, force) || KeptRowsShow(w, colours))
      ensures Shows(w, colours, 0, w.height) ==> InStep()
      ensures old(InStep() && (valid && sum == signature ==> colours == palette)) ==> Shows(w, colours, 0, w.height)
      ensures if old(FullCopy(w, sum, force)) then flushes == old(flushes) + [FlushAll]
              else old(flushes) <= flushes
                   && forall r: nat | r < w.height ::
                        AnyFlushes(flushes[|old(flushes)|..], r) <==> !old(RemembersRow(shadow, w, r))
    {
      hide AnyFlushes;
      if force || !Trusted(w, sum) {
        CopyAll(w, shadow, colours);
      } else {
        UpdateFromSnapshot(w, colours);
      }
      sourceX, sourceY, signature, valid, palette := w.x, w.y, sum, true, colours;
    }

    /** The incremental copy, from a snapshot of this window. */
    method UpdateFromSnapshot(w: Window, colours: Palette)
      requires Valid() && w.Within(fb) && HasSize(w.width, w.height)
      modifies `flushes, fb, shadow
      ensures Untouched(w, 0, w.height) && forall r: nat | r < w.height :: RemembersRow(shadow, w, r)
      ensures Shows(w, colours, 0, w.height) <==> old(KeptRowsShow(w, colours))
      ensures Shows(w, colours, 0, w.height) ==> Agrees(fb, shadow, colours)
      ensures old(Agrees(fb, shadow, colours)) ==> Shows(w, colours, 0, w.height)
      ensures old(flushes) <= flushes
      ensures forall r: nat | r < w.height ::
                AnyFlushes(flushes[|old(flushes)|..], r) <==> !old(RemembersRow(shadow, w, r))
    {
      hide AnyFlushes, Shows;
      assert Agrees(fb, shadow, colours) ==> KeptRowsShow(w, colours);
      CopyChanged(w, shadow, colours);
      ShowsRowByRow(w, colours);
      ShownIsAgreed(w, colours);
    }

    lemma ShownIsAgreed(w: Window, colours: Palette)
      requires w.Within(fb) && HasSize(w.width, w.height)
      requires forall r: nat | r < w.height :: RemembersRow(shadow, w, r)
      ensures Shows(w, colours, 0, w.height) ==> Agrees(fb, shadow, colours)
    {
      if Shows(w, colours, 0, w.height) {
        forall r, c | 0 <= r < w.height && 0 <= c < w.width
          ensures fb[r, c] == colours[shadow[r, c]]
        {
          assert RemembersRow(shadow, w, r);
        }
      }
    }
  }

  /** Of the rows before `row`, the changed ones are flushed or in the open range, and
      no other row is. */
  ghost predicate Flushed(log: seq<Flush>, start: nat, row: nat, changed: set<nat>, height: nat) {
    forall r: nat | r < height ::
      AnyFlushes(log, r) || start <= r < row <==> r < row && r in changed
  }

  /** One more row: unchanged with no range open, or changed and in the range. */
  lemma RowSeen(log: seq<Flush>, start: nat, row: nat, changed: set<nat>, height: nat)
    requires Flushed(log, start, row, changed, height) && row < height && (start < row || start == height)
    ensures row !in changed && start == height ==> Flushed(log, height, row + 1, changed, height)
    ensures row in changed ==> Flushed(log, if start == height then row else start, row + 1, changed, height)
  {
    hide AnyFlushes;
  }

  lemma AllSeen(log: seq<Flush>, changed: set<nat>, height: nat)
    requires Flushed(log, height, height, changed, height)
    ensures forall r: nat | r < height :: AnyFlushes(log, r) <==> r in changed
  {
    hide AnyFlushes;
  }

  lemma FlushRange(log: seq<Flush>, start: nat, row: nat, changed: set<nat>, height: nat)
    requires Flushed(log, start, row, changed, height) && start <= row <= height
    ensures Flushed(log + [FlushRows(start, row - start)], height, row, changed, height)
  {
    var after := log + [FlushRows(start, row - start)];
    forall r: nat | r < height
      ensures AnyFlushes(after, r) <==> AnyFlushes(log, r) || start <= r < row
    {
      if AnyFlushes(log, r) {
        var i :| 0 <= i < |log| && Flushes(log[i], r);
        assert Flushes(after[i], r);
      }
      assert Flushes(after[|log|], r) <==> start <= r < row;
    }
  }

  // -------------------------------------------------------- a missed palette

  /** A window of one pixel that shows the given palette index. */
  function OnePixel(index: Byte): Window {
    Window([index], 1, 0, 0, 1, 1)
  }

  /** Whatever the palette, the place and the new colour there: two calls for one window,
      before and after a change of two colours, that leave the old colour in the buffer. */
  method MissedPaletteChange(before: Palette, index: Byte, colour: Colour) returns (p: StatusPlane, after: Palette)
    requires index < 255 && colour != before[index]
    ensures Signature(after) == Signature(before) && after == before[index := colour][255 := after[255]]
    ensures p.Valid() && OnePixel(index).Within(p.fb) && !p.Shows(OnePixel(index), after, 0, 1)
  {
    after := before[index := colour][255 := Undoing(before, before[index := colour], 255)];
    TwoChangesCanCancel(before, index, 255, colour, after[255]);
    assert after[index] == colour;
    hide Signature, Undoing;
    var w := OnePixel(index);
    p := new StatusPlane(1, 1, true);
    assert w.Within(p.fb);
    var sum := PaletteSignatureArgb(before);
    p.CopyStatusLayer(w, before, sum, false, true);
    assert p.fb[0, 0] == before[w.source[w.Index(0, 0)]] == before[index];
    assert p.RemembersRow(p.shadow, w, 0) && !p.ShowsRow(w, after, 0);
    var second := PaletteSignatureArgb(after);
    p.CopyStatusLayer(w, after, second, false, true);
  }
}
