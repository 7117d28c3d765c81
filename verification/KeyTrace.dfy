/** What is delivered to the emulator by way of the keyboard, as a trace, and what a
    good trace is: per key, presses and releases alternate, a release carries its
    press's modifiers, and a key held when the raw monitor ended stays silent until
    it has been released. */
module KeyTrace {
  import opened Wrappers
  import opened Bits
  import opened KeyboardState

  /** Keys are 1 to 255, modifiers 0x100 to 0x107. */
  type Code = nat

  /** `Aggregate` and `MonitorEnded` note the devices' latest reports at that moment. */
  datatype Item =
    | Press(code: Code, mods: nat)
    | Release(code: Code, mods: nat)
    | Raw(slot: nat, modifiers: bv8, keys: seq<Byte>)
    | Aggregate(reports: seq<Report>)
    | MonitorEnded(reports: seq<Report>)

  /** The keyboard code of each modifier bit, left control first. */
  function ModifierCode(bit: nat): (code: Code)
    requires bit < MODIFIERS
    ensures 0x100 <= code < 0x108 && BitOf(code) == bit
  {
    [0x102, 0x100, 0x104, 0x106, 0x103, 0x101, 0x105, 0x107][bit]
  }

  function BitOf(code: Code): (bit: nat)
    requires 0x100 <= code < 0x108
    ensures bit < MODIFIERS
  {
    [1, 5, 0, 4, 2, 6, 3, 7][code - 0x100]
  }

  lemma CodeOfBit(code: Code)
    requires 0x100 <= code < 0x108
    ensures ModifierCode(BitOf(code)) == code
  {
  }

  predicate CodeDown(reports: seq<Report>, code: Code) {
    if code < 0x100 then KeyDown(reports, code) else code < 0x108 && ModifierDown(reports, BitOf(code))
  }

  // ----------------------------------------------------------------- traces

  /** The modifiers a code was pressed with, if it is pressed and not yet released. */
  function Held(trace: seq<Item>, code: Code): Option<nat> {
    if trace == [] then None
    else HeldThen(Held(Front(trace), code), Last(trace), code)
  }

  function HeldThen(held: Option<nat>, item: Item, code: Code): Option<nat> {
    match item
    case Press(c, mods) => if c == code then Some(mods) else held
    case Release(c, _) => if c == code then None else held
    case _ => held
  }

  /** The code was down when the raw monitor last ended, and has been down ever since. */
  predicate Blocked(trace: seq<Item>, code: Code) {
    trace != [] && BlockedThen(Blocked(Front(trace), code), Last(trace), code)
  }

  predicate BlockedThen(blocked: bool, item: Item, code: Code) {
    match item
    case MonitorEnded(reports) => CodeDown(reports, code)
    case Aggregate(reports) => blocked && CodeDown(reports, code)
    case _ => blocked
  }

  /** Every press of the code finds it released and not blocked; every release finds it
      pressed, and carries the modifiers of that press. */
  predicate Good(trace: seq<Item>, code: Code) {
    trace == [] ||
    (Good(Front(trace), code)
     && GoodThen(Held(Front(trace), code), Blocked(Front(trace), code), Last(trace), code))
  }

  predicate GoodThen(held: Option<nat>, blocked: bool, item: Item, code: Code) {
    match item
    case Press(c, _) => c == code ==> held == None && !blocked
    case Release(c, mods) => c == code ==> held == Some(mods)
    case _ => true
  }

  /** The emulator's mask of the modifiers it has been told are pressed. */
  function MaskSeen(trace: seq<Item>): nat {
    (if Held(trace, 0x102).Some? then 4 else 0) + (if Held(trace, 0x100).Some? then 1 else 0)
    + (if Held(trace, 0x104).Some? then 16 else 0) + (if Held(trace, 0x103).Some? then 8 else 0)
    + (if Held(trace, 0x101).Some? then 2 else 0) + (if Held(trace, 0x105).Some? then 32 else 0)
  }

  /** Every key is pressed with the mask of the modifiers pressed at that moment. */
  predicate CarriesMask(trace: seq<Item>) {
    trace == [] || (CarriesMask(Front(trace)) && CarriesMaskThen(Front(trace), Last(trace)))
  }

  predicate CarriesMaskThen(trace: seq<Item>, item: Item) {
    item.Press? && item.code < 0x100 ==> item.mods == MaskSeen(trace)
  }

  lemma Append(trace: seq<Item>, item: Item)
    ensures CarriesMask(trace + [item]) <==> CarriesMask(trace) && CarriesMaskThen(trace, item)
    ensures forall c: Code :: Held(trace + [item], c) == HeldThen(Held(trace, c), item, c)
    ensures forall c: Code :: Blocked(trace + [item], c) == BlockedThen(Blocked(trace, c), item, c)
    ensures forall c: Code ::
              Good(trace + [item], c) <==> Good(trace, c) && GoodThen(Held(trace, c), Blocked(trace, c), item, c)
  {
    assert Front(trace + [item]) == trace && Last(trace + [item]) == item;
  }

  // ------------------------------------------------- what Good means, spelt out

  /** Between a press and the next release of a code lies no other event of it, and the
      release carries that press's modifiers. */
  lemma {:induction false} HeldSince(trace: seq<Item>, code: Code)
    requires Held(trace, code).Some?
    ensures exists i :: 0 <= i < |trace| && trace[i] == Press(code, Held(trace, code).value)
              && forall k | i < k < |trace| :: !IsEventOf(trace[k], code)
  {
    if IsEventOf(Last(trace), code) {
      assert trace[|trace| - 1] == Press(code, Held(trace, code).value);
    } else {
      HeldSince(Front(trace), code);
      var i :| 0 <= i < |trace| - 1 && Front(trace)[i] == Press(code, Held(trace, code).value)
               && forall k | i < k < |trace| - 1 :: !IsEventOf(Front(trace)[k], code);
      assert trace[i] == Front(trace)[i];
      forall k | i < k < |trace|
        ensures !IsEventOf(trace[k], code)
      {
        assert k < |trace| - 1 ==> trace[k] == Front(trace)[k];
      }
    }
  }

  predicate IsEventOf(item: Item, code: Code) {
    (item.Press? || item.Release?) && item.code == code
  }

  /** Where the next event of a code may be a press: nowhere, or after a release. */
  lemma {:induction false} ReleasedSince(trace: seq<Item>, code: Code, i: nat)
    requires Held(trace, code) == None
    requires i < |trace| && IsEventOf(trace[i], code) && forall k | i < k < |trace| :: !IsEventOf(trace[k], code)
    ensures trace[i].Release?
  {
    if i < |trace| - 1 {
      assert Front(trace)[i] == trace[i];
      ReleasedSince(Front(trace), code, i);
    }
  }

  lemma {:induction false} GoodPrefix(trace: seq<Item>, code: Code, n: nat)
    requires Good(trace, code) && n <= |trace|
    ensures Good(trace[..n], code)
  {
    if n < |trace| {
      GoodPrefix(Front(trace), code, n);
      assert Front(trace)[..n] == trace[..n];
    } else {
      assert trace[..n] == trace;
    }
  }

  /** In a good trace, two neighbouring events of a code are a press and a release with
      the press's modifiers, or a release and a press. */
  lemma GoodAlternates(trace: seq<Item>, code: Code, i: nat, j: nat)
    requires Good(trace, code) && i < j < |trace| && IsEventOf(trace[i], code) && IsEventOf(trace[j], code)
    requires forall k | i < k < j :: !IsEventOf(trace[k], code)
    ensures if trace[j].Press? then trace[i].Release? else trace[i] == Press(code, trace[j].mods)
  {
    GoodPrefix(trace, code, j + 1);
    var upTo := trace[..j + 1];
    assert Front(upTo) == trace[..j] && Last(upTo) == trace[j];
    if trace[j].Press? {
      ReleasedSince(trace[..j], code, i);
    } else {
      HeldSince(trace[..j], code);
      var p :| 0 <= p < j && trace[..j][p] == Press(code, trace[j].mods)
               && forall k | p < k < j :: !IsEventOf(trace[..j][k], code);
      assert trace[..j][i] == trace[i] && trace[..j][p] == trace[p];
      assert !(p < i) && !(i < p);
    }
  }

  /** A key's press carries the mask of the modifiers pressed just before it. */
  lemma {:induction false} PressCarriesMask(trace: seq<Item>, j: nat)
    requires CarriesMask(trace) && j < |trace| && trace[j].Press? && trace[j].code < 0x100
    ensures trace[j].mods == MaskSeen(trace[..j])
  {
    if j < |trace| - 1 {
      PressCarriesMask(Front(trace), j);
      assert Front(trace)[..j] == trace[..j];
    }
  }

  lemma {:induction false} SilentSoFar(trace: seq<Item>, code: Code)
    requires forall k | 0 <= k < |trace| :: !IsEventOf(trace[k], code)
    ensures Held(trace, code) == None
  {
    if trace != [] {
      SilentSoFar(Front(trace), code);
    }
  }

  /** In a good trace, the first event of a code is a press. */
  lemma GoodStartsWithPress(trace: seq<Item>, code: Code, j: nat)
    requires Good(trace, code) && j < |trace| && IsEventOf(trace[j], code)
    requires forall k | 0 <= k < j :: !IsEventOf(trace[k], code)
    ensures trace[j].Press?
  {
    GoodPrefix(trace, code, j + 1);
    var upTo := trace[..j + 1];
    assert Front(upTo) == trace[..j] && Last(upTo) == trace[j];
    SilentSoFar(trace[..j], code);
  }

  lemma {:induction false} BlockedSince(trace: seq<Item>, code: Code, m: nat)
    requires m < |trace| && trace[m].MonitorEnded? && CodeDown(trace[m].reports, code)
    requires forall k | m < k < |trace| :: (trace[k].Aggregate? || trace[k].MonitorEnded?) ==> CodeDown(trace[k].reports, code)
    ensures Blocked(trace, code)
  {
    if m < |trace| - 1 {
      assert forall k | m <= k < |trace| - 1 :: Front(trace)[k] == trace[k];
      BlockedSince(Front(trace), code, m);
    }
  }

  predicate NotesReports(item: Item) { item.Aggregate? || item.MonitorEnded? }

  /** The monitor ended at `m` with the code down, and it has been down in every aggregate since. */
  ghost predicate DownSince(trace: seq<Item>, code: Code, m: int) {
    && 0 <= m < |trace| && trace[m].MonitorEnded?
    && forall k | m <= k < |trace| && NotesReports(trace[k]) :: CodeDown(trace[k].reports, code)
  }

  /** A code is blocked exactly if it was down when the monitor last ended, and has been
      down in every aggregate since: one report that has it released is enough. */
  lemma {:induction false} BlockedIff(trace: seq<Item>, code: Code)
    ensures Blocked(trace, code) <==> exists m :: DownSince(trace, code, m)
  {
    if trace != [] {
      BlockedIff(Front(trace), code);
      DownSinceMore(Front(trace), Last(trace), code);
      assert Front(trace) + [Last(trace)] == trace;
      hide CodeDown, DownSince;
    }
  }

  lemma DownSinceMore(front: seq<Item>, item: Item, code: Code)
    ensures var trace := front + [item]; var down := NotesReports(item) ==> CodeDown(item.reports, code);
      (exists m :: DownSince(trace, code, m)) <==> down && (item.MonitorEnded? || exists m :: DownSince(front, code, m))
  {
    hide CodeDown;
    var trace := front + [item];
    var down := NotesReports(item) ==> CodeDown(item.reports, code);
    forall m | m < |front|
      ensures DownSince(trace, code, m) <==> down && DownSince(front, code, m)
    {
      assert trace[|front|] == item && forall k | 0 <= k < |front| :: trace[k] == front[k];
    }
    assert trace[|front|] == item;
    assert DownSince(trace, code, |front|) <==> down && item.MonitorEnded?;
  }

  /** In a good trace, a code that was down when the monitor ended, and in every
      aggregate since, is not pressed. */
  lemma HeldAtMonitorEndIsSilent(trace: seq<Item>, code: Code, m: nat, j: nat)
    requires Good(trace, code) && m < j < |trace|
    requires trace[m].MonitorEnded? && CodeDown(trace[m].reports, code)
    requires forall k | m < k < j :: (trace[k].Aggregate? || trace[k].MonitorEnded?) ==> CodeDown(trace[k].reports, code)
    ensures !(trace[j].Press? && trace[j].code == code)
  {
    GoodPrefix(trace, code, j + 1);
    var upTo := trace[..j + 1];
    assert Front(upTo) == trace[..j] && Last(upTo) == trace[j];
    BlockedSince(trace[..j], code, m);
  }
}
