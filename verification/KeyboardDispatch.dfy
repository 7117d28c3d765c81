/** Turning the keyboards' aggregate into key events for the emulator, with the raw
    keyboard monitor that may take the keyboards over, and while no menu is open. */
module KeyboardDispatch {
  import opened Wrappers
  import opened Bits
  import opened KeyboardState
  import opened KeyTrace

  /** The emulator's modifier mask: one bit per left or right control, shift and alt. */
  function ViceModifiers(modifiers: bv8): nat {
    (if Bit(modifiers, 0) then 4 else 0) + (if Bit(modifiers, 1) then 1 else 0) + (if Bit(modifiers, 2) then 16 else 0)
    + (if Bit(modifiers, 4) then 8 else 0) + (if Bit(modifiers, 5) then 2 else 0) + (if Bit(modifiers, 6) then 32 else 0)
  }

  /** Each modifier's bit in a report, code and part of the emulator's mask: the bits run
      left control, shift, alt, super, then the same on the right. */
  lemma ModifierTable(m: bv8)
    ensures ModifierCode(0) == 0x102 && ModifierCode(1) == 0x100 && ModifierCode(2) == 0x104 && ModifierCode(3) == 0x106
    ensures ModifierCode(4) == 0x103 && ModifierCode(5) == 0x101 && ModifierCode(6) == 0x105 && ModifierCode(7) == 0x107
    ensures ViceModifiers(m) == (if m & 0x02 != 0 then 1 else 0) + (if m & 0x20 != 0 then 2 else 0)
                              + (if m & 0x01 != 0 then 4 else 0) + (if m & 0x10 != 0 then 8 else 0)
                              + (if m & 0x04 != 0 then 16 else 0) + (if m & 0x40 != 0 then 32 else 0)
  {
  }

  // ---------------------------------------------- state and trace, as values

  /** What the key and modifier states say is pressed, and with which modifiers. */
  function Dispatched(keys: seq<bool>, mods: seq<nat>, modifiers: bv8, c: Code): Option<nat>
    requires |keys| == USAGES && |mods| == USAGES
  {
    if c < USAGES then (if c > 0 && keys[c] then Some(mods[c]) else None)
    else if c < 0x108 && Bit(modifiers, BitOf(c)) then Some(0)
    else None
  }

  ghost predicate Describes(keys: seq<bool>, mods: seq<nat>, modifiers: bv8, trace: seq<Item>) {
    && |keys| == USAGES && |mods| == USAGES
    && forall c: Code :: Held(trace, c) == Dispatched(keys, mods, modifiers, c)
  }

  /** The mask computed from the modifier states is the one the trace shows. */
  lemma MaskIsSeen(keys: seq<bool>, mods: seq<nat>, modifiers: bv8, trace: seq<Item>)
    requires Describes(keys, mods, modifiers, trace)
    ensures MaskSeen(trace) == ViceModifiers(modifiers)
  {
    hide Bit, Held;
    assert BitOf(0x102) == 0 && BitOf(0x100) == 1 && BitOf(0x104) == 2;
    assert BitOf(0x103) == 4 && BitOf(0x101) == 5 && BitOf(0x105) == 6;
  }

  ghost predicate GoodTrace(trace: seq<Item>) {
    CarriesMask(trace) && forall c: Code :: Good(trace, c)
  }

  /** No key or modifier is blocked that the devices do not hold. */
  ghost predicate BlocksOnlyHeld(trace: seq<Item>, reports: seq<Report>) {
    forall c: Code :: Blocked(trace, c) ==> CodeDown(reports, c)
  }

  /** Delivered is exactly what the devices hold and is not blocked. */
  ghost predicate Settled(trace: seq<Item>, reports: seq<Report>) {
    forall c: Code :: Held(trace, c).Some? <==> CodeDown(reports, c) && !Blocked(trace, c)
  }

  ghost predicate NothingHeld(trace: seq<Item>) {
    forall c: Code :: Held(trace, c) == None
  }

  /** The suppression records say exactly what is blocked. */
  ghost predicate Suppresses(keys: seq<bool>, modifiers: bv8, trace: seq<Item>) {
    && |keys| == USAGES
    && (forall u: nat | 0 < u < USAGES :: Blocked(trace, u) <==> keys[u])
    && (forall b: nat | b < MODIFIERS :: Blocked(trace, ModifierCode(b)) <==> Bit(modifiers, b))
  }

  /** They do so once what has been released is dropped from them. */
  ghost predicate SuppressesHeld(keys: seq<bool>, modifiers: bv8, reports: seq<Report>, trace: seq<Item>) {
    && |keys| == USAGES
    && (forall u: nat | 0 < u < USAGES :: Blocked(trace, u) <==> keys[u] && KeyDown(reports, u))
    && (forall b: nat | b < MODIFIERS :: Blocked(trace, ModifierCode(b)) <==> Bit(modifiers, b) && ModifierDown(reports, b))
  }

  ghost predicate SameBlocked(before: seq<Item>, after: seq<Item>) {
    forall c: Code :: Blocked(after, c) == Blocked(before, c)
  }

  predicate OnlyEvents(items: seq<Item>) {
    forall i | 0 <= i < |items| :: items[i].Press? || items[i].Release?
  }

  /** Only key events were added, which block and unblock nothing. */
  ghost predicate Delivers(before: seq<Item>, after: seq<Item>) {
    before <= after && OnlyEvents(after[|before|..]) && SameBlocked(before, after)
  }

  // --------------------------------------------------------- modifier events

  function ModifierItem(bit: nat, down: bool): Item
    requires bit < MODIFIERS
  {
    if down then Press(ModifierCode(bit), 0) else Release(ModifierCode(bit), 0)
  }

  lemma ModifierEvent(keys: seq<bool>, mods: seq<nat>, m: bv8, trace: seq<Item>, bit: nat, down: bool)
    requires Describes(keys, mods, m, trace) && GoodTrace(trace) && bit < MODIFIERS && Bit(m, bit) != down
    requires down ==> !Blocked(trace, ModifierCode(bit))
    ensures var after := trace + [ModifierItem(bit, down)];
      Describes(keys, mods, WithBit(m, bit, down), after) && GoodTrace(after) && SameBlocked(trace, after)
  {
    hide Held, Blocked, Good, CarriesMask, MaskSeen, Bit, WithBit;
    Append(trace, ModifierItem(bit, down));
    var after := trace + [ModifierItem(bit, down)];
    forall c: Code
      ensures Held(after, c) == Dispatched(keys, mods, WithBit(m, bit, down), c)
      ensures GoodThen(Held(trace, c), Blocked(trace, c), ModifierItem(bit, down), c)
    {
      if 0x100 <= c < 0x108 {
        CodeOfBit(c);
      }
    }
  }

  lemma SameBits(keys: seq<bool>, mods: seq<nat>, m: bv8, n: bv8, trace: seq<Item>)
    requires Describes(keys, mods, m, trace) && forall b: nat | b < MODIFIERS :: Bit(m, b) == Bit(n, b)
    ensures Describes(keys, mods, n, trace)
  {
    hide Bit, Held;
    forall c: Code
      ensures Held(trace, c) == Dispatched(keys, mods, n, c)
    {
      assert Held(trace, c) == Dispatched(keys, mods, m, c);
    }
  }

  // ------------------------------------------------------------------- runs

  datatype InputEvent =
    | Reported(slot: nat, attached: bool, modifiers: bv8, keys: RawKeys, wantsRaw: bool)
    | Removed(slot: nat, wantsRaw: bool)

  /** Each device's latest report that was no error, after some events. */
  function ReportsAfter(reports: seq<Report>, events: seq<InputEvent>): (after: seq<Report>)
    requires |reports| == MAX_DEVICES
    ensures |after| == MAX_DEVICES
  {
    if events == [] then reports
    else
      var sofar := ReportsAfter(reports, events[..|events| - 1]);
      match events[|events| - 1]
      case Reported(slot, attached, modifiers, keys, _) =>
        if attached then Latest(sofar, slot, Report(modifiers, keys)) else sofar
      case Removed(slot, _) => if slot < MAX_DEVICES then sofar[slot := NO_REPORT] else sofar
  }

  /** Of one more event: a report of an attached keyboard counts for its device, a removal
      leaves its device with no key, and nothing else changes any report. */
  lemma ReportsFollow(reports: seq<Report>, events: seq<InputEvent>, e: InputEvent)
    requires |reports| == MAX_DEVICES
    ensures var before, after := ReportsAfter(reports, events), ReportsAfter(reports, events + [e]);
      && (forall d | 0 <= d < MAX_DEVICES && d != e.slot :: after[d] == before[d])
      && (e.Reported? && e.slot < MAX_DEVICES ==>
            after[e.slot] == if !e.attached || IsError(e.keys) then before[e.slot] else Report(e.modifiers, e.keys))
      && (e.Removed? && e.slot < MAX_DEVICES ==>
            after[e.slot].modifiers == 0 && forall k | k in after[e.slot].keys :: k == 0)
  {
    assert (events + [e])[..|events|] == events;
  }

  class Dispatcher {
    const state: USBKeyboardState
    const keyStates: array<bool>
    const keyMods: array<nat>
    const suppressed: array<bool>
    var modStates: bv8
    var suppressedModifiers: bv8
    var monitorActive: bool
    ghost var trace: seq<Item>

    ghost predicate Separate() {
      var ours: set<object> := {this, keyStates, keyMods, suppressed};
      state !in ours && state.keyOwners !in ours && state.modifierOwners !in ours
    }

    ghost predicate Consistent()
      reads this, keyStates, keyMods
    {
      && keyStates.Length == USAGES && keyMods.Length == USAGES && suppressed.Length == USAGES
      && keyStates != suppressed && Separate()
      && Describes(keyStates[..], keyMods[..], modStates, trace) && GoodTrace(trace)
    }

    ghost predicate Valid()
      reads this, keyStates, keyMods, suppressed, state, state.keyOwners, state.modifierOwners
    {
      && Consistent() && state.Valid() && BlocksOnlyHeld(trace, state.reports)
      && if monitorActive then NothingHeld(trace)
         else Settled(trace, state.reports)
              && Suppresses(suppressed[..], suppressedModifiers, trace)
    }

    constructor ()
      ensures Valid() && !monitorActive && trace == [] && state.reports == [NO_REPORT, NO_REPORT, NO_REPORT, NO_REPORT]
      ensures fresh(state) && fresh(state.keyOwners) && fresh(state.modifierOwners)
      ensures fresh(keyStates) && fresh(keyMods) && fresh(suppressed)
    {
      state := new USBKeyboardState();
      keyStates := new bool[USAGES](i => false);
      keyMods := new nat[USAGES](i => 0);
      suppressed := new bool[USAGES](i => false);
      modStates, suppressedModifiers, monitorActive, trace := 0, 0, false, [];
    }

    /** Presses or releases one key. */
    method EmitKey(usage: nat, down: bool, mods: nat)
      requires Consistent() && 0 < usage < USAGES && keyStates[usage] != down
      requires down ==> !Blocked(trace, usage) && mods == MaskSeen(trace)
      modifies `trace, keyStates, keyMods
      ensures Consistent() && keyStates[usage] == down
      ensures forall u: nat | u < USAGES && u != usage :: keyStates[u] == old(keyStates[u])
      ensures SameBlocked(old(trace), trace)
      ensures trace == old(trace) + [if down then Press(usage, mods) else Release(usage, old(keyMods[usage]))]
    {
      hide Held, Blocked, Good, CarriesMask, MaskSeen;
      var item := if down then Press(usage, mods) else Release(usage, keyMods[usage]);
      Append(trace, item);
      trace := trace + [item];
      keyMods[usage] := if down then mods else 0;
      keyStates[usage] := down;
    }

    method EmitModifierEvents(modifiers: bv8)
      requires Consistent()
      requires forall b: nat | b < MODIFIERS && Bit(modifiers, b) && !Bit(modStates, b) :: !Blocked(trace, ModifierCode(b))
      modifies `trace, `modStates
      ensures Consistent() && modStates == modifiers
      ensures Delivers(old(trace), trace)
    {
      hide Held, Blocked, Good, CarriesMask, MaskSeen, Bit, Dispatched;
      ghost var sofar := modStates;
      for bit := 0 to MODIFIERS
        invariant modStates == old(modStates)
        invariant Describes(keyStates[..], keyMods[..], sofar, trace) && GoodTrace(trace)
        invariant forall b: nat | b < MODIFIERS :: Bit(sofar, b) == Bit(if b < bit then modifiers else modStates, b)
        invariant Delivers(old(trace), trace)
      {
        var down := Bit(modifiers, bit);
        if down != Bit(modStates, bit) {
          ModifierEvent(keyStates[..], keyMods[..], sofar, trace, bit, down);
          trace := trace + [ModifierItem(bit, down)];
          sofar := WithBit(sofar, bit, down);
        }
      }
      SameBits(keyStates[..], keyMods[..], sofar, modifiers, trace);
      modStates := modifiers;
    }

    /** One key of a dispatch: keeps or lifts its suppression, then delivers a change. */
    method DispatchKey(usage: nat, mods: nat)
      requires Consistent() && state.Valid() && 0 < usage < USAGES && mods == ViceModifiers(modStates)
      requires Blocked(trace, usage) <==> suppressed[usage] && KeyDown(state.reports, usage)
      modifies `trace, keyStates, keyMods, suppressed
      ensures Consistent() && Delivers(old(trace), trace)
      ensures suppressed[usage] <==> Blocked(trace, usage)
      ensures keyStates[usage] <==> KeyDown(state.reports, usage) && !Blocked(trace, usage)
      ensures forall u: nat | u < USAGES && u != usage ::
                keyStates[u] == old(keyStates[u]) && suppressed[u] == old(suppressed[u])
    {
      hide Held, Blocked, Good, CarriesMask, MaskSeen, Dispatched, KeyDown;
      var raw := state.IsPressed(usage);
      var down := raw;
      if suppressed[usage] {
        if raw {
          down := false;
        } else {
          suppressed[usage] := false;
        }
      }
      if keyStates[usage] != down {
        MaskIsSeen(keyStates[..], keyMods[..], modStates, trace);
        EmitKey(usage, down, mods);
      }
    }

    method DispatchKeys(mods: nat)
      requires Consistent() && state.Valid() && mods == ViceModifiers(modStates)
      requires forall u: nat | 0 < u < USAGES :: Blocked(trace, u) <==> suppressed[u] && KeyDown(state.reports, u)
      modifies `trace, keyStates, keyMods, suppressed
      ensures Consistent() && Delivers(old(trace), trace)
      ensures forall u: nat | 0 < u < USAGES :: suppressed[u] <==> Blocked(trace, u)
      ensures forall u: nat | 0 < u < USAGES :: keyStates[u] <==> KeyDown(state.reports, u) && !Blocked(trace, u)
    {
      hide Held, Blocked, Good, CarriesMask, MaskSeen, Dispatched, KeyDown, Describes;
      for usage := 1 to USAGES
        invariant Consistent() && Delivers(old(trace), trace)
        invariant state.Valid()
        invariant forall u: nat | 0 < u < usage :: suppressed[u] <==> Blocked(old(trace), u)
        invariant forall u: nat | 0 < u < usage :: keyStates[u] <==> KeyDown(state.reports, u) && !Blocked(old(trace), u)
        invariant forall u: nat | usage <= u < USAGES :: suppressed[u] == old(suppressed[u])
      {
        DispatchKey(usage, mods);
      }
    }

    /** Drops suppressed modifiers that have been released, and masks out the others. */
    method MaskModifiers(raw: bv8) returns (modifiers: bv8)
      modifies `suppressedModifiers
      ensures forall b: nat | b < MODIFIERS :: Bit(modifiers, b) <==> Bit(raw, b) && !Bit(old(suppressedModifiers), b)
      ensures forall b: nat | b < MODIFIERS :: Bit(suppressedModifiers, b) <==> Bit(old(suppressedModifiers), b) && Bit(raw, b)
    {
      hide Bit;
      modifiers := raw;
      for bit := 0 to MODIFIERS
        invariant forall b: nat | b < MODIFIERS ::
                    Bit(modifiers, b) <==> Bit(raw, b) && !(b < bit && Bit(old(suppressedModifiers), b))
        invariant forall b: nat | b < MODIFIERS ::
                    Bit(suppressedModifiers, b) <==> Bit(old(suppressedModifiers), b) && (b < bit ==> Bit(raw, b))
      {
        if Bit(suppressedModifiers, bit) {
          if Bit(raw, bit) {
            modifiers := WithBit(modifiers, bit, false);
          } else {
            suppressedModifiers := WithBit(suppressedModifiers, bit, false);
          }
        }
      }
    }

    /** Brings what the emulator sees up to the devices' aggregate, less what is blocked. */
    method DispatchUSBKeyboardState()
      requires Consistent() && state.Valid()
      requires SuppressesHeld(suppressed[..], suppressedModifiers, state.reports, trace)
      modifies `trace, `modStates, `suppressedModifiers, keyStates, keyMods, suppressed
      ensures Consistent() && Delivers(old(trace), trace)
      ensures Settled(trace, state.reports)
      ensures Suppresses(suppressed[..], suppressedModifiers, trace)
    {
      assert !KeyDown(state.reports, 0);
      hide Held, Blocked, Good, CarriesMask, MaskSeen, KeyDown, ModifierDown, Bit, ViceModifiers;
      var raw := state.Modifiers();
      var modifiers := MaskModifiers(raw);
      EmitModifierEvents(modifiers);
      DispatchKeys(ViceModifiers(modifiers));
      forall c: Code
        ensures Held(trace, c).Some? <==> CodeDown(state.reports, c) && !Blocked(trace, c)
      {
        assert Held(trace, c) == Dispatched(keyStates[..], keyMods[..], modStates, c);
        if 0x100 <= c < 0x108 {
          CodeOfBit(c);
        }
      }
    }

    /** Releases every key and modifier delivered as pressed. */
    method ReleaseDispatchedUSBKeyboardState()
      requires Consistent()
      modifies `trace, `modStates, keyStates, keyMods
      ensures Consistent() && Delivers(old(trace), trace)
      ensures NothingHeld(trace)
    {
      hide Held, Blocked, Good, CarriesMask, MaskSeen, Describes;
      for usage := 1 to USAGES
        invariant Consistent() && modStates == old(modStates)
        invariant Delivers(old(trace), trace)
        invariant forall u: nat | 0 < u < usage :: !keyStates[u]
      {
        if keyStates[usage] {
          EmitKey(usage, false, 0);
        }
      }
      EmitModifierEvents(0);
      NoneDispatched(keyStates[..], keyMods[..], trace);
    }

    /** Leaving the raw monitor blocks whatever the devices hold at that moment. */
    method EndRawKeyboardMonitor() returns (ended: bool)
      requires Valid()
      modifies `trace, `monitorActive, `suppressedModifiers, suppressed
      ensures ended == old(monitorActive) && !monitorActive
      ensures trace == if ended then old(trace) + [MonitorEnded(state.reports)] else old(trace)
      ensures Valid()
    {
      hide Held, Blocked, Good, CarriesMask, MaskSeen, KeyDown, ModifierDown, Bit, Describes;
      if !monitorActive {
        return false;
      }
      suppressedModifiers := state.Modifiers();
      for usage := 1 to USAGES
        invariant Consistent() && state.Valid() && trace == old(trace)
        invariant forall b: nat | b < MODIFIERS :: Bit(suppressedModifiers, b) <==> ModifierDown(state.reports, b)
        invariant forall u: nat | 0 < u < usage :: suppressed[u] <==> KeyDown(state.reports, u)
      {
        suppressed[usage] := state.IsPressed(usage);
      }
      monitorActive := false;
      Note(MonitorEnded(state.reports));
      return true;
    }

    /** Notes in the trace what the devices hold now. */
    ghost method Note(item: Item)
      requires Consistent() && (item.Aggregate? || item.MonitorEnded? || item.Raw?)
      modifies `trace
      ensures Consistent() && trace == old(trace) + [item]
      ensures forall c: Code :: Held(trace, c) == Held(old(trace), c)
      ensures forall c: Code :: Blocked(trace, c) == BlockedThen(Blocked(old(trace), c), item, c)
    {
      hide Held, Blocked, Good, CarriesMask, MaskSeen;
      Append(trace, item);
      trace := trace + [item];
    }

    /** The raw monitor takes over: whatever the emulator saw pressed is released. */
    method EnterRawKeyboardMonitor()
      requires Consistent() && (monitorActive ==> NothingHeld(trace))
      modifies `trace, `modStates, `monitorActive, keyStates, keyMods
      ensures Consistent() && Delivers(old(trace), trace) && monitorActive && NothingHeld(trace)
    {
      hide Held, Blocked, Good, CarriesMask, MaskSeen, Describes;
      if !monitorActive {
        ReleaseDispatchedUSBKeyboardState();
        monitorActive := true;
      }
    }

    /** After the devices' aggregate changed, or the monitor ended, dispatches. */
    method Update(changed: bool, ghost before: seq<Report>)
      requires Consistent() && state.Valid() && !monitorActive
      requires BlocksOnlyHeld(trace, before) && Settled(trace, before)
      requires Suppresses(suppressed[..], suppressedModifiers, trace)
      requires !changed ==> SameKeys(before, state.reports, USAGES) && SameModifiers(before, state.reports, MODIFIERS)
      modifies `trace, `modStates, `suppressedModifiers, keyStates, keyMods, suppressed
      ensures Valid() && !monitorActive
      ensures old(trace) + [Aggregate(state.reports)] <= trace && OnlyEvents(trace[|old(trace)| + 1..])
    {
      hide Held, Blocked, Good, CarriesMask, MaskSeen, KeyDown, ModifierDown, Bit, Describes;
      Note(Aggregate(state.reports));
      if changed {
        DispatchUSBKeyboardState();
      } else {
        SameCodes(before, state.reports);
      }
    }

    /** A report from a keyboard: to the raw monitor if one wants it, else dispatched. */
    method KeyStatusHandlerRaw(slot: nat, attached: bool, modifiers: bv8, keys: RawKeys, wantsRaw: bool)
      requires Valid()
      modifies this, keyStates, keyMods, suppressed, state, state.keyOwners, state.modifierOwners
      ensures Valid()
      ensures slot >= MAX_DEVICES || !attached ==>
                trace == old(trace) && state.reports == old(state.reports) && monitorActive == old(monitorActive)
      ensures slot < MAX_DEVICES && attached ==>
                && state.reports == Latest(old(state.reports), slot, Report(modifiers, keys))
                && Handled(old(trace), old(monitorActive), old(state.reports), wantsRaw)
    {
      hide Held, Blocked, Good, CarriesMask, MaskSeen, KeyDown, ModifierDown, Bit, Describes, Latest;
      if slot >= MAX_DEVICES || !attached {
        return;
      }
      if wantsRaw {
        var _ := state.ApplyReport(slot, modifiers, keys);
        Note(Aggregate(state.reports));
        EnterRawKeyboardMonitor();
        Note(Raw(slot, modifiers, keys));
        assert trace[|old(trace)|..][0] == Aggregate(state.reports);
        return;
      }
      var ended := EndRawKeyboardMonitor();
      var changed := state.ApplyReport(slot, modifiers, keys);
      Update(changed || ended, old(state.reports));
    }

    /** What a report or removal leads to: under the monitor the emulator sees nothing
        pressed; otherwise it sees exactly what the devices hold and is not blocked. */
    ghost predicate Handled(before: seq<Item>, wasActive: bool, was: seq<Report>, wantsRaw: bool)
      reads this, state
    {
      && monitorActive == wantsRaw
      && if wantsRaw then
           before <= trace && Aggregate(state.reports) in trace[|before|..] && NothingHeld(trace)
         else
           var marks := before + (if wasActive then [MonitorEnded(was)] else []) + [Aggregate(state.reports)];
           marks <= trace && OnlyEvents(trace[|marks|..]) && Settled(trace, state.reports)
    }

    /** A keyboard is gone: everything it held is let go. */
    method RemoveUSBKeyboardDevice(slot: nat, wantsRaw: bool)
      requires Valid()
      modifies this, keyStates, keyMods, suppressed, state, state.keyOwners, state.modifierOwners
      ensures Valid()
      ensures slot >= MAX_DEVICES ==>
                trace == old(trace) && state.reports == old(state.reports) && monitorActive == old(monitorActive)
      ensures slot < MAX_DEVICES ==>
                && state.reports == old(state.reports)[slot := NO_REPORT]
                && Handled(old(trace), old(monitorActive), old(state.reports), wantsRaw)
    {
      hide Held, Blocked, Good, CarriesMask, MaskSeen, KeyDown, ModifierDown, Bit, Describes;
      if slot >= MAX_DEVICES {
        return;
      }
      if wantsRaw {
        EnterRawKeyboardMonitor();
        var _ := state.RemoveDevice(slot);
        ghost var at := |trace| - |old(trace)|;
        Note(Aggregate(state.reports));
        Note(Raw(slot, 0, [0, 0, 0, 0, 0, 0]));
        assert trace[|old(trace)|..][at] == Aggregate(state.reports);
        return;
      }
      var ended := EndRawKeyboardMonitor();
      var changed := state.RemoveDevice(slot);
      Update(changed || ended, old(state.reports));
    }

    /** In every run the trace is good for every key and modifier, and what the emulator
        sees pressed is nothing under the raw monitor and otherwise exactly the union of
        the devices' latest reports, less what is blocked. */
    method Run(events: seq<InputEvent>)
      requires Valid()
      modifies this, keyStates, keyMods, suppressed, state, state.keyOwners, state.modifierOwners
      ensures Valid() && old(trace) <= trace && CarriesMask(trace) && forall c: Code :: Good(trace, c)
      ensures state.reports == ReportsAfter(old(state.reports), events)
      ensures if monitorActive then forall c: Code :: Held(trace, c) == None
              else forall c: Code :: Held(trace, c).Some? <==> CodeDown(state.reports, c) && !Blocked(trace, c)
    {
      hide Held, Blocked, Good, CarriesMask, MaskSeen, CodeDown;
      for i := 0 to |events|
        invariant Valid() && old(trace) <= trace
        invariant state.reports == ReportsAfter(old(state.reports), events[..i])
      {
        assert events[..i + 1][..i] == events[..i] && events[..i + 1][i] == events[i];
        match events[i] {
          case Reported(slot, attached, modifiers, keys, wantsRaw) =>
            KeyStatusHandlerRaw(slot, attached, modifiers, keys, wantsRaw);
          case Removed(slot, wantsRaw) =>
            RemoveUSBKeyboardDevice(slot, wantsRaw);
        }
      }
      assert events[..|events|] == events;
    }
  }

  lemma SameCodes(before: seq<Report>, after: seq<Report>)
    requires SameKeys(before, after, USAGES) && SameModifiers(before, after, MODIFIERS)
    ensures forall c: Code :: CodeDown(before, c) == CodeDown(after, c)
  {
    forall c: Code
      ensures CodeDown(before, c) == CodeDown(after, c)
    {
      if 0x100 <= c < 0x108 {
        assert BitOf(c) < MODIFIERS;
      }
    }
  }

  lemma NoneDispatched(keys: seq<bool>, mods: seq<nat>, trace: seq<Item>)
    requires Describes(keys, mods, 0, trace) && forall u: nat | 0 < u < USAGES :: !keys[u]
    ensures NothingHeld(trace)
  {
    hide Held;
    NoBits(0);
  }
}
