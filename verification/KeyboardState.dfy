/** The aggregate of several USB keyboards: who holds each key and modifier. */
module KeyboardState {
  import opened Wrappers
  import opened Bits

  const MAX_DEVICES: nat := 4
  const REPORT_KEYS: nat := 6
  const USAGES: nat := 256
  const MODIFIERS: nat := 8

  // ---------------------------------------------------------------- reports

  /** A boot-keyboard report: the modifier byte and six usage codes. */
  datatype Report = Report(modifiers: bv8, keys: seq<Byte>)

  type RawKeys = k: seq<Byte> | |k| == REPORT_KEYS witness [0, 0, 0, 0, 0, 0]

  const NO_REPORT := Report(0, [0, 0, 0, 0, 0, 0])

  predicate IsError(keys: seq<Byte>) {
    exists i | 0 <= i < |keys| :: 1 <= keys[i] <= 3
  }

  /** The latest report of each device that was not an error. */
  function Latest(reports: seq<Report>, device: nat, r: Report): seq<Report>
    requires |reports| == MAX_DEVICES
  {
    if device >= MAX_DEVICES || IsError(r.keys) then reports else reports[device := r]
  }

  /** Usage 0 stands for "no key". */
  predicate KeyDown(reports: seq<Report>, usage: nat) {
    0 < usage < USAGES && exists d | 0 <= d < |reports| :: usage in reports[d].keys
  }

  predicate ModifierDown(reports: seq<Report>, bit: nat) {
    bit < MODIFIERS && exists d | 0 <= d < |reports| :: Bit(reports[d].modifiers, bit)
  }

  predicate SameKeys(before: seq<Report>, after: seq<Report>, limit: nat) {
    forall u: nat | u < limit :: KeyDown(before, u) == KeyDown(after, u)
  }

  predicate SameModifiers(before: seq<Report>, after: seq<Report>, limit: nat) {
    forall b: nat | b < limit :: ModifierDown(before, b) == ModifierDown(after, b)
  }

  /** A report counts if it is of one of the four devices and no key of it is one of the
      three error codes; it then replaces that device's, and no other. */
  lemma ReportCountsIff(reports: seq<Report>, device: nat, r: Report)
    requires |reports| == MAX_DEVICES
    ensures var after := Latest(reports, device, r);
      && |after| == 4 && (forall d | 0 <= d < 4 && d != device :: after[d] == reports[d])
      && (device < 4 ==> after[device] == if 1 in r.keys || 2 in r.keys || 3 in r.keys then reports[device] else r)
  {
    assert IsError(r.keys) <==> 1 in r.keys || 2 in r.keys || 3 in r.keys by {
      if IsError(r.keys) {
        var i :| 0 <= i < |r.keys| && 1 <= r.keys[i] <= 3;
        assert r.keys[i] in r.keys;
      }
    }
  }

  // ----------------------------------------------------------------- owners

  /** The owner byte has exactly the bits of the devices that hold the key. */
  predicate OwnedBy(owners: bv8, holders: seq<bool>) {
    |holders| == MAX_DEVICES && forall d: nat | d < 8 :: Bit(owners, d) <==> d < MAX_DEVICES && holders[d]
  }

  function NewOwners(owners: bv8, device: nat, held: bool): bv8
    requires device < MAX_DEVICES
  {
    var others := owners & !Mask(device);
    if held then others | Mask(device) else others
  }

  lemma NewOwnersOwn(owners: bv8, holders: seq<bool>, device: nat, held: bool)
    requires OwnedBy(owners, holders) && device < MAX_DEVICES
    ensures OwnedBy(NewOwners(owners, device, held), holders[device := held])
  {
    forall d: nat | d < 8
      ensures Bit(NewOwners(owners, device, held), d) <==> d < MAX_DEVICES && holders[device := held][d]
    {
      ClearBit(owners, device, d);
      SetBit(owners & !Mask(device), device, d);
    }
  }

  lemma NoOwner(owners: bv8, holders: seq<bool>)
    requires OwnedBy(owners, holders)
    ensures owners != 0 <==> exists d | 0 <= d < MAX_DEVICES :: holders[d]
  {
    NoBits(owners);
  }

  function KeyHolders(reports: seq<Report>, usage: nat): seq<bool> {
    seq(|reports|, d requires 0 <= d < |reports| => usage in reports[d].keys)
  }

  function ModifierHolders(reports: seq<Report>, bit: nat): seq<bool>
    requires bit < MODIFIERS
  {
    seq(|reports|, d requires 0 <= d < |reports| => Bit(reports[d].modifiers, bit))
  }

  predicate KeyTracked(owners: bv8, reports: seq<Report>, usage: nat) {
    OwnedBy(owners, KeyHolders(reports, usage))
  }

  predicate ModifierTracked(owners: bv8, reports: seq<Report>, bit: nat)
    requires bit < MODIFIERS
  {
    OwnedBy(owners, ModifierHolders(reports, bit))
  }

  lemma TrackedKeyDown(owners: bv8, reports: seq<Report>, usage: nat)
    requires KeyTracked(owners, reports, usage) && 0 < usage < USAGES
    ensures owners != 0 <==> KeyDown(reports, usage)
  {
    NoOwner(owners, KeyHolders(reports, usage));
    forall d | 0 <= d < MAX_DEVICES
      ensures KeyHolders(reports, usage)[d] <==> usage in reports[d].keys
    {
    }
  }

  lemma TrackedModifierDown(owners: bv8, reports: seq<Report>, bit: nat)
    requires bit < MODIFIERS && ModifierTracked(owners, reports, bit)
    ensures owners != 0 <==> ModifierDown(reports, bit)
  {
    NoOwner(owners, ModifierHolders(reports, bit));
    forall d | 0 <= d < MAX_DEVICES
      ensures ModifierHolders(reports, bit)[d] <==> Bit(reports[d].modifiers, bit)
    {
    }
  }

  lemma KeyFollowsReport(owners: bv8, reports: seq<Report>, usage: nat, device: nat, r: Report)
    requires KeyTracked(owners, reports, usage) && device < MAX_DEVICES
    ensures KeyTracked(NewOwners(owners, device, usage in r.keys), reports[device := r], usage)
  {
    NewOwnersOwn(owners, KeyHolders(reports, usage), device, usage in r.keys);
    assert KeyHolders(reports[device := r], usage) == KeyHolders(reports, usage)[device := usage in r.keys];
  }

  lemma ModifierFollowsReport(owners: bv8, reports: seq<Report>, bit: nat, device: nat, r: Report)
    requires bit < MODIFIERS && ModifierTracked(owners, reports, bit) && device < MAX_DEVICES
    ensures ModifierTracked(NewOwners(owners, device, Bit(r.modifiers, bit)), reports[device := r], bit)
  {
    NewOwnersOwn(owners, ModifierHolders(reports, bit), device, Bit(r.modifiers, bit));
    assert ModifierHolders(reports[device := r], bit) == ModifierHolders(reports, bit)[device := Bit(r.modifiers, bit)];
  }

  // -------------------------------------------------------------- the class

  method ContainsUsage(keys: seq<Byte>, usage: nat) returns (found: bool)
    ensures found <==> usage in keys
  {
    for i := 0 to |keys|
      invariant usage !in keys[..i]
    {
      if keys[i] == usage {
        return true;
      }
    }
    return false;
  }

  method IsErrorReport(keys: seq<Byte>) returns (error: bool)
    ensures error <==> IsError(keys)
  {
    for i := 0 to |keys|
      invariant !IsError(keys[..i])
    {
      if 1 <= keys[i] <= 3 {
        return true;
      }
    }
    assert keys[..|keys|] == keys;
    return false;
  }

  ghost predicate KeysTracked(owners: seq<bv8>, reports: seq<Report>, from: nat, to: nat) {
    to <= |owners| && forall u: nat | from <= u < to :: KeyTracked(owners[u], reports, u)
  }

  ghost predicate ModifiersTracked(owners: seq<bv8>, reports: seq<Report>, from: nat, to: nat) {
    to <= |owners| && to <= MODIFIERS && forall b: nat | from <= b < to :: ModifierTracked(owners[b], reports, b)
  }

  class USBKeyboardState {
    const keyOwners: array<bv8>
    const modifierOwners: array<bv8>
    ghost var reports: seq<Report>

    ghost predicate Valid()
      reads this, keyOwners, modifierOwners
    {
      && keyOwners.Length == USAGES && modifierOwners.Length == MODIFIERS && keyOwners != modifierOwners
      && |reports| == MAX_DEVICES && keyOwners[0] == 0
      && KeysTracked(keyOwners[..], reports, 1, USAGES)
      && ModifiersTracked(modifierOwners[..], reports, 0, MODIFIERS)
    }

    constructor ()
      ensures Valid() && fresh(keyOwners) && fresh(modifierOwners)
      ensures reports == [NO_REPORT, NO_REPORT, NO_REPORT, NO_REPORT]
    {
      keyOwners := new bv8[USAGES](i => 0);
      modifierOwners := new bv8[MODIFIERS](i => 0);
      reports := [NO_REPORT, NO_REPORT, NO_REPORT, NO_REPORT];
    }

    method ApplyKeys(device: nat, r: Report) returns (changed: bool)
      requires keyOwners.Length == USAGES && device < MAX_DEVICES && |reports| == MAX_DEVICES
      requires KeysTracked(keyOwners[..], reports, 1, USAGES)
      modifies keyOwners
      ensures KeysTracked(keyOwners[..], reports[device := r], 1, USAGES) && keyOwners[0] == old(keyOwners[0])
      ensures changed <==> !SameKeys(reports, reports[device := r], USAGES)
    {
      ghost var after := reports[device := r];
      assert SameKeys(reports, after, 1);
      hide KeyTracked, KeyDown, NewOwners;
      changed := false;
      for usage := 1 to USAGES
        invariant KeysTracked(keyOwners[..], after, 1, usage) && keyOwners[0] == old(keyOwners[0])
        invariant KeysTracked(keyOwners[..], reports, usage, USAGES)
        invariant changed <==> !SameKeys(reports, after, usage)
      {
        var previous := keyOwners[usage];
        var held := ContainsUsage(r.keys, usage);
        var owners := NewOwners(previous, device, held);
        KeyFollowsReport(previous, reports, usage, device, r);
        TrackedKeyDown(previous, reports, usage);
        TrackedKeyDown(owners, after, usage);
        if (previous == 0) != (owners == 0) {
          changed := true;
        }
        keyOwners[usage] := owners;
      }
    }

    method ApplyModifiers(device: nat, r: Report) returns (changed: bool)
      requires modifierOwners.Length == MODIFIERS && device < MAX_DEVICES && |reports| == MAX_DEVICES
      requires ModifiersTracked(modifierOwners[..], reports, 0, MODIFIERS)
      modifies modifierOwners
      ensures ModifiersTracked(modifierOwners[..], reports[device := r], 0, MODIFIERS)
      ensures changed <==> !SameModifiers(reports, reports[device := r], MODIFIERS)
    {
      hide ModifierTracked, ModifierDown, NewOwners, Bit;
      ghost var after := reports[device := r];
      changed := false;
      for bit := 0 to MODIFIERS
        invariant ModifiersTracked(modifierOwners[..], after, 0, bit)
        invariant ModifiersTracked(modifierOwners[..], reports, bit, MODIFIERS)
        invariant changed <==> !SameModifiers(reports, after, bit)
      {
        var previous := modifierOwners[bit];
        var owners := NewOwners(previous, device, Bit(r.modifiers, bit));
        ModifierFollowsReport(previous, reports, bit, device, r);
        TrackedModifierDown(previous, reports, bit);
        TrackedModifierDown(owners, after, bit);
        if (previous == 0) != (owners == 0) {
          changed := true;
        }
        modifierOwners[bit] := owners;
      }
    }

    /** Keeps each device's latest report that was no error, and tells exactly whether
        the union over the devices changed. */
    method ApplyReport(device: nat, modifiers: bv8, keys: RawKeys) returns (changed: bool)
      requires Valid()
      modifies this, keyOwners, modifierOwners
      ensures Valid() && reports == Latest(old(reports), device, Report(modifiers, keys))
      ensures changed <==>
                !(SameKeys(old(reports), reports, USAGES) && SameModifiers(old(reports), reports, MODIFIERS))
    {
      hide KeysTracked, ModifiersTracked, KeyDown, ModifierDown;
      var error := IsErrorReport(keys);
      if device >= MAX_DEVICES || error {
        return false;
      }
      var r := Report(modifiers, keys);
      var keysChanged := ApplyKeys(device, r);
      var modifiersChanged := ApplyModifiers(device, r);
      reports := reports[device := r];
      return keysChanged || modifiersChanged;
    }

    /** Forgets everything one device holds. */
    method RemoveDevice(device: nat) returns (changed: bool)
      requires Valid()
      modifies this, keyOwners, modifierOwners
      ensures Valid()
      ensures reports == if device < MAX_DEVICES then old(reports)[device := NO_REPORT] else old(reports)
      ensures changed <==>
                !(SameKeys(old(reports), reports, USAGES) && SameModifiers(old(reports), reports, MODIFIERS))
    {
      changed := ApplyReport(device, 0, [0, 0, 0, 0, 0, 0]);
    }

    /** The modifiers that some device holds. */
    method Modifiers() returns (modifiers: bv8)
      requires Valid()
      ensures forall b: nat | b < MODIFIERS :: Bit(modifiers, b) <==> ModifierDown(reports, b)
    {
      NoBits(0);
      hide Bit, WithBit, ModifierTracked, ModifierDown;
      modifiers := 0;
      for bit := 0 to MODIFIERS
        invariant forall b: nat | b < MODIFIERS :: Bit(modifiers, b) <==> b < bit && ModifierDown(reports, b)
      {
        TrackedModifierDown(modifierOwners[..][bit], reports, bit);
        if modifierOwners[bit] != 0 {
          modifiers := WithBit(modifiers, bit, true);
        }
      }
    }

    predicate IsPressed(usage: nat)
      requires Valid()
      reads this, keyOwners, modifierOwners
      ensures IsPressed(usage) <==> KeyDown(reports, usage)
    {
      assert 0 < usage < USAGES ==> (keyOwners[usage] != 0 <==> KeyDown(reports, usage)) by {
        if 0 < usage < USAGES {
          TrackedKeyDown(keyOwners[..][usage], reports, usage);
        }
      }
      usage < USAGES && keyOwners[usage] != 0
    }
  }
}
