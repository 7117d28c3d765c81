/** One mouse, three consumers: the emulator, the menu and the raw monitor.  What the
    emulator and the menu are told about the buttons, over whole runs of reports. */
module Mouse {
  import opened Wrappers
  import opened Bits

  /** Left, right, middle: the low bits of a report's button word. */
  const BUTTONS: nat := 3
  const MAX_WHEEL_STEPS := 127

  // ----------------------------------------------------------------- traces

  datatype Owner = Emulator | Menu | Monitor

  /** `Report` notes a report and the consumer that owned the mouse when it came. */
  datatype Item =
    | Report(buttons: bv8, owner: Owner)
    | Button(b: nat, pressed: bool)
    | Move(x: int, y: int)
    | Wheel(up: bool)
    | RawMouse(left: bool, right: bool, middle: bool, dx: int, dy: int, wheel: int)
    | MenuMouse(left: bool, right: bool, middle: bool, dx: int, dy: int, wheel: int)

  function OwnerOf(trace: seq<Item>): Owner {
    if trace == [] then Emulator
    else if Last(trace).Report? then Last(trace).owner
    else OwnerOf(Front(trace))
  }

  /** Whether the emulator has been told that the button is down. */
  predicate View(trace: seq<Item>, b: nat) {
    trace != [] && ViewThen(View(Front(trace), b), Last(trace), b)
  }

  predicate ViewThen(view: bool, item: Item, b: nat) {
    if item.Button? && item.b == b then item.pressed else view
  }

  /** Another consumer has had the mouse, and since then every report that came while
      the emulator had it showed the button down. */
  predicate MustRelease(trace: seq<Item>, b: nat)
    requires b < BUTTONS
  {
    trace != [] && MustReleaseThen(MustRelease(Front(trace), b), Last(trace), b)
  }

  predicate MustReleaseThen(must: bool, item: Item, b: nat)
    requires b < BUTTONS
  {
    if item.Report? then item.owner != Emulator || (must && Bit(item.buttons, b)) else must
  }

  /** The menu got the mouse while the emulator saw the button down, or from the monitor,
      and every report since has shown it down. */
  predicate MenuBlocked(trace: seq<Item>, b: nat)
    requires b < BUTTONS
  {
    trace != []
    && MenuBlockedThen(MenuBlocked(Front(trace), b), OwnerOf(Front(trace)), View(Front(trace), b), Last(trace), b)
  }

  predicate MenuBlockedThen(blocked: bool, owner: Owner, view: bool, item: Item, b: nat)
    requires b < BUTTONS
  {
    if item.Report? && item.owner == Menu then
      Bit(item.buttons, b) && match owner case Menu => blocked case Monitor => true case Emulator => view
    else blocked
  }

  /** Presses and releases alternate, and no press comes before a due release. */
  predicate Good(trace: seq<Item>, b: nat)
    requires b < BUTTONS
  {
    trace == [] ||
    (Good(Front(trace), b) && GoodThen(View(Front(trace), b), MustRelease(Front(trace), b), Last(trace), b))
  }

  predicate GoodThen(view: bool, must: bool, item: Item, b: nat) {
    item.Button? && item.b == b ==> item.pressed != view && (item.pressed ==> !must)
  }

  lemma Append(trace: seq<Item>, item: Item)
    ensures OwnerOf(trace + [item]) == if item.Report? then item.owner else OwnerOf(trace)
    ensures forall b: nat :: View(trace + [item], b) == ViewThen(View(trace, b), item, b)
    ensures forall b: nat | b < BUTTONS ::
              MustRelease(trace + [item], b) == MustReleaseThen(MustRelease(trace, b), item, b)
    ensures forall b: nat | b < BUTTONS ::
              MenuBlocked(trace + [item], b)
                == MenuBlockedThen(MenuBlocked(trace, b), OwnerOf(trace), View(trace, b), item, b)
    ensures forall b: nat | b < BUTTONS ::
              Good(trace + [item], b) <==> Good(trace, b) && GoodThen(View(trace, b), MustRelease(trace, b), item, b)
  {
    assert Front(trace + [item]) == trace && Last(trace + [item]) == item;
  }

  lemma {:induction false} MustReleaseSince(trace: seq<Item>, b: nat, m: nat)
    requires b < BUTTONS && m < |trace| && trace[m].Report? && trace[m].owner != Emulator
    requires forall k | m < k < |trace| && trace[k].Report? && trace[k].owner == Emulator :: Bit(trace[k].buttons, b)
    ensures MustRelease(trace, b)
  {
    if m < |trace| - 1 {
      assert forall k | 0 <= k < |trace| - 1 :: Front(trace)[k] == trace[k];
      MustReleaseSince(Front(trace), b, m);
    }
  }

  predicate HadByOther(item: Item) { item.Report? && item.owner != Emulator }

  predicate ToEmulatorUp(item: Item, b: nat)
    requires b < BUTTONS
  {
    item.Report? && item.owner == Emulator && !Bit(item.buttons, b)
  }

  /** Another consumer had the mouse at `m`, and no report to the emulator since then has
      shown the button up. */
  ghost predicate HeldBack(trace: seq<Item>, b: nat, m: int)
    requires b < BUTTONS
  {
    0 <= m < |trace| && HadByOther(trace[m]) && forall k | m < k < |trace| :: !ToEmulatorUp(trace[k], b)
  }

  /** A release is due exactly if another consumer has had the mouse and every report to
      the emulator since then has shown the button down: one that has it up is enough. */
  lemma {:induction false} MustReleaseIff(trace: seq<Item>, b: nat)
    requires b < BUTTONS
    ensures MustRelease(trace, b) <==> exists m :: HeldBack(trace, b, m)
  {
    if trace != [] {
      MustReleaseIff(Front(trace), b);
      HeldBackMore(Front(trace), Last(trace), b);
      assert Front(trace) + [Last(trace)] == trace;
      hide HeldBack, Bit;
    }
  }

  lemma HeldBackMore(front: seq<Item>, item: Item, b: nat)
    requires b < BUTTONS
    ensures (exists m :: HeldBack(front + [item], b, m)) <==>
            HadByOther(item) || (!ToEmulatorUp(item, b) && exists m :: HeldBack(front, b, m))
  {
    hide ToEmulatorUp, HadByOther;
    var trace := front + [item];
    assert trace[|front|] == item;
    forall m | m < |front|
      ensures HeldBack(trace, b, m) <==> !ToEmulatorUp(item, b) && HeldBack(front, b, m)
    {
      assert forall k | 0 <= k < |front| :: trace[k] == front[k];
    }
    assert HeldBack(trace, b, |front|) <==> HadByOther(item);
  }

  /** The emulator was told at `m` that the button is down, and not since that it is up. */
  ghost predicate ToldDown(trace: seq<Item>, b: nat, m: int) {
    0 <= m < |trace| && trace[m] == Button(b, true) && forall k | m < k < |trace| :: trace[k] != Button(b, false)
  }

  /** The emulator sees a button as it was last told of it, and up before that. */
  lemma {:induction false} ViewIsLastTold(trace: seq<Item>, b: nat)
    ensures View(trace, b) <==> exists m :: ToldDown(trace, b, m)
  {
    if trace != [] {
      ViewIsLastTold(Front(trace), b);
      ToldDownMore(Front(trace), Last(trace), b);
      assert Front(trace) + [Last(trace)] == trace;
      hide ToldDown;
    }
  }

  lemma ToldDownMore(front: seq<Item>, item: Item, b: nat)
    ensures (exists m :: ToldDown(front + [item], b, m)) <==>
            item == Button(b, true) || (item != Button(b, false) && exists m :: ToldDown(front, b, m))
  {
    var trace := front + [item];
    assert trace[|front|] == item;
    forall m | m < |front|
      ensures ToldDown(trace, b, m) <==> item != Button(b, false) && ToldDown(front, b, m)
    {
      assert forall k | 0 <= k < |front| :: trace[k] == front[k];
    }
    assert ToldDown(trace, b, |front|) <==> item == Button(b, true);
  }

  lemma {:induction false} GoodPrefix(trace: seq<Item>, b: nat, n: nat)
    requires b < BUTTONS && Good(trace, b) && n <= |trace|
    ensures Good(trace[..n], b)
  {
    if n < |trace| {
      GoodPrefix(Front(trace), b, n);
      assert Front(trace)[..n] == trace[..n];
    } else {
      assert trace[..n] == trace;
    }
  }

  /** In a good trace, once another consumer has had the mouse, a press reaches the
      emulator only after a report, while the emulator had it, with that button up. */
  lemma PressNeedsRelease(trace: seq<Item>, b: nat, m: nat, j: nat)
    requires b < BUTTONS && Good(trace, b) && m < j < |trace|
    requires trace[m].Report? && trace[m].owner != Emulator && trace[j] == Button(b, true)
    ensures exists k :: m < k < j && trace[k].Report? && trace[k].owner == Emulator && !Bit(trace[k].buttons, b)
  {
    GoodPrefix(trace, b, j + 1);
    var upTo := trace[..j + 1];
    assert Front(upTo) == trace[..j] && Last(upTo) == trace[j];
    if forall k | m < k < j && trace[k].Report? && trace[k].owner == Emulator :: Bit(trace[k].buttons, b) {
      MustReleaseSince(trace[..j], b, m);
    }
  }

  // -------------------------------------------------------------- the state

  predicate NoReports(items: seq<Item>) {
    forall i | 0 <= i < |items| :: !items[i].Report?
  }

  /** Nothing was added but what the consumers were told. */
  predicate Quiet(before: seq<Item>, after: seq<Item>) {
    before <= after && NoReports(after[|before|..])
  }

  /** Nothing was added but presses and releases of buttons. */
  predicate OnlyButtons(before: seq<Item>, after: seq<Item>) {
    before <= after && forall i | |before| <= i < |after| :: after[i].Button?
  }

  /** What the emulator is told of a report: the movement, the buttons that changed, and a
      step of the wheel for each unit moved, up for positive ones, at most 127. */
  predicate TellsEmulator(before: seq<Item>, dx: int, dy: int, wheel: int, after: seq<Item>) {
    var steps := if wheel > 127 || wheel < -127 then 127 else if wheel < 0 then -wheel else wheel;
    && |before| + 1 + steps <= |after| && before + [Move(dx, dy)] <= after
    && OnlyButtons(before + [Move(dx, dy)], after[..|after| - steps])
    && forall i | |after| - steps <= i < |after| :: after[i] == Wheel(wheel > 0)
  }

  /** What the menu is told: the movement and the report, after the buttons let go. */
  predicate TellsMenu(before: seq<Item>, dx: int, dy: int, wheel: int, after: seq<Item>) {
    && |before| + 2 <= |after| && OnlyButtons(before, after[..|after| - 2])
    && after[|after| - 2] == Move(dx, dy)
    && after[|after| - 1].MenuMouse? && after[|after| - 1].dx == dx && after[|after| - 1].dy == dy
    && after[|after| - 1].wheel == wheel
  }

  predicate TellsMonitor(before: seq<Item>, after: seq<Item>) {
    |before| < |after| && OnlyButtons(before, after[..|after| - 1]) && after[|after| - 1].RawMouse?
  }

  /** The report was added, and no other. */
  predicate OneReport(before: seq<Item>, report: Item, after: seq<Item>) {
    Quiet(before + [report], after)
  }

  lemma QuietJoin(a: seq<Item>, b: seq<Item>, c: seq<Item>)
    requires Quiet(a, b) && Quiet(b, c)
    ensures Quiet(a, c)
  {
    forall i | 0 <= i < |c| - |a|
      ensures !c[|a|..][i].Report?
    {
      if i < |b| - |a| {
        assert c[|a|..][i] == b[|a|..][i];
      } else {
        assert c[|a|..][i] == c[|b|..][i - (|b| - |a|)];
      }
    }
  }

  class MouseStatus {
    var previous: bv8
    var suppressed: bv8
    var monitorActive: bool
    var menuActive: bool
    ghost var trace: seq<Item>

    ghost predicate Told()
      reads this
    {
      forall b: nat | b < BUTTONS :: View(trace, b) == Bit(previous, b) && Good(trace, b)
    }

    ghost predicate Valid()
      reads this
    {
      && Told()
      && OwnerOf(trace) == (if monitorActive then Monitor else if menuActive then Menu else Emulator)
      && !(monitorActive && menuActive)
      && (if monitorActive || menuActive
          then previous == 0 && forall b: nat | b < BUTTONS :: MustRelease(trace, b)
          else forall b: nat | b < BUTTONS :: MustRelease(trace, b) == Bit(suppressed, b))
      && (menuActive ==> forall b: nat | b < BUTTONS :: MenuBlocked(trace, b) == Bit(suppressed, b))
    }

    constructor ()
      ensures Valid() && trace == []
    {
      previous, suppressed, monitorActive, menuActive, trace := 0, 0, false, false, [];
    }

    /** The consumer and the releases due are as before. */
    twostate predicate SameDues()
      reads this
    {
      && OwnerOf(trace) == OwnerOf(old(trace))
      && forall b: nat | b < BUTTONS ::
           MustRelease(trace, b) == MustRelease(old(trace), b) && MenuBlocked(trace, b) == MenuBlocked(old(trace), b)
    }

    ghost method Note(item: Item)
      requires !item.Button? && forall b: nat | b < BUTTONS :: Good(trace, b)
      modifies `trace
      ensures trace == old(trace) + [item]
      ensures forall b: nat | b < BUTTONS :: Good(trace, b) && View(trace, b) == View(old(trace), b)
      ensures !item.Report? ==> SameDues()
      ensures item.Report? ==> OwnerOf(trace) == item.owner
      ensures forall b: nat | b < BUTTONS :: MustRelease(trace, b) == MustReleaseThen(MustRelease(old(trace), b), item, b)
      ensures forall b: nat | b < BUTTONS ::
                MenuBlocked(trace, b)
                  == MenuBlockedThen(MenuBlocked(old(trace), b), OwnerOf(old(trace)), View(old(trace), b), item, b)
    {
      Append(trace, item);
      trace := trace + [item];
    }

    /** Tells the emulator of one button, if that changed. */
    method ForwardButton(buttons: bv8, b: nat)
      requires b < BUTTONS && View(trace, b) == Bit(previous, b)
      requires forall c: nat | c < BUTTONS :: Good(trace, c)
      requires Bit(buttons, b) && !Bit(previous, b) ==> !MustRelease(trace, b)
      modifies `trace
      ensures forall c: nat | c < BUTTONS :: Good(trace, c)
      ensures View(trace, b) == Bit(buttons, b) && forall c: nat | c != b :: View(trace, c) == View(old(trace), c)
      ensures SameDues() && Quiet(old(trace), trace) && OnlyButtons(old(trace), trace)
    {
      hide Bit, View, MustRelease, MenuBlocked, Good, OwnerOf, Differing;
      if Bit(Differing(buttons, previous), b) {
        Append(trace, Button(b, Bit(buttons, b)));
        trace := trace + [Button(b, Bit(buttons, b))];
      }
    }

    /** Tells the emulator of every button that changed. */
    method ForwardButtons(buttons: bv8)
      requires Told()
      requires forall b: nat | b < BUTTONS && Bit(buttons, b) && !Bit(previous, b) :: !MustRelease(trace, b)
      modifies `trace, `previous
      ensures Told() && previous == buttons
      ensures SameDues() && Quiet(old(trace), trace) && OnlyButtons(old(trace), trace)
    {
      hide View, MustRelease, MenuBlocked, Good, OwnerOf, Bit;
      ForwardButton(buttons, 0);
      ForwardButton(buttons, 1);
      ForwardButton(buttons, 2);
      previous := buttons;
    }

    /** The monitor takes the mouse: the emulator lets every button go. */
    method EnterMonitor()
      requires !(monitorActive && menuActive)
      requires Told() && OwnerOf(trace) == Monitor && (monitorActive || menuActive ==> previous == 0)
      modifies this
      ensures Told() && SameDues() && Quiet(old(trace), trace) && OnlyButtons(old(trace), trace)
      ensures monitorActive && !menuActive && previous == 0
    {
      hide View, MustRelease, MenuBlocked, Good, OwnerOf, Bit;
      NoBits(0);
      if !monitorActive {
        if !menuActive {
          ForwardButtons(0);
        }
        suppressed, monitorActive, menuActive := 0, true, false;
      }
    }

    /** The menu takes the mouse; a button the emulator saw down, or that is down when the
        monitor lets go, waits for its release. */
    method EnterMenu(buttons: bv8)
      requires Told() && OwnerOf(trace) == Menu && (monitorActive ==> previous == 0)
      modifies this
      ensures Told() && SameDues() && Quiet(old(trace), trace) && OnlyButtons(old(trace), trace)
      ensures menuActive && !monitorActive && previous == 0
      ensures forall b: nat | b < BUTTONS ::
                Bit(suppressed, b) <==> Bit(buttons, b) && (old(monitorActive) || Bit(old(previous), b))
    {
      hide View, MustRelease, MenuBlocked, Good, OwnerOf, Bit, Both;
      NoBits(0);
      suppressed := if monitorActive then buttons else Both(previous, buttons);
      if !monitorActive {
        ForwardButtons(0);
      } else {
        previous := 0;
      }
      monitorActive, menuActive := false, true;
    }

    /** Drops what has been released from the suppressed buttons, and masks out the rest. */
    method Suppress(buttons: bv8) returns (shown: bv8)
      modifies `suppressed
      ensures forall b: nat | b < BUTTONS :: Bit(suppressed, b) <==> Bit(old(suppressed), b) && Bit(buttons, b)
      ensures forall b: nat | b < BUTTONS :: Bit(shown, b) <==> Bit(buttons, b) && !Bit(old(suppressed), b)
    {
      hide Bit, Both, Without;
      suppressed := Both(suppressed, buttons);
      shown := Without(buttons, suppressed);
    }

    /** At most 127 wheel steps, in the direction moved. */
    method ForwardWheel(wheel: int)
      requires Told()
      modifies `trace
      ensures trace == old(trace) + WheelSteps(wheel)
      ensures Told() && SameDues() && Quiet(old(trace), trace)
    {
      hide View, MustRelease, MenuBlocked, Good, OwnerOf, Bit;
      var left := Max(-MAX_WHEEL_STEPS, Min(wheel, MAX_WHEEL_STEPS));
      ghost var steps := |WheelSteps(wheel)|;
      while left > 0
        invariant 0 <= left <= steps || (left < 0 && left == -steps)
        invariant left >= 0 ==> trace == old(trace) + Repeated(Wheel(wheel > 0), steps - left)
        invariant left < 0 ==> trace == old(trace) && wheel < 0
        invariant Told() && SameDues()
      {
        Note(Wheel(true));
        left := left - 1;
      }
      while left < 0
        invariant -steps <= left <= 0
        invariant trace == old(trace) + Repeated(Wheel(wheel > 0), steps + left)
        invariant Told() && SameDues()
      {
        Note(Wheel(false));
        left := left + 1;
      }
    }

    /** One report.  The monitor gets it whole; the menu gets it without the buttons that
        wait for their release; the emulator is told of exactly the buttons that are down
        and due no release, and of the wheel. */
    method Update(buttons: bv8, dx: int, dy: int, wheel: int, wantsRaw: bool, wantsMenu: bool)
      requires Valid()
      modifies this
      ensures Valid() && OwnerOf(trace) == OwnerFor(wantsRaw, wantsMenu)
      ensures OneReport(old(trace), Report(buttons, OwnerFor(wantsRaw, wantsMenu)), trace)
      ensures forall b: nat | b < BUTTONS :: Good(trace, b)
      ensures forall b: nat | b < BUTTONS ::
                View(trace, b) <==> OwnerOf(trace) == Emulator && Bit(buttons, b) && !MustRelease(trace, b)
      ensures OwnerOf(trace) == Monitor ==>
                Last(trace) == RawMouse(Bit(buttons, 0), Bit(buttons, 1), Bit(buttons, 2), dx, dy, wheel)
      ensures OwnerOf(trace) == Menu ==>
                Last(trace) == MenuMouse(MenuShows(trace, buttons, 0), MenuShows(trace, buttons, 1),
                                         MenuShows(trace, buttons, 2), dx, dy, wheel)
      ensures var reported := old(trace) + [Report(buttons, OwnerOf(trace))];
              match OwnerOf(trace)
              case Emulator => TellsEmulator(reported, dx, dy, wheel, trace)
              case Menu => TellsMenu(reported, dx, dy, wheel, trace)
              case Monitor => TellsMonitor(reported, trace)
    {
      hide View, MustRelease, MenuBlocked, Good, OwnerOf, Bit;
      NoBits(0);
      if wantsRaw {
        ToMonitor(buttons, dx, dy, wheel);
      } else if wantsMenu {
        ToMenu(buttons, dx, dy, wheel);
      } else {
        ToEmulator(buttons, dx, dy, wheel);
      }
    }

    method ToMonitor(buttons: bv8, dx: int, dy: int, wheel: int)
      requires Valid()
      modifies this
      ensures Valid() && monitorActive && OneReport(old(trace), Report(buttons, Monitor), trace)
      ensures Last(trace) == RawMouse(Bit(buttons, 0), Bit(buttons, 1), Bit(buttons, 2), dx, dy, wheel)
      ensures TellsMonitor(old(trace) + [Report(buttons, Monitor)], trace)
    {
      hide View, MustRelease, MenuBlocked, Good, OwnerOf, Bit;
      Note(Report(buttons, Monitor));
      EnterMonitor();
      Note(RawMouse(Bit(buttons, 0), Bit(buttons, 1), Bit(buttons, 2), dx, dy, wheel));
    }

    method ToMenu(buttons: bv8, dx: int, dy: int, wheel: int)
      requires Valid()
      modifies this
      ensures Valid() && menuActive && OneReport(old(trace), Report(buttons, Menu), trace)
      ensures Last(trace) == MenuMouse(MenuShows(trace, buttons, 0), MenuShows(trace, buttons, 1),
                                       MenuShows(trace, buttons, 2), dx, dy, wheel)
      ensures TellsMenu(old(trace) + [Report(buttons, Menu)], dx, dy, wheel, trace)
    {
      hide View, MustRelease, MenuBlocked, Good, OwnerOf, Bit;
      NoBits(0);
      Note(Report(buttons, Menu));
      if !menuActive {
        EnterMenu(buttons);
      }
      var shown := Suppress(buttons);
      Note(Move(dx, dy));
      Note(MenuMouse(Bit(shown, 0), Bit(shown, 1), Bit(shown, 2), dx, dy, wheel));
    }

    method ToEmulator(buttons: bv8, dx: int, dy: int, wheel: int)
      requires Valid()
      modifies this
      ensures Valid() && !monitorActive && !menuActive && OneReport(old(trace), Report(buttons, Emulator), trace)
      ensures forall b: nat | b < BUTTONS :: View(trace, b) <==> Bit(buttons, b) && !MustRelease(trace, b)
      ensures TellsEmulator(old(trace) + [Report(buttons, Emulator)], dx, dy, wheel, trace)
    {
      hide View, MustRelease, MenuBlocked, Good, OwnerOf, Bit;
      NoBits(0);
      Note(Report(buttons, Emulator));
      ghost var reported := trace;
      if monitorActive || menuActive {
        monitorActive, menuActive, suppressed, previous := false, false, buttons, 0;
      }
      var shown := Suppress(buttons);
      Note(Move(dx, dy));
      ghost var moved := trace;
      ForwardButtons(shown);
      ghost var told := trace;
      ForwardWheel(wheel);
      QuietJoin(moved, told, trace);
      QuietJoin(reported, moved, trace);
    }
  }

  function OwnerFor(wantsRaw: bool, wantsMenu: bool): Owner {
    if wantsRaw then Monitor else if wantsMenu then Menu else Emulator
  }

  predicate MenuShows(trace: seq<Item>, buttons: bv8, b: nat)
    requires b < BUTTONS
  {
    Bit(buttons, b) && !MenuBlocked(trace, b)
  }

  function Repeated(item: Item, n: nat): seq<Item> {
    seq(n, _ => item)
  }

  function WheelSteps(wheel: int): seq<Item> {
    Repeated(Wheel(wheel > 0), Min(if wheel < 0 then -wheel else wheel, MAX_WHEEL_STEPS))
  }

  // ------------------------------------------------------------------- runs

  datatype MouseReport = MouseReport(buttons: bv8, dx: int, dy: int, wheel: int, wantsRaw: bool, wantsMenu: bool)

  /** Over every run the emulator's view of each button is what the record of previous
      buttons says, all up while another consumer has the mouse, and the trace is good:
      with PressNeedsRelease, no press reaches the emulator before its due release. */
  method Run(m: MouseStatus, reports: seq<MouseReport>)
    requires m.Valid()
    modifies m
    ensures m.Valid() && old(m.trace) <= m.trace
    ensures forall b: nat | b < BUTTONS :: Good(m.trace, b) && View(m.trace, b) == Bit(m.previous, b)
    ensures m.monitorActive || m.menuActive ==> forall b: nat | b < BUTTONS :: !View(m.trace, b)
  {
    hide View, MustRelease, MenuBlocked, Good, OwnerOf, Bit;
    NoBits(0);
    for i := 0 to |reports|
      invariant m.Valid() && old(m.trace) <= m.trace
    {
      var r := reports[i];
      m.Update(r.buttons, r.dx, r.dy, r.wheel, r.wantsRaw, r.wantsMenu);
    }
  }

  // ------------------------------------------ a held button seen as a menu click

  lemma {:induction false} DuesBetweenReports(trace: seq<Item>, items: seq<Item>, b: nat)
    requires b < BUTTONS && NoReports(items)
    ensures MustRelease(trace + items, b) == MustRelease(trace, b)
    ensures MenuBlocked(trace + items, b) == MenuBlocked(trace, b)
  {
    if items == [] {
      assert trace + items == trace;
    } else {
      var front := items[..|items| - 1];
      DuesBetweenReports(trace, front, b);
      assert trace + items == (trace + front) + [items[|items| - 1]];
      Append(trace + front, items[|items| - 1]);
    }
  }

  lemma StillDueIff(before: seq<Item>, buttons: bv8, after: seq<Item>, b: nat)
    requires b < BUTTONS && Bit(buttons, b) && OneReport(before, Report(buttons, Emulator), after)
    ensures MustRelease(after, b) <==> MustRelease(before, b)
  {
    Append(before, Report(buttons, Emulator));
    DuesBetweenReports(before + [Report(buttons, Emulator)], after[|before| + 1..], b);
    assert after == before + [Report(buttons, Emulator)] + after[|before| + 1..];
  }

  /** A menu that takes the mouse from the emulator is not shown what the emulator saw down. */
  lemma BlockedIffViewed(before: seq<Item>, buttons: bv8, after: seq<Item>, b: nat)
    requires b < BUTTONS && Bit(buttons, b) && OwnerOf(before) == Emulator
    requires OneReport(before, Report(buttons, Menu), after)
    ensures MenuBlocked(after, b) <==> View(before, b)
  {
    Append(before, Report(buttons, Menu));
    DuesBetweenReports(before + [Report(buttons, Menu)], after[|before| + 1..], b);
    assert after == before + [Report(buttons, Menu)] + after[|before| + 1..];
  }

  /** A button that is down in a report to the emulator and still down in the next
      report, when the menu takes over, is shown to the menu as pressed if and only if
      before them another consumer had the mouse or the button was being suppressed:
      exactly then the emulator was never told of it. */
  method HeldButtonReachesMenuIff(m: MouseStatus, first: MouseReport, second: MouseReport, b: nat)
    requires m.Valid() && b < BUTTONS && Bit(first.buttons, b) && Bit(second.buttons, b)
    modifies m
    ensures m.Valid() && OwnerOf(m.trace) == Menu
    ensures MenuShows(m.trace, second.buttons, b) <==>
              old(m.monitorActive) || old(m.menuActive) || Bit(old(m.suppressed), b)
  {
    hide View, MustRelease, MenuBlocked, Good, OwnerOf, Bit;
    ghost var start := m.trace;
    m.Update(first.buttons, first.dx, first.dy, first.wheel, false, false);
    ghost var between := m.trace;
    StillDueIff(start, first.buttons, between, b);
    m.Update(second.buttons, second.dx, second.dy, second.wheel, false, true);
    BlockedIffViewed(between, second.buttons, m.trace, b);
  }

  /** What the menu is shown of a button, by the state before the report: nothing held over
      from the monitor, nothing the emulator saw down, and on a later report nothing that
      still waits for its release. */
  method MenuReportShows(m: MouseStatus, r: MouseReport, b: nat)
    requires m.Valid() && b < BUTTONS && !r.wantsRaw && r.wantsMenu
    modifies m
    ensures m.Valid() && OwnerOf(m.trace) == Menu
    ensures MenuShows(m.trace, r.buttons, b) <==>
              && Bit(r.buttons, b) && !old(m.monitorActive)
              && !(if old(m.menuActive) then Bit(old(m.suppressed), b) else Bit(old(m.previous), b))
  {
    hide View, MustRelease, MenuBlocked, Good, OwnerOf, Bit;
    ghost var before := m.trace;
    m.Update(r.buttons, r.dx, r.dy, r.wheel, false, true);
    MenuBlockedAfter(before, r.buttons, m.trace, b);
  }

  lemma MenuBlockedAfter(before: seq<Item>, buttons: bv8, after: seq<Item>, b: nat)
    requires b < BUTTONS && OneReport(before, Report(buttons, Menu), after)
    ensures MenuBlocked(after, b) <==>
              Bit(buttons, b) && match OwnerOf(before) case Menu => MenuBlocked(before, b) case Monitor => true case Emulator => View(before, b)
  {
    Append(before, Report(buttons, Menu));
    DuesBetweenReports(before + [Report(buttons, Menu)], after[|before| + 1..], b);
    assert after == before + [Report(buttons, Menu)] + after[|before| + 1..];
  }

  /** What the emulator sees of a button, by the state before the report: nothing held over
      from another consumer and nothing that still waits for its release. */
  method EmulatorReportShows(m: MouseStatus, r: MouseReport, b: nat)
    requires m.Valid() && b < BUTTONS && !r.wantsRaw && !r.wantsMenu
    modifies m
    ensures m.Valid() && OwnerOf(m.trace) == Emulator
    ensures View(m.trace, b) <==>
              Bit(r.buttons, b) && !old(m.monitorActive) && !old(m.menuActive) && !Bit(old(m.suppressed), b)
  {
    hide View, MustRelease, MenuBlocked, Good, OwnerOf, Bit;
    ghost var before := m.trace;
    m.Update(r.buttons, r.dx, r.dy, r.wheel, false, false);
    if Bit(r.buttons, b) {
      StillDueIff(before, r.buttons, m.trace, b);
    }
  }

  predicate AlwaysDown(trace: seq<Item>, buttons: bv8) {
    forall i | 0 <= i < |trace| && trace[i].Report? :: trace[i].buttons == buttons
  }

  lemma StaysDown(before: seq<Item>, buttons: bv8, owner: Owner, after: seq<Item>)
    requires AlwaysDown(before, buttons) && OneReport(before, Report(buttons, owner), after)
    ensures AlwaysDown(after, buttons)
  {
    forall i | 0 <= i < |after| && after[i].Report?
      ensures after[i].buttons == buttons
    {
      if i < |before| {
        assert (before + [Report(buttons, owner)])[i] == before[i];
      } else if i > |before| {
        assert after[|before| + 1..][i - |before| - 1] == after[i];
      }
    }
  }

  /** So a left button held down from one visit to the menu to the next, and never
      reported up, is shown to the menu as pressed again. */
  method HeldFromMenuToMenu() returns (m: MouseStatus)
    ensures m.trace != [] && Last(m.trace) == MenuMouse(true, false, false, 0, 0, 0)
    ensures exists j :: 0 <= j < |m.trace| && m.trace[j] == Report(1, Emulator)
    ensures AlwaysDown(m.trace, 1) && m.trace[0] == Report(1, Menu)
  {
    assert Bit(1, 0) && !Bit(1, 1) && !Bit(1, 2);
    hide View, MustRelease, MenuBlocked, Good, OwnerOf, Bit;
    m := new MouseStatus();
    ghost var start := m.trace;
    m.Update(1, 0, 0, 0, false, true);
    ghost var first := m.trace;
    StaysDown(start, 1, Menu, first);
    m.Update(1, 0, 0, 0, false, false);
    ghost var second := m.trace;
    StaysDown(first, 1, Emulator, second);
    StillDueIff(first, 1, second, 0);
    m.Update(1, 0, 0, 0, false, true);
    StaysDown(second, 1, Menu, m.trace);
    BlockedIffViewed(second, 1, m.trace, 0);
    assert m.trace[|first|] == second[|first|] == Report(1, Emulator);
  }
}
