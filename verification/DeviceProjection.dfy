/** From layout rules to the device projection, with the checks that may refuse a
    layout, and the meaning of an accepted projection in terms of the rules. */
module DeviceProjection {
  import opened Wrappers
  import opened Strings
  import opened DeviceMatcher
  import opened DevicePolicy

  datatype RuleKind = File | Tree | Directory

  datatype Rule = Rule(kind: RuleKind, boards: set<Board>, mode: Mode, target: string, patterns: seq<string>)
  {
    predicate Valid() {
      target != [] && target[0] != '/'
    }
  }

  /** One matcher as one rule declares it, for the boards in that rule's scope. */
  datatype Declaration = Declaration(matcher: Matcher, boards: set<Board>)

  datatype Table = Table(values: seq<Matcher>, boards: Boards)

  // --------------------------------------------------------------- patterns

  function CountStars(s: string): nat {
    if s == [] then 0 else (if s[0] == '*' then 1 else 0) + CountStars(s[1..])
  }

  /** The part before the first star; the whole text when there is none. */
  function BeforeStar(s: string): (r: string)
    ensures r <= s && (|r| < |s| ==> s[|r|] == '*') && '*' !in r
  {
    if s == [] || s[0] == '*' then [] else [s[0]] + BeforeStar(s[1..])
  }

  /** A basename pattern with at most one star, or nothing when it has another form. */
  function DevicePattern(pattern: string, root: Option<string>, mode: Mode): (m: Option<Matcher>)
    requires root.Some? ==> root.value != [] && NoSlash(root.value)
    ensures m.Some? ==> m.value.WellFormed() && m.value.mode == mode
  {
    if '/' in pattern || '?' in pattern || CountStars(pattern) > 1 then None
    else if '*' !in pattern then Some(Matcher(BasenameExact, mode, root, pattern, []))
    else
      var prefix := BeforeStar(pattern);
      Some(StarMatcher(prefix, pattern[|prefix| + 1..], root, mode))
  }

  function TreePatterns(patterns: seq<string>, root: string, mode: Mode): (ms: Option<seq<Matcher>>)
    requires root != [] && NoSlash(root)
    ensures ms.Some? ==> |ms.value| == |patterns| && WellFormedRules(ms.value)
  {
    if patterns == [] then Some([])
    else
      var n := |patterns| - 1;
      var rest := TreePatterns(patterns[..n], root, mode);
      var last := DevicePattern(patterns[n], Some(root), mode);
      if rest == None || last == None then None else Some(rest.value + [last.value])
  }

  /** The matchers of one rule. */
  function DeviceMatchers(rule: Rule): (ms: Option<seq<Matcher>>)
    requires rule.Valid() && !rule.kind.Directory?
    ensures ms.Some? ==> WellFormedRules(ms.value)
  {
    if rule.kind.Tree? then
      var root := TopRoot(rule.target);
      if rule.patterns == [] then Some([Matcher(TopLevelRoot, rule.mode, Some(root), [], [])])
      else TreePatterns(rule.patterns, root, rule.mode)
    else if StartsWith(rule.target, "**/") then One(DevicePattern(rule.target[3..], None, rule.mode))
    else if '*' in rule.target || '?' in rule.target then One(DevicePattern(rule.target, None, rule.mode))
    else Some([Matcher(ExactPath, rule.mode, None, rule.target, [])])
  }

  function One(m: Option<Matcher>): Option<seq<Matcher>> {
    if m == None then None else Some([m.value])
  }

  /** Directories and kernel rules declare no matcher. */
  predicate Declares(rule: Rule) {
    !rule.kind.Directory? && !rule.mode.Kernel?
  }

  /** Everything the rules declare, or nothing when some pattern is unrepresentable. */
  ghost function Declared(rules: seq<Rule>): (ds: Option<seq<Declaration>>)
    requires forall r | r in rules :: r.Valid()
    ensures ds.Some? ==> forall d | d in ds.value :: d.matcher.WellFormed()
  {
    if rules == [] then Some([])
    else
      var n := |rules| - 1;
      var before := Declared(rules[..n]);
      if before == None || !Declares(rules[n]) then before
      else
        var ms := DeviceMatchers(rules[n]);
        if ms == None then None else Some(before.value + Label(ms.value, rules[n].boards))
  }

  ghost function Label(ms: seq<Matcher>, boards: set<Board>): (ds: seq<Declaration>)
    ensures |ds| == |ms| && forall i | 0 <= i < |ds| :: ds[i] == Declaration(ms[i], boards)
  {
    seq(|ms|, i requires 0 <= i < |ms| => Declaration(ms[i], boards))
  }

  lemma {:induction false} DeclaredPrefix(rules: seq<Rule>, n: nat)
    requires forall r | r in rules :: r.Valid()
    requires n <= |rules| && Declared(rules).Some?
    ensures Declared(rules[..n]).Some? && Declared(rules[..n]).value <= Declared(rules).value
  {
    if n < |rules| {
      var last := |rules| - 1;
      DeclaredPrefix(rules[..last], n);
      assert rules[..last][..n] == rules[..n];
    } else {
      assert rules[..n] == rules;
    }
  }

  // ------------------------------------------------------------- acceptance

  /** No two declarations give one pattern two modes. */
  ghost predicate Consistent(ds: seq<Declaration>) {
    forall a, b | a in ds && b in ds && KeyOf(a.matcher) == KeyOf(b.matcher) :: a.matcher.mode == b.matcher.mode
  }

  /** The table holds each declared matcher once, with the union of its boards. */
  ghost predicate Represents(table: Table, ds: seq<Declaration>) {
    && DistinctKeys(table.values)
    && BoardsKnown(table.values, table.boards)
    && (forall k | k in table.boards :: exists m :: m in table.values && KeyOf(m) == k)
    && (forall m | m in table.values :: m.WellFormed() && DeclaredFor(ds, m) == table.boards[KeyOf(m)])
    && (forall d | d in ds :: d.matcher in table.values)
    && (forall m | m in table.values :: exists d :: d in ds && d.matcher == m)
  }

  /** The boards some declaration of the matcher covers. */
  ghost function DeclaredFor(ds: seq<Declaration>, m: Matcher): set<Board> {
    set d, board | d in ds && d.matcher == m && board in d.boards :: board
  }

  /** The layout is accepted: representable, consistent, and scoped. */
  ghost predicate Acceptable(rules: seq<Rule>)
    requires forall r | r in rules :: r.Valid()
  {
    && Declared(rules).Some?
    && Consistent(Declared(rules).value)
    && forall a, b | a in Declared(rules).value && b in Declared(rules).value ::
         DeclarationsScoped(Declared(rules).value, a.matcher, b.matcher)
  }

  ghost predicate DeclarationsScoped(ds: seq<Declaration>, a: Matcher, b: Matcher) {
    || a.kind.ExactPath? || b.kind.ExactPath? || a.mode == b.mode || !Overlap(a, b) || !Before(a, b)
    || DeclaredFor(ds, a) >= DeclaredFor(ds, b)
  }

  // ---------------------------------------------------------------- building

  lemma DeclaredForExtended(ds: seq<Declaration>, m: Matcher, boards: set<Board>, o: Matcher)
    ensures DeclaredFor(ds + [Declaration(m, boards)], o) == DeclaredFor(ds, o) + if o == m then boards else {}
  {
    assert forall d :: d in ds + [Declaration(m, boards)] <==> d in ds || d == Declaration(m, boards);
  }

  lemma ExtendKnown(table: Table, ds: seq<Declaration>, m: Matcher, boards: set<Board>)
    requires Represents(table, ds) && m in table.values
    ensures Represents(Table(table.values, table.boards[KeyOf(m) := table.boards[KeyOf(m)] + boards]),
                       ds + [Declaration(m, boards)])
  {
    hide KeyOf, Matcher.WellFormed, DeclaredFor;
    var table' := Table(table.values, table.boards[KeyOf(m) := table.boards[KeyOf(m)] + boards]);
    var ds' := ds + [Declaration(m, boards)];
    assert forall d :: d in ds' <==> d in ds || d == Declaration(m, boards);
    forall o | o in table.values
      ensures DeclaredFor(ds', o) == table'.boards[KeyOf(o)]
    {
      DeclaredForExtended(ds, m, boards, o);
      if KeyOf(o) == KeyOf(m) {
        SameElementSameKey(table.values, o, m);
      }
    }
  }

  lemma ExtendNew(table: Table, ds: seq<Declaration>, m: Matcher, boards: set<Board>)
    requires Represents(table, ds) && m.WellFormed()
    requires forall o | o in table.values :: KeyOf(o) != KeyOf(m)
    ensures Represents(Table(table.values + [m], table.boards[KeyOf(m) := boards]), ds + [Declaration(m, boards)])
  {
    hide KeyOf, Matcher.WellFormed;
    var table' := Table(table.values + [m], table.boards[KeyOf(m) := boards]);
    var ds' := ds + [Declaration(m, boards)];
    assert forall d :: d in ds' <==> d in ds || d == Declaration(m, boards);
    assert forall o :: o in table'.values <==> o in table.values || o == m;
    assert DeclaredFor(ds, m) == {};
    forall o | o in table'.values
      ensures DeclaredFor(ds', o) == table'.boards[KeyOf(o)]
    {
      DeclaredForExtended(ds, m, boards, o);
    }
    forall k | k in table'.boards
      ensures exists o :: o in table'.values && KeyOf(o) == k
    {
      if k != KeyOf(m) {
        var o :| o in table.values && KeyOf(o) == k;
        assert o in table'.values;
      }
    }
  }

  method AddMatcher(table: Table, m: Matcher, boards: set<Board>, ghost ds: seq<Declaration>)
    returns (ok: bool, table': Table)
    requires Represents(table, ds) && m.WellFormed()
    ensures ok ==> Represents(table', ds + [Declaration(m, boards)])
    ensures !ok ==> exists d :: d in ds && KeyOf(d.matcher) == KeyOf(m) && d.matcher.mode != m.mode
  {
    var key := KeyOf(m);
    var i := 0;
    while i < |table.values| && KeyOf(table.values[i]) != key
      invariant i <= |table.values|
      invariant forall k | 0 <= k < i :: KeyOf(table.values[k]) != key
    {
      i := i + 1;
    }
    if i < |table.values| {
      assert table.values[i] in table.values;
      if table.values[i].mode != m.mode {
        return false, table;
      }
      SameKeyAndModeSame(table.values[i], m);
      ExtendKnown(table, ds, m, boards);
      return true, Table(table.values, table.boards[key := table.boards[key] + boards]);
    }
    ExtendNew(table, ds, m, boards);
    return true, Table(table.values + [m], table.boards[key := boards]);
  }

  lemma SameKeyAndModeSame(a: Matcher, b: Matcher)
    requires a.WellFormed() && b.WellFormed() && KeyOf(a) == KeyOf(b) && a.mode == b.mode
    ensures a == b
  {
  }

  lemma ConsistentPrefix(before: seq<Declaration>, all: seq<Declaration>)
    requires before <= all && Consistent(all)
    ensures Consistent(before)
  {
    assert forall d | d in before :: d in all;
  }

  /** Adds all matchers of one rule. */
  method AddRule(table: Table, ms: seq<Matcher>, boards: set<Board>, ghost ds: seq<Declaration>)
    returns (ok: bool, table': Table)
    requires Represents(table, ds) && WellFormedRules(ms)
    ensures ok ==> Represents(table', ds + Label(ms, boards))
    ensures !ok ==> !Consistent(ds + Label(ms, boards))
  {
    hide Represents, Consistent;
    table' := table;
    ghost var labelled := Label(ms, boards);
    assert ds + labelled[..0] == ds;
    for k := 0 to |ms|
      invariant Represents(table', ds + labelled[..k])
    {
      ghost var soFar := ds + labelled[..k];
      assert soFar + [labelled[k]] == ds + labelled[..k + 1];
      ok, table' := AddMatcher(table', ms[k], boards, soFar);
      if !ok {
        Inconsistent(soFar, labelled[k]);
        if Consistent(ds + labelled) {
          assert ds + labelled[..k + 1] <= ds + labelled;
          ConsistentPrefix(ds + labelled[..k + 1], ds + labelled);
        }
        return;
      }
    }
    assert labelled[..|ms|] == labelled;
    ok := true;
  }

  lemma Inconsistent(before: seq<Declaration>, d: Declaration)
    requires exists e :: e in before && KeyOf(e.matcher) == KeyOf(d.matcher) && e.matcher.mode != d.matcher.mode
    ensures !Consistent(before + [d])
  {
    var e :| e in before && KeyOf(e.matcher) == KeyOf(d.matcher) && e.matcher.mode != d.matcher.mode;
    assert e in before + [d] && d in before + [d];
  }

  /** What one more rule declares. */
  lemma DeclaredNext(rules: seq<Rule>, n: nat)
    requires forall r | r in rules :: r.Valid()
    requires n < |rules| && Declared(rules[..n]).Some?
    ensures Declared(rules[..n + 1]) ==
            if !Declares(rules[n]) then Declared(rules[..n])
            else if DeviceMatchers(rules[n]) == None then None
            else Some(Declared(rules[..n]).value + Label(DeviceMatchers(rules[n]).value, rules[n].boards))
  {
    hide DeviceMatchers;
    assert rules[..n + 1][..n] == rules[..n] && rules[..n + 1][n] == rules[n];
  }

  /** Collects the matchers of all rules. */
  method CollectMatchers(rules: seq<Rule>) returns (ok: bool, table: Table)
    requires forall r | r in rules :: r.Valid()
    ensures ok ==> Declared(rules).Some? && Represents(table, Declared(rules).value)
    ensures !ok ==> Declared(rules) == None || !Consistent(Declared(rules).value)
  {
    table := Table([], map[]);
    ghost var ds: seq<Declaration> := [];
    for n := 0 to |rules|
      invariant Declared(rules[..n]) == Some(ds)
      invariant Represents(table, ds)
    {
      hide Represents, Consistent, Declared, DeviceMatchers, Matcher.WellFormed;
      var rule := rules[n];
      DeclaredNext(rules, n);
      if Declares(rule) {
        var ms := DeviceMatchers(rule);
        if ms == None {
          PrefixRefused(rules, n + 1);
          return false, table;
        }
        ok, table := AddRule(table, ms.value, rule.boards, ds);
        ds := ds + Label(ms.value, rule.boards);
        if !ok {
          PrefixRefused(rules, n + 1);
          return;
        }
      }
    }
    assert rules[..|rules|] == rules;
    ok := true;
  }

  lemma PrefixRefused(rules: seq<Rule>, n: nat)
    requires forall r | r in rules :: r.Valid()
    requires n <= |rules|
    requires Declared(rules[..n]) == None || !Consistent(Declared(rules[..n]).value)
    ensures Declared(rules) == None || !Consistent(Declared(rules).value)
  {
    if Declared(rules).Some? && Consistent(Declared(rules).value) {
      DeclaredPrefix(rules, n);
      ConsistentPrefix(Declared(rules[..n]).value, Declared(rules).value);
    }
  }

  // -------------------------------------------------------------- validation

  /** Rejects board-local precedence that leaks onto another board. */
  method ValidateScopes(rules: seq<Matcher>, boards: Boards) returns (ok: bool)
    requires BoardsKnown(rules, boards)
    ensures ok <==> Scoped(rules, boards)
  {
    for i := 0 to |rules|
      invariant forall p, q | 0 <= p < i && p < q < |rules| :: PairScoped(rules[p], rules[q], boards)
    {
      for j := i + 1 to |rules|
        invariant forall q | i < q < j :: PairScoped(rules[i], rules[q], boards)
      {
        if !PairScoped(rules[i], rules[j], boards) {
          return false;
        }
      }
    }
    return true;
  }

  /** Whether the first of the broader rules gives the exact rule's path its mode. */
  method IsRedundant(rules: seq<Matcher>, m: Matcher) returns (redundant: bool)
    requires DistinctKeys(rules) && m in rules
    ensures redundant <==> Redundant(rules, m)
  {
    if !m.kind.ExactPath? {
      return false;
    }
    var best: Option<Matcher> := None;
    for i := 0 to |rules|
      invariant best == None ==> forall o | o in rules[..i] && o != m :: !o.Matches(m.value)
      invariant best.Some? ==>
                  && best.value in rules[..i] && best.value != m && best.value.Matches(m.value)
                  && forall o | o in rules[..i] && o != m && o.Matches(m.value) ::
                       o == best.value || Before(best.value, o)
    {
      var o := rules[i];
      assert rules[..i + 1] == rules[..i] + [o];
      if o != m && o.Matches(m.value) && (best == None || Before(o, best.value)) {
        if best.Some? {
          forall p | p in rules[..i] && p != m && p.Matches(m.value)
            ensures Before(o, p)
          {
            if p != best.value {
              KeyOrderTransitive(KeyOf(o), KeyOf(best.value), KeyOf(p));
            }
          }
        }
        best := Some(o);
      } else if best.Some? {
        KeyOrder(KeyOf(o), KeyOf(best.value));
      }
    }
    assert rules[..|rules|] == rules;
    if best.Some? {
      OnlyOneBest(rules, m, best.value);
    }
    return best.Some? && best.value.mode == m.mode;
  }

  lemma OnlyOneBest(rules: seq<Matcher>, m: Matcher, best: Matcher)
    requires best in rules && best != m && best.Matches(m.value)
    requires forall o | o in rules && o != m && o.Matches(m.value) :: o == best || Before(best, o)
    ensures forall w | && w in rules && w != m && w.Matches(m.value)
                       && forall o | o in rules && o != m && o.Matches(m.value) :: o == w || Before(w, o) ::
              w == best
  {
    forall w | && w in rules && w != m && w.Matches(m.value)
               && forall o | o in rules && o != m && o.Matches(m.value) :: o == w || Before(w, o)
      ensures w == best
    {
      KeyOrder(KeyOf(w), KeyOf(best));
    }
  }

  /** The rules that are not redundant, in their original order. */
  method Normalize(rules: seq<Matcher>) returns (kept: seq<Matcher>)
    requires DistinctKeys(rules)
    ensures DistinctKeys(kept) && NormalizationOf(kept, rules)
  {
    kept := [];
    for i := 0 to |rules|
      invariant forall m :: m in kept <==> m in rules[..i] && !Redundant(rules, m)
      invariant DistinctKeys(kept)
    {
      var m := rules[i];
      assert rules[..i + 1] == rules[..i] + [m];
      var redundant := IsRedundant(rules, m);
      if !redundant {
        forall o | o in kept
          ensures KeyOf(o) != KeyOf(m)
        {
          var j :| 0 <= j < i && rules[j] == o;
        }
        kept := kept + [m];
      }
    }
    assert rules[..|rules|] == rules;
  }

  // ---------------------------------------------------------------- document

  /** The projection, or nothing when the layout is refused. */
  method DeviceProjectionDocument(rules: seq<Rule>) returns (document: Option<seq<Matcher>>)
    requires forall r | r in rules :: r.Valid()
    ensures document.Some? <==> Acceptable(rules)
    ensures document.Some? ==>
              && SortedRules(document.value) && Minimal(document.value)
              && forall path :: Decides(document.value, Declared(rules).value, path)
  {
    var ok, table := CollectMatchers(rules);
    if !ok {
      return None;
    }
    ghost var ds := Declared(rules).value;
    RepresentedConsistent(table, ds);
    RepresentedScoped(table, ds);
    var scoped := ValidateScopes(table.values, table.boards);
    if !scoped {
      return None;
    }
    var kept := Normalize(table.values);
    SortedSorts(kept);
    SortedSorts(table.values);
    document := Some(Sorted(kept));
    NormalizationIsMinimal(table.values, document.value);
    forall path
      ensures Decides(document.value, ds, path)
    {
      NormalizationPreservesMeaning(table.values, Sorted(table.values), document.value, path);
      WinnersDecide(table.values, Sorted(table.values), path);
      RepresentedDecides(table, ds, document.value, path);
    }
  }

  /** The document gives the path the mode of the first declared matcher accepting
      it, and rejects it exactly when no declared matcher accepts it. */
  ghost predicate Decides(document: seq<Matcher>, ds: seq<Declaration>, path: string) {
    && (Lookup(document, path) == None <==> forall d | d in ds :: !d.matcher.Matches(path))
    && forall d | d in ds && First(ds, path, d.matcher) :: Lookup(document, path) == Some(d.matcher.mode)
  }

  ghost predicate First(ds: seq<Declaration>, path: string, m: Matcher) {
    m.Matches(path) && forall e | e in ds && e.matcher.Matches(path) :: e.matcher == m || Before(m, e.matcher)
  }

  lemma RepresentedDecides(table: Table, ds: seq<Declaration>, document: seq<Matcher>, path: string)
    requires Represents(table, ds)
    ensures (Lookup(document, path) == None <==> forall m | m in table.values :: !m.Matches(path))
            && (forall m | Winner(table.values, path, m) :: Lookup(document, path) == Some(m.mode)) ==>
              Decides(document, ds, path)
  {
    forall d | d in ds && First(ds, path, d.matcher)
      ensures Winner(table.values, path, d.matcher)
    {
    }
  }

  lemma RepresentedConsistent(table: Table, ds: seq<Declaration>)
    requires Represents(table, ds)
    ensures Consistent(ds)
  {
    forall a, b | a in ds && b in ds && KeyOf(a.matcher) == KeyOf(b.matcher)
      ensures a.matcher.mode == b.matcher.mode
    {
      SameElementSameKey(table.values, a.matcher, b.matcher);
    }
  }

  lemma RepresentedScoped(table: Table, ds: seq<Declaration>)
    requires Represents(table, ds)
    ensures Scoped(table.values, table.boards) <==>
              forall a, b | a in ds && b in ds :: DeclarationsScoped(ds, a.matcher, b.matcher)
  {
    hide Overlap, KeyLess, Before, PairScoped, DeclarationsScoped;
    if Scoped(table.values, table.boards) {
      forall a, b | a in ds && b in ds
        ensures DeclarationsScoped(ds, a.matcher, b.matcher)
      {
        ScopedPair(table, ds, a.matcher, b.matcher);
      }
    }
    if forall a, b | a in ds && b in ds :: DeclarationsScoped(ds, a.matcher, b.matcher) {
      forall i, j | 0 <= i < j < |table.values|
        ensures PairScoped(table.values[i], table.values[j], table.boards)
      {
        assert table.values[i] in table.values && table.values[j] in table.values;
        var a :| a in ds && a.matcher == table.values[i];
        var b :| b in ds && b.matcher == table.values[j];
        assert DeclarationsScoped(ds, a.matcher, b.matcher) && DeclarationsScoped(ds, b.matcher, a.matcher);
        ScopedValues(table, ds, a.matcher, b.matcher);
      }
    }
  }

  lemma ScopedValues(table: Table, ds: seq<Declaration>, a: Matcher, b: Matcher)
    requires Represents(table, ds) && a in table.values && b in table.values
    requires DeclarationsScoped(ds, a, b) && DeclarationsScoped(ds, b, a)
    ensures PairScoped(a, b, table.boards)
  {
    KeyOrder(KeyOf(a), KeyOf(b));
    OverlapIsSymmetric(a, b);
    hide KeyLess, Overlap;
  }

  lemma ScopedPair(table: Table, ds: seq<Declaration>, a: Matcher, b: Matcher)
    requires Represents(table, ds) && Scoped(table.values, table.boards)
    requires a in table.values && b in table.values
    ensures DeclarationsScoped(ds, a, b)
  {
    if a != b {
      var i :| 0 <= i < |table.values| && table.values[i] == a;
      var j :| 0 <= j < |table.values| && table.values[j] == b;
      KeyOrder(KeyOf(a), KeyOf(b));
      OverlapIsSymmetric(a, b);
      if i < j {
        assert PairScoped(table.values[i], table.values[j], table.boards);
      } else {
        assert PairScoped(table.values[j], table.values[i], table.boards);
      }
    }
  }

  // ------------------------------------------------------ board independence

  /** The first matcher declared for the board that accepts the path. */
  ghost predicate BoardFirst(ds: seq<Declaration>, board: Board, path: string, m: Matcher) {
    && m.Matches(path) && board in DeclaredFor(ds, m)
    && forall e | e in ds && board in DeclaredFor(ds, e.matcher) && e.matcher.Matches(path) ::
         e.matcher == m || Before(m, e.matcher)
  }

  /** A matcher before the first one takes its place. */
  lemma EarlierFirst(ds: seq<Declaration>, last: Declaration, path: string, m: Matcher)
    requires First(ds, path, m) && last.matcher.Matches(path) && Before(last.matcher, m)
    ensures First(ds + [last], path, last.matcher)
  {
    forall e | e in ds && e.matcher.Matches(path)
      ensures Before(last.matcher, e.matcher)
    {
      if e.matcher != m {
        KeyOrderTransitive(KeyOf(last.matcher), KeyOf(m), KeyOf(e.matcher));
      }
    }
    hide KeyLess;
  }

  lemma LaterKeepsFirst(ds: seq<Declaration>, last: Declaration, path: string, m: Matcher)
    requires First(ds, path, m) && (last.matcher.Matches(path) ==> last.matcher == m || Before(m, last.matcher))
    ensures First(ds + [last], path, m)
  {
    hide Before;
  }

  /** One more declaration takes the first place or leaves it where it is. */
  lemma FirstOfMore(before: seq<Declaration>, last: Declaration, path: string, d: Declaration)
    requires d in before && First(before, path, d.matcher) && Consistent(before + [last])
    requires d.matcher.WellFormed() && last.matcher.WellFormed()
    ensures First(before + [last], path, d.matcher) || First(before + [last], path, last.matcher)
  {
    hide KeyLess, Matcher.Matches, Matcher.WellFormed;
    var ds := before + [last];
    assert d in ds && last in ds;
    KeyOrder(KeyOf(d.matcher), KeyOf(last.matcher));
    if last.matcher.Matches(path) && Before(last.matcher, d.matcher) {
      EarlierFirst(before, last, path, d.matcher);
    } else {
      if KeyOf(d.matcher) == KeyOf(last.matcher) {
        SameKeyAndModeSame(d.matcher, last.matcher);
      }
      LaterKeepsFirst(before, last, path, d.matcher);
    }
  }

  lemma {:induction false} FirstExists(ds: seq<Declaration>, path: string)
    requires Consistent(ds) && forall d | d in ds :: d.matcher.WellFormed()
    requires exists d :: d in ds && d.matcher.Matches(path)
    ensures exists d :: d in ds && First(ds, path, d.matcher)
  {
    hide KeyLess, Before, Matcher.Matches, Matcher.WellFormed;
    var n := |ds| - 1;
    var before, last := ds[..n], ds[n];
    assert ds == before + [last];
    assert last in ds && forall d | d in before :: d in ds;
    ConsistentPrefix(before, ds);
    if exists d :: d in before && d.matcher.Matches(path) {
      FirstExists(before, path);
      var d :| d in before && First(before, path, d.matcher);
      FirstOfMore(before, last, path, d);
    } else {
      assert First(ds, path, last.matcher);
    }
  }

  /** A matcher that accepts the path and is declared for the board makes the board
      have a first one. */
  lemma BoardFirstExists(ds: seq<Declaration>, board: Board, path: string)
    requires Consistent(ds) && forall d | d in ds :: d.matcher.WellFormed()
    requires exists d :: d in ds && board in d.boards && d.matcher.Matches(path)
    ensures exists own :: BoardFirst(ds, board, path, own)
  {
    hide Matcher.Matches, Matcher.WellFormed, Before;
    var mine := OfBoard(ds, board);
    assert exists d :: d in mine && d.matcher.Matches(path) by {
      var d :| d in ds && board in d.boards && d.matcher.Matches(path);
      assert d in mine;
    }
    FirstExists(mine, path);
    var first :| first in mine && First(mine, path, first.matcher);
    forall e | e in ds && board in DeclaredFor(ds, e.matcher) && e.matcher.Matches(path)
      ensures e.matcher == first.matcher || Before(first.matcher, e.matcher)
    {
      var d :| d in ds && d.matcher == e.matcher && board in d.boards;
      assert d in mine;
    }
    assert BoardFirst(ds, board, path, first.matcher);
  }

  /** The declarations made for a board. */
  ghost function OfBoard(ds: seq<Declaration>, board: Board): (mine: seq<Declaration>)
    ensures forall d :: d in mine <==> d in ds && board in d.boards
  {
    if ds == [] then []
    else
      var n := |ds| - 1;
      OfBoard(ds[..n], board) + if board in ds[n].boards then [ds[n]] else []
  }

  /** Board independence of an accepted layout: on a path without an exact rule that
      some matcher of the board accepts, the projection, which knows no boards, answers
      with the mode of the first of the board's own matchers. */
  lemma ProjectionIsBoardIndependent(rules: seq<Rule>, board: Board, d: Declaration, path: string)
    requires forall r | r in rules :: r.Valid()
    requires Acceptable(rules)
    requires forall e | e in Declared(rules).value && e.matcher.kind.ExactPath? :: !e.matcher.Matches(path)
    requires d in Declared(rules).value && board in d.boards && d.matcher.Matches(path)
    ensures exists own :: BoardFirst(Declared(rules).value, board, path, own) &&
              forall document | Decides(document, Declared(rules).value, path) :: Lookup(document, path) == Some(own.mode)
  {
    BoardFirstExists(Declared(rules).value, board, path);
    var own :| BoardFirst(Declared(rules).value, board, path, own);
    BoardModeAnswered(rules, board, path, own);
  }

  lemma BoardModeAnswered(rules: seq<Rule>, board: Board, path: string, own: Matcher)
    requires forall r | r in rules :: r.Valid()
    requires Acceptable(rules)
    requires forall d | d in Declared(rules).value && d.matcher.kind.ExactPath? :: !d.matcher.Matches(path)
    requires BoardFirst(Declared(rules).value, board, path, own)
    ensures forall document | Decides(document, Declared(rules).value, path) :: Lookup(document, path) == Some(own.mode)
  {
    var ds := Declared(rules).value;
    var d :| d in ds && d.matcher == own && board in d.boards;
    assert d.matcher.Matches(path);
    FirstExists(ds, path);
    var w :| w in ds && First(ds, path, w.matcher);
    if w.matcher.mode != own.mode {
      MeetingMeansOverlap(w.matcher, own, path);
      KeyOrder(KeyOf(w.matcher), KeyOf(own));
      assert false;
    }
  }

  /** Every board gets from the document, on every path that its own matchers accept, the
      mode of the first of them. */
  ghost predicate AnswersEachBoard(document: seq<Matcher>, ds: seq<Declaration>) {
    forall board, path, own | BoardFirst(ds, board, path, own) :: Lookup(document, path) == Some(own.mode)
  }

  /** Each exact matcher says of its own path what a board that it was not declared for
      says of it. */
  ghost predicate ExactMatchersAgree(ds: seq<Declaration>) {
    forall d, board, own | d in ds && d.matcher.kind.ExactPath? && board !in DeclaredFor(ds, d.matcher)
                           && BoardFirst(ds, board, d.matcher.value, own) ::
      own.mode == d.matcher.mode
  }

  /** An exact matcher is the first on its own path. */
  lemma ExactIsFirst(ds: seq<Declaration>, d: Declaration, path: string)
    requires Consistent(ds) && forall e | e in ds :: e.matcher.WellFormed()
    requires d in ds && d.matcher.kind.ExactPath? && d.matcher.Matches(path)
    ensures First(ds, path, d.matcher) && path == d.matcher.value
  {
    hide KeyLess;
    forall e | e in ds && e.matcher.Matches(path)
      ensures e.matcher == d.matcher || Before(d.matcher, e.matcher)
    {
      if !e.matcher.kind.ExactPath? {
        ExactFirst(d.matcher, e.matcher);
      }
    }
  }

  lemma ExactAnswers(ds: seq<Declaration>, d: Declaration)
    requires Consistent(ds) && forall e | e in ds :: e.matcher.WellFormed()
    requires d in ds && d.matcher.kind.ExactPath?
    ensures forall document | Decides(document, ds, d.matcher.value) ::
              Lookup(document, d.matcher.value) == Some(d.matcher.mode)
  {
    assert d.matcher.Matches(d.matcher.value);
    ExactIsFirst(ds, d, d.matcher.value);
  }

  /** A board that an exact matcher was declared for has it first. */
  lemma OwnExactIsFirst(ds: seq<Declaration>, board: Board, path: string, d: Declaration, own: Matcher)
    requires d in ds && First(ds, path, d.matcher) && board in DeclaredFor(ds, d.matcher)
    requires BoardFirst(ds, board, path, own)
    ensures own == d.matcher
  {
    KeyOrder(KeyOf(d.matcher), KeyOf(own));
    var e :| e in ds && e.matcher == own && board in e.boards;
  }

  /** What acceptance is worth: the document of an accepted layout answers every board with
      the mode of its own first matcher if and only if each exact matcher agrees, on its
      own path, with the board it was not declared for. */
  lemma ProjectionAnswersEachBoardIff(rules: seq<Rule>, document: seq<Matcher>)
    requires forall r | r in rules :: r.Valid()
    requires Acceptable(rules) && forall path :: Decides(document, Declared(rules).value, path)
    ensures AnswersEachBoard(document, Declared(rules).value) <==> ExactMatchersAgree(Declared(rules).value)
  {
    var ds := Declared(rules).value;
    hide Matcher.Matches, Matcher.WellFormed, Decides, BoardFirst, First, DeclaredFor, Lookup, DeclarationsScoped;
    if AnswersEachBoard(document, ds) {
      forall d, board, own | d in ds && d.matcher.kind.ExactPath? && board !in DeclaredFor(ds, d.matcher)
                             && BoardFirst(ds, board, d.matcher.value, own)
        ensures own.mode == d.matcher.mode
      {
        ExactAnswers(ds, d);
      }
    }
    if ExactMatchersAgree(ds) {
      forall board, path, own | BoardFirst(ds, board, path, own)
        ensures Lookup(document, path) == Some(own.mode)
      {
        if d :| d in ds && d.matcher.kind.ExactPath? && d.matcher.Matches(path) {
          ExactIsFirst(ds, d, path);
          ExactAnswers(ds, d);
          if board in DeclaredFor(ds, d.matcher) {
            OwnExactIsFirst(ds, board, path, d, own);
          }
        } else {
          BoardModeAnswered(rules, board, path, own);
        }
      }
    }
  }
}
