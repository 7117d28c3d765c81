/** The device projection: the layout's rules reduced to a sorted list of matchers
    of which the first one accepting a path decides its update mode. */
module DevicePolicy {
  import opened Wrappers
  import opened Strings
  import opened DeviceMatcher

  // ----------------------------------------------------------- first match

  /** The mode of the first rule that accepts the path. */
  function Lookup(rules: seq<Matcher>, path: string): Option<Mode> {
    if rules == [] then None
    else if rules[0].Matches(path) then Some(rules[0].mode)
    else Lookup(rules[1..], path)
  }

  predicate WellFormedRules(rules: seq<Matcher>) {
    forall m | m in rules :: m.WellFormed()
  }

  /** No two matchers share a key. */
  predicate DistinctKeys(rules: seq<Matcher>) {
    forall i, j | 0 <= i < j < |rules| :: KeyOf(rules[i]) != KeyOf(rules[j])
  }

  predicate SortedRules(rules: seq<Matcher>) {
    forall i, j | 0 <= i < j < |rules| :: Before(rules[i], rules[j])
  }

  /** `m` is the first matcher, in matcher order, that accepts the path. */
  ghost predicate Winner(rules: seq<Matcher>, path: string, m: Matcher) {
    && m in rules && m.Matches(path)
    && forall o | o in rules && o.Matches(path) :: o == m || Before(m, o)
  }

  /** On a sorted list the lookup returns the winner's mode, and nothing exactly
      when no rule accepts the path. */
  lemma {:induction false} LookupFindsWinner(rules: seq<Matcher>, path: string)
    requires SortedRules(rules)
    ensures Lookup(rules, path) == None <==> forall m | m in rules :: !m.Matches(path)
    ensures forall m | Winner(rules, path, m) :: Lookup(rules, path) == Some(m.mode)
    ensures (exists m :: m in rules && m.Matches(path)) ==> exists m :: Winner(rules, path, m)
  {
    if rules != [] {
      var head, rest := rules[0], rules[1..];
      if head.Matches(path) {
        forall o | o in rules && o.Matches(path)
          ensures o == head || Before(head, o)
        {
        }
        assert Winner(rules, path, head);
        forall m | Winner(rules, path, m)
          ensures m == head
        {
          KeyOrder(KeyOf(m), KeyOf(head));
        }
      } else {
        LookupFindsWinner(rest, path);
        forall m
          ensures Winner(rules, path, m) <==> Winner(rest, path, m)
        {
          WinnerOfRest(rules, path, m);
        }
        if m :| m in rules && m.Matches(path) {
          assert m in rest;
        }
      }
    }
  }

  lemma WinnerOfRest(rules: seq<Matcher>, path: string, m: Matcher)
    requires rules != [] && !rules[0].Matches(path)
    ensures Winner(rules, path, m) <==> Winner(rules[1..], path, m)
  {
    assert forall o :: o in rules <==> o == rules[0] || o in rules[1..];
  }

  /** Sorted lists with the same elements answer alike, whatever produced them. */
  lemma WinnersDecide(full: seq<Matcher>, sorted: seq<Matcher>, path: string)
    requires SortedRules(sorted)
    requires forall m :: m in full <==> m in sorted
    ensures Lookup(sorted, path) == None <==> forall m | m in full :: !m.Matches(path)
    ensures forall m | Winner(full, path, m) :: Lookup(sorted, path) == Some(m.mode)
  {
    LookupFindsWinner(sorted, path);
    forall m | Winner(full, path, m)
      ensures Winner(sorted, path, m)
    {
    }
  }

  // ---------------------------------------------------------------- sorting

  function Insert(m: Matcher, rules: seq<Matcher>): seq<Matcher> {
    if rules == [] then [m]
    else if Before(m, rules[0]) then [m] + rules
    else [rules[0]] + Insert(m, rules[1..])
  }

  function Sorted(rules: seq<Matcher>): seq<Matcher> {
    if rules == [] then [] else Insert(rules[0], Sorted(rules[1..]))
  }

  lemma {:induction false} InsertSorts(m: Matcher, rules: seq<Matcher>)
    requires SortedRules(rules)
    requires forall o | o in rules :: KeyOf(o) != KeyOf(m)
    ensures SortedRules(Insert(m, rules))
    ensures forall o :: o in Insert(m, rules) <==> o == m || o in rules
  {
    if rules != [] {
      var rest := rules[1..];
      assert forall o :: o in rules <==> o == rules[0] || o in rest;
      KeyOrder(KeyOf(m), KeyOf(rules[0]));
      if Before(m, rules[0]) {
        forall o | o in rules
          ensures Before(m, o)
        {
          if o != rules[0] {
            KeyOrderTransitive(KeyOf(m), KeyOf(rules[0]), KeyOf(o));
          }
        }
      } else {
        InsertSorts(m, rest);
        forall o | o in Insert(m, rest)
          ensures Before(rules[0], o)
        {
        }
      }
    }
  }

  lemma {:induction false} SortedSorts(rules: seq<Matcher>)
    requires DistinctKeys(rules)
    ensures SortedRules(Sorted(rules))
    ensures forall o :: o in Sorted(rules) <==> o in rules
  {
    if rules != [] {
      SortedSorts(rules[1..]);
      InsertSorts(rules[0], Sorted(rules[1..]));
      assert forall o :: o in rules <==> o == rules[0] || o in rules[1..];
    }
  }

  // ---------------------------------------------------------- normalization

  /** An exact rule that the broader rules already decide the same way. */
  ghost predicate Redundant(rules: seq<Matcher>, m: Matcher) {
    && m.kind.ExactPath?
    && exists w ::
         && w in rules && w != m && w.Matches(m.value) && w.mode == m.mode
         && forall o | o in rules && o != m && o.Matches(m.value) :: o == w || Before(w, o)
  }

  /** `kept` is `rules` without its redundant exact rules. */
  ghost predicate NormalizationOf(kept: seq<Matcher>, rules: seq<Matcher>) {
    forall m :: m in kept <==> m in rules && !Redundant(rules, m)
  }

  lemma SameElementSameKey(rules: seq<Matcher>, a: Matcher, b: Matcher)
    requires DistinctKeys(rules) && a in rules && b in rules && KeyOf(a) == KeyOf(b)
    ensures a == b
  {
    var i :| 0 <= i < |rules| && rules[i] == a;
    var j :| 0 <= j < |rules| && rules[j] == b;
  }

  /** Normalization preserves meaning: the sorted normalized list and the sorted
      full list give every path the same mode or the same rejection. */
  lemma NormalizationPreservesMeaning(rules: seq<Matcher>, full: seq<Matcher>, kept: seq<Matcher>, path: string)
    requires WellFormedRules(rules) && DistinctKeys(rules)
    requires SortedRules(full) && forall m :: m in full <==> m in rules
    requires SortedRules(kept) && NormalizationOf(kept, rules)
    ensures Lookup(kept, path) == Lookup(full, path)
  {
    LookupFindsWinner(full, path);
    LookupFindsWinner(kept, path);
    if forall m | m in rules :: !m.Matches(path) {
      assert Lookup(full, path) == None == Lookup(kept, path);
    } else {
      assert exists m :: m in full && m.Matches(path);
      var w :| Winner(full, path, w);
      if !Redundant(rules, w) {
        assert Winner(kept, path, w);
      } else {
        var b :| && b in rules && b != w && b.Matches(w.value) && b.mode == w.mode
                 && forall o | o in rules && o != w && o.Matches(w.value) :: o == b || Before(b, o);
        if b.kind.ExactPath? {
          SameElementSameKey(rules, b, w);
        }
        assert path == w.value;
        assert b in kept && w !in kept;
        assert Winner(kept, path, b);
      }
    }
  }

  /** No exact rule of the list could be left out without another answer for its path. */
  ghost predicate Minimal(list: seq<Matcher>) {
    forall m, rest | m in list && m.kind.ExactPath? && Without(rest, list, m) :: Lookup(rest, m.value) != Some(m.mode)
  }

  /** `rest` is the list, sorted, without `m`. */
  ghost predicate Without(rest: seq<Matcher>, list: seq<Matcher>, m: Matcher) {
    SortedRules(rest) && forall o :: o in rest <==> o in list && o != m
  }

  /** Normalization drops every exact rule that it may drop. */
  lemma NormalizationIsMinimal(rules: seq<Matcher>, kept: seq<Matcher>)
    requires WellFormedRules(rules) && DistinctKeys(rules) && NormalizationOf(kept, rules)
    ensures Minimal(kept)
  {
    forall m, rest | m in kept && m.kind.ExactPath? && Without(rest, kept, m)
      ensures Lookup(rest, m.value) != Some(m.mode)
    {
      ExactRuleIsNeeded(rules, kept, m, rest);
    }
  }

  lemma ExactRuleIsNeeded(rules: seq<Matcher>, kept: seq<Matcher>, m: Matcher, rest: seq<Matcher>)
    requires WellFormedRules(rules) && DistinctKeys(rules) && NormalizationOf(kept, rules)
    requires m in kept && m.kind.ExactPath? && Without(rest, kept, m)
    ensures Lookup(rest, m.value) != Some(m.mode)
  {
    LookupFindsWinner(rest, m.value);
    if w :| Winner(rest, m.value, w) && w.mode == m.mode {
      WinnerMakesRedundant(rules, kept, m, rest, w);
    }
  }

  /** What answers for the path without the rule, in the same way, makes it redundant. */
  lemma WinnerMakesRedundant(rules: seq<Matcher>, kept: seq<Matcher>, m: Matcher, rest: seq<Matcher>, w: Matcher)
    requires WellFormedRules(rules) && DistinctKeys(rules) && NormalizationOf(kept, rules)
    requires m in rules && m.kind.ExactPath? && Without(rest, kept, m) && Winner(rest, m.value, w) && w.mode == m.mode
    ensures Redundant(rules, m)
  {
    forall o | o in rules && o != m && o.Matches(m.value)
      ensures o in rest
    {
      if o.kind.ExactPath? {
        SameElementSameKey(rules, o, m);
      }
    }
    assert w in kept && w in rules;
  }

  // ------------------------------------------------------------ board scope

  datatype Board = Pi4 | Pi5

  /** Which boards each matcher was written for. */
  type Boards = map<Key, set<Board>>

  predicate BoardsKnown(rules: seq<Matcher>, boards: Boards) {
    forall m | m in rules :: KeyOf(m) in boards
  }

  /** The later of the two in matcher order may not be overridden on a board the
      earlier one does not cover. */
  predicate PairScoped(a: Matcher, b: Matcher, boards: Boards)
    requires KeyOf(a) in boards && KeyOf(b) in boards
  {
    || a.kind.ExactPath? || b.kind.ExactPath? || a.mode == b.mode || !Overlap(a, b)
    || (if Before(b, a) then boards[KeyOf(b)] >= boards[KeyOf(a)] else boards[KeyOf(a)] >= boards[KeyOf(b)])
  }

  predicate Scoped(rules: seq<Matcher>, boards: Boards)
    requires BoardsKnown(rules, boards)
  {
    forall i, j | 0 <= i < j < |rules| :: PairScoped(rules[i], rules[j], boards)
  }

  /** `m` is the first of the board's own matchers that accepts the path. */
  ghost predicate BoardWinner(rules: seq<Matcher>, boards: Boards, board: Board, path: string, m: Matcher)
    requires BoardsKnown(rules, boards)
  {
    && m in rules && board in boards[KeyOf(m)] && m.Matches(path)
    && forall o | o in rules && board in boards[KeyOf(o)] && o.Matches(path) :: o == m || Before(m, o)
  }

  /** Board independence: in an accepted layout, on every path without an exact
      rule, the board-agnostic first match and the first match among the board's
      own rules have the same mode. */
  lemma BoardIndependence(rules: seq<Matcher>, boards: Boards, board: Board, path: string)
    requires WellFormedRules(rules) && BoardsKnown(rules, boards) && Scoped(rules, boards)
    requires forall m | m in rules && m.kind.ExactPath? :: !m.Matches(path)
    ensures forall winner, own | Winner(rules, path, winner) && BoardWinner(rules, boards, board, path, own) ::
              winner.mode == own.mode
  {
    forall winner, own | Winner(rules, path, winner) && BoardWinner(rules, boards, board, path, own)
      ensures winner.mode == own.mode
    {
      if winner.mode != own.mode {
        MeetingMeansOverlap(winner, own, path);
        MeetingMeansOverlap(own, winner, path);
        KeyOrder(KeyOf(winner), KeyOf(own));
        assert false;
      }
    }
  }

  /** On every path each board finds, among its own rules, the mode found among all. */
  ghost predicate BoardIndependent(rules: seq<Matcher>, boards: Boards)
    requires BoardsKnown(rules, boards)
  {
    forall board, path, winner, own | Winner(rules, path, winner) && BoardWinner(rules, boards, board, path, own) ::
      winner.mode == own.mode
  }

  /** On the path of an exact rule made for the other board, a board's own rules say what
      the exact rule says. */
  ghost predicate ExactRulesAgree(rules: seq<Matcher>, boards: Boards)
    requires BoardsKnown(rules, boards)
  {
    forall exact, board, own | exact in rules && exact.kind.ExactPath? && board !in boards[KeyOf(exact)]
                               && BoardWinner(rules, boards, board, exact.value, own) ::
      own.mode == exact.mode
  }

  /** An exact rule decides its own path. */
  lemma ExactRuleWins(rules: seq<Matcher>, exact: Matcher, path: string)
    requires WellFormedRules(rules) && DistinctKeys(rules)
    requires exact in rules && exact.kind.ExactPath? && exact.Matches(path)
    ensures Winner(rules, path, exact) && path == exact.value
  {
    hide KeyLess;
    forall o | o in rules && o.Matches(path)
      ensures o == exact || Before(exact, o)
    {
      if o.kind.ExactPath? {
        SameElementSameKey(rules, o, exact);
      } else {
        ExactFirst(exact, o);
      }
    }
  }

  lemma ExactFirst(exact: Matcher, broad: Matcher)
    requires exact.kind.ExactPath? && !broad.kind.ExactPath?
    ensures Before(exact, broad)
  {
  }

  /** The first match is unique. */
  lemma OneWinner(rules: seq<Matcher>, path: string, a: Matcher, b: Matcher)
    requires Winner(rules, path, a) && Winner(rules, path, b)
    ensures a == b
  {
    KeyOrder(KeyOf(a), KeyOf(b));
  }

  /** How far the acceptance of a layout carries: it is board independent on every path
      if and only if its exact rules agree, each on its own path, with the other board. */
  lemma BoardIndependentIff(rules: seq<Matcher>, boards: Boards)
    requires WellFormedRules(rules) && DistinctKeys(rules) && BoardsKnown(rules, boards) && Scoped(rules, boards)
    ensures BoardIndependent(rules, boards) <==> ExactRulesAgree(rules, boards)
  {
    hide Matcher.Matches, Matcher.WellFormed, Scoped, DistinctKeys, Winner, BoardWinner;
    if BoardIndependent(rules, boards) {
      forall exact, board, own | exact in rules && exact.kind.ExactPath? && board !in boards[KeyOf(exact)]
                                 && BoardWinner(rules, boards, board, exact.value, own)
        ensures own.mode == exact.mode
      {
        ExactMatchesItself(rules, exact);
        ExactRuleWins(rules, exact, exact.value);
      }
    }
    if ExactRulesAgree(rules, boards) {
      forall board, path, winner, own | Winner(rules, path, winner) && BoardWinner(rules, boards, board, path, own)
        ensures winner.mode == own.mode
      {
        if exact :| exact in rules && exact.kind.ExactPath? && exact.Matches(path) {
          ExactRuleWins(rules, exact, path);
          OneWinner(rules, path, winner, exact);
          if board in boards[KeyOf(exact)] {
            OwnExactRuleWins(rules, boards, board, path, exact, own);
          }
        } else {
          BoardIndependence(rules, boards, board, path);
        }
      }
    }
  }

  lemma ExactMatchesItself(rules: seq<Matcher>, exact: Matcher)
    requires WellFormedRules(rules) && exact in rules && exact.kind.ExactPath?
    ensures exact.Matches(exact.value)
  {
  }

  /** A board that an exact rule was made for finds that rule first. */
  lemma OwnExactRuleWins(rules: seq<Matcher>, boards: Boards, board: Board, path: string, exact: Matcher, own: Matcher)
    requires BoardsKnown(rules, boards) && Winner(rules, path, exact) && board in boards[KeyOf(exact)]
    requires BoardWinner(rules, boards, board, path, own)
    ensures own == exact
  {
    KeyOrder(KeyOf(exact), KeyOf(own));
  }

  /** Rejections are real: a rejected pair, taken alone, gives some board another
      mode on some path than the board's own rules would. */
  lemma RejectionIsReal(a: Matcher, b: Matcher, boards: Boards)
    requires a.WellFormed() && b.WellFormed() && KeyOf(a) != KeyOf(b)
    requires BoardsKnown([a, b], boards) && !PairScoped(a, b, boards)
    ensures exists board, path, w, own ::
              && Winner([a, b], path, w) && BoardWinner([a, b], boards, board, path, own)
              && w.mode != own.mode
  {
    hide Overlap, CommonPath, KeyLess, KeyOf, Matcher.Matches;
    assert forall o :: o in [a, b] <==> o == a || o == b;
    KeyOrder(KeyOf(a), KeyOf(b));
    var (w, own) := if Before(b, a) then (b, a) else (a, b);
    var board :| board in boards[KeyOf(own)] && board !in boards[KeyOf(w)];
    var path := CommonPath(a, b);
    CommonPathAccepted(a, b, a);
    CommonPathAccepted(a, b, b);
    assert Winner([a, b], path, w);
    assert BoardWinner([a, b], boards, board, path, own);
  }

  /** The validator never looks at exact rules, so one declared for one board decides
      the path for the other board as well. */
  lemma ExactRuleIsUnchecked(exact: Matcher, broad: Matcher, boards: Boards, path: string)
    requires exact.kind.ExactPath? && !broad.kind.ExactPath? && exact.Matches(path) && broad.Matches(path)
    requires KeyOf(exact) in boards && KeyOf(broad) in boards
    requires boards[KeyOf(exact)] == {Pi4} && boards[KeyOf(broad)] == {Pi5}
    ensures Scoped([exact, broad], boards)
    ensures Winner([exact, broad], path, exact)
    ensures BoardWinner([exact, broad], boards, Pi5, path, broad)
  {
    assert Before(exact, broad);
    hide KeyLess, Overlap, Matcher.Matches, KeyOf, Before;
    var rules := [exact, broad];
    assert forall m | m in rules :: m == exact || m == broad;
    assert exact in rules && broad in rules;
  }

  /** Why the exclusion of exact rules is needed: the validator accepts an exact
      rule of one board that reclassifies the path for the other. */
  lemma ExactRulesAreNotScoped()
    ensures var exact := Matcher(ExactPath, Replace, None, "a", "");
            var broad := Matcher(BasenameExact, Keep, None, "a", "");
            var boards := map[KeyOf(exact) := {Pi4}, KeyOf(broad) := {Pi5}];
            && Scoped([exact, broad], boards)
            && Winner([exact, broad], "a", exact)
            && BoardWinner([exact, broad], boards, Pi5, "a", broad)
            && exact.mode != broad.mode
  {
    BasenameOfName("a");
    var exact := Matcher(ExactPath, Replace, None, "a", "");
    var broad := Matcher(BasenameExact, Keep, None, "a", "");
    assert exact.Matches("a") && broad.Matches("a");
    hide Basename, TopRoot, Scoped, Winner, BoardWinner, Matcher.Matches;
    ExactRuleIsUnchecked(exact, broad, map[KeyOf(exact) := {Pi4}, KeyOf(broad) := {Pi5}], "a");
  }
}
