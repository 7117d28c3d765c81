/** What the projection of an accepted layout answers, said of the rules as they are
    written: their targets, patterns and modes. */
module DeviceMeaning {
  import opened Wrappers
  import opened Strings
  import opened DeviceMatcher
  import opened DevicePolicy
  import opened DeviceProjection

  // ----------------------------------------------------------- single rules

  /** The name has the pattern's beginning and end, or is the pattern if it has no star. */
  ghost predicate NameMatches(pattern: string, name: string) {
    if '*' !in pattern then name == pattern
    else exists i | 0 <= i < |pattern| && pattern[i] == '*' ::
           StartsWith(name, pattern[..i]) && EndsWith(name, pattern[i + 1..])
  }

  /** The target matcher can represent the pattern. */
  ghost predicate Representable(pattern: string) {
    && '/' !in pattern && '?' !in pattern
    && forall i, j | 0 <= i < j < |pattern| :: !(pattern[i] == '*' && pattern[j] == '*')
  }

  /** The patterns that a rule writes for names of files, and whether it does. */
  function NamePatterns(rule: Rule): (ps: seq<string>)
    requires rule.Valid()
  {
    if rule.kind.Tree? then rule.patterns
    else if "**/" <= rule.target then [rule.target[3..]]
    else if '*' in rule.target || '?' in rule.target then [rule.target]
    else []
  }

  /** The rule is meant to decide about the path. */
  ghost predicate RuleAccepts(rule: Rule, path: string)
    requires rule.Valid() && !rule.kind.Directory?
  {
    var ps := NamePatterns(rule);
    var named := exists p | p in ps :: NameMatches(p, Basename(path));
    if rule.kind.Tree? then
      && (path == TopRoot(rule.target) || TopRoot(rule.target) + "/" <= path)
      && (ps == [] || named)
    else if ps == [] then path == rule.target
    else named
  }

  lemma {:induction false} OneStarAtMost(s: string)
    ensures CountStars(s) == 0 <==> '*' !in s
    ensures CountStars(s) <= 1 <==> forall i, j | 0 <= i < j < |s| :: !(s[i] == '*' && s[j] == '*')
  {
    if s != [] {
      OneStarAtMost(s[1..]);
      assert forall i | 0 < i < |s| :: s[i] == s[1..][i - 1];
      if CountStars(s) <= 1 && s[0] == '*' {
        assert forall j | 0 < j < |s| :: s[j] in s[1..];
      }
      if s[0] == '*' && '*' in s[1..] {
        var j :| 0 <= j < |s[1..]| && s[1..][j] == '*';
        assert s[0] == '*' && s[j + 1] == '*';
      }
      if !(forall i, j | 0 <= i < j < |s[1..]| :: !(s[1..][i] == '*' && s[1..][j] == '*')) {
        var i, j :| 0 <= i < j < |s[1..]| && s[1..][i] == '*' && s[1..][j] == '*';
        assert s[i + 1] == '*' && s[j + 1] == '*';
      }
    }
  }

  lemma {:induction false} BeforeStarIsAll(s: string)
    requires '*' !in s
    ensures BeforeStar(s) == s
  {
    if s != [] {
      BeforeStarIsAll(s[1..]);
    }
  }

  /** A pattern with one star is cut there. */
  lemma CutAtStar(pattern: string)
    requires '*' in pattern && Representable(pattern)
    ensures var at := |BeforeStar(pattern)|;
      at < |pattern| && pattern[..at] == BeforeStar(pattern)
      && forall i | 0 <= i < |pattern| :: pattern[i] == '*' <==> i == at
  {
    assert BeforeStar(pattern) == pattern ==> '*' !in pattern;
  }

  lemma StarMeaning(pattern: string, name: string)
    requires '*' in pattern && Representable(pattern)
    ensures var prefix := BeforeStar(pattern);
      NameMatches(pattern, name) <==> StartsWith(name, prefix) && EndsWith(name, pattern[|prefix| + 1..])
  {
    CutAtStar(pattern);
    hide Representable, StartsWith, EndsWith, BeforeStar;
    var at := |BeforeStar(pattern)|;
    if StartsWith(name, pattern[..at]) && EndsWith(name, pattern[at + 1..]) {
      assert pattern[at] == '*';
    }
  }

  /** What a pattern for names accepts, under a root directory or anywhere. */
  lemma PatternMeaning(pattern: string, root: Option<string>, mode: Mode, path: string)
    requires root.Some? ==> root.value != [] && NoSlash(root.value)
    ensures DevicePattern(pattern, root, mode).Some? <==> Representable(pattern)
    ensures Representable(pattern) ==>
              (DevicePattern(pattern, root, mode).value.Matches(path) <==>
               (root.Some? ==> TopRoot(path) == root.value) && NameMatches(pattern, Basename(path)))
  {
    OneStarAtMost(pattern);
    if Representable(pattern) && '*' in pattern {
      StarMeaning(pattern, Basename(path));
      hide NameMatches;
    }
    hide TopRoot, Basename, CountStars, BeforeStar, StartsWith, EndsWith;
  }

  /** A path is under a root, or is it, exactly if its first part is the root. */
  lemma RootOfPath(root: string, path: string)
    requires NoSlash(root)
    ensures TopRoot(path) == root <==> path == root || root + "/" <= path
  {
    if root + "/" <= path {
      RootOfJoin(root, path[|root| + 1..]);
      assert path == root + "/" + path[|root| + 1..];
    }
    if path == root {
      RootOfAll(path);
    }
    if TopRoot(path) == root && path != root {
      assert path[..|root| + 1] == root + "/";
    }
  }

  lemma {:induction false} RootOfAll(s: string)
    requires NoSlash(s)
    ensures TopRoot(s) == s
  {
    if s != [] {
      RootOfAll(s[1..]);
    }
  }

  lemma {:induction false} TreePatternsMeaning(patterns: seq<string>, root: string, mode: Mode, path: string)
    requires root != [] && NoSlash(root)
    ensures var ms := TreePatterns(patterns, root, mode);
      && (ms.Some? <==> forall p | p in patterns :: Representable(p))
      && (ms.Some? ==> ((exists m :: m in ms.value && m.Matches(path)) <==>
                        TopRoot(path) == root && exists p | p in patterns :: NameMatches(p, Basename(path))))
  {
    hide NameMatches, Representable, Matcher.Matches, DevicePattern, TopRoot, Basename;
    if patterns != [] {
      var n := |patterns| - 1;
      TreePatternsMeaning(patterns[..n], root, mode, path);
      PatternMeaning(patterns[n], Some(root), mode, path);
      assert forall p :: p in patterns <==> p in patterns[..n] || p == patterns[n];
      var ms := TreePatterns(patterns, root, mode);
      if ms.Some? {
        var before := TreePatterns(patterns[..n], root, mode).value;
        var last := DevicePattern(patterns[n], Some(root), mode).value;
        assert ms.value == before + [last];
        assert forall m :: m in ms.value <==> m in before || m == last;
      }
    }
  }

  lemma FileMeaning(rule: Rule, path: string)
    requires rule.Valid() && rule.kind.File?
    ensures var ms := DeviceMatchers(rule);
      && (ms.Some? <==> forall p | p in NamePatterns(rule) :: Representable(p))
      && (ms.Some? ==> ((exists m :: m in ms.value && m.Matches(path)) <==> RuleAccepts(rule, path)))
      && (ms.Some? ==> forall m | m in ms.value :: m.mode == rule.mode)
  {
    hide NameMatches, Representable, DevicePattern, TopRoot, Basename;
    var ps := NamePatterns(rule);
    if ps != [] {
      assert ps == [ps[0]];
      PatternMeaning(ps[0], None, rule.mode, path);
      var m := DevicePattern(ps[0], None, rule.mode);
      assert DeviceMatchers(rule) == One(m);
      hide DeviceMatchers, NamePatterns, Matcher.Matches;
      if m.Some? {
        assert m.value in One(m).value && forall o | o in One(m).value :: o == m.value;
      }
      assert NameMatches(ps[0], Basename(path)) <==> exists p | p in ps :: NameMatches(p, Basename(path));
    } else {
      var m := Matcher(ExactPath, rule.mode, None, rule.target, []);
      assert DeviceMatchers(rule) == Some([m]) && m in [m];
    }
  }

  /** The matchers of a rule accept exactly the paths that the rule is meant for, with the
      rule's mode; there are none exactly if a pattern cannot be represented. */
  lemma RuleMeaning(rule: Rule, path: string)
    requires rule.Valid() && !rule.kind.Directory?
    ensures var ms := DeviceMatchers(rule);
      && (ms.Some? <==> forall p | p in NamePatterns(rule) :: Representable(p))
      && (ms.Some? ==> ((exists m :: m in ms.value && m.Matches(path)) <==> RuleAccepts(rule, path)))
      && (ms.Some? ==> forall m | m in ms.value :: m.mode == rule.mode)
  {
    hide NameMatches, Representable, DevicePattern, TopRoot, Basename;
    if rule.kind.Tree? {
      var top := Matcher(TopLevelRoot, rule.mode, Some(TopRoot(rule.target)), [], []);
      assert top in [top];
      TreePatternsMeaning(rule.patterns, TopRoot(rule.target), rule.mode, path);
      RootOfPath(TopRoot(rule.target), path);
      if TreePatterns(rule.patterns, TopRoot(rule.target), rule.mode).Some? {
        TreePatternsMode(rule.patterns, TopRoot(rule.target), rule.mode);
      }
    } else {
      FileMeaning(rule, path);
    }
  }

  lemma {:induction false} TreePatternsMode(patterns: seq<string>, root: string, mode: Mode)
    requires root != [] && NoSlash(root) && TreePatterns(patterns, root, mode).Some?
    ensures forall m | m in TreePatterns(patterns, root, mode).value :: m.mode == mode
  {
    hide DevicePattern;
    if patterns != [] {
      TreePatternsMode(patterns[..|patterns| - 1], root, mode);
    }
  }

  // ----------------------------------------------------------- whole layouts

  /** Rules for directories and kernels say nothing about the projection. */
  ghost predicate Speaks(rule: Rule) {
    (rule.kind.File? || rule.kind.Tree?) && rule.mode != Kernel
  }

  /** The declarations are the matchers of the rules that speak, for the boards of each. */
  lemma {:induction false} DeclaredMeaning(rules: seq<Rule>)
    requires forall r | r in rules :: r.Valid()
    ensures Declared(rules).Some? <==> forall r | r in rules && Speaks(r) :: DeviceMatchers(r).Some?
    ensures Declared(rules).Some? ==>
              forall d :: d in Declared(rules).value <==>
                exists r, m :: r in rules && Speaks(r) && m in DeviceMatchers(r).value && d == Declaration(m, r.boards)
  {
    hide DeviceMatchers;
    if rules != [] {
      var n := |rules| - 1;
      DeclaredMeaning(rules[..n]);
      assert forall r :: r in rules <==> r in rules[..n] || r == rules[n];
      if Declared(rules).Some? && Speaks(rules[n]) {
        LabelMeaning(DeviceMatchers(rules[n]).value, rules[n].boards);
      }
    }
  }

  lemma LabelMeaning(ms: seq<Matcher>, boards: set<Board>)
    ensures forall d :: d in Label(ms, boards) <==> exists m :: m in ms && d == Declaration(m, boards)
  {
    forall d | exists m :: m in ms && d == Declaration(m, boards)
      ensures d in Label(ms, boards)
    {
      var m :| m in ms && d == Declaration(m, boards);
      var i :| 0 <= i < |ms| && ms[i] == m;
      assert Label(ms, boards)[i] == d;
    }
  }

  /** The rule of a declared matcher. */
  lemma DeclaredRule(rules: seq<Rule>, d: Declaration, path: string) returns (r: Rule)
    requires forall r | r in rules :: r.Valid()
    requires Declared(rules).Some? && d in Declared(rules).value && d.matcher.Matches(path)
    ensures r in rules && Speaks(r) && RuleAccepts(r, path) && r.mode == d.matcher.mode
  {
    hide DeviceMatchers, Declared, RuleAccepts, Matcher.Matches;
    DeclaredMeaning(rules);
    var m: Matcher;
    r, m :| r in rules && Speaks(r) && m in DeviceMatchers(r).value && d == Declaration(m, r.boards);
    RuleMeaning(r, path);
  }

  lemma RuleDeclares(rules: seq<Rule>, r: Rule, path: string) returns (d: Declaration)
    requires forall r | r in rules :: r.Valid()
    requires Declared(rules).Some? && r in rules && Speaks(r) && RuleAccepts(r, path)
    ensures d in Declared(rules).value && d.matcher.Matches(path) && d.matcher.mode == r.mode
  {
    hide DeviceMatchers, Declared, RuleAccepts, Matcher.Matches;
    DeclaredMeaning(rules);
    RuleMeaning(r, path);
    var m :| m in DeviceMatchers(r).value && m.Matches(path);
    d := Declaration(m, r.boards);
  }

  /** The first kind is one that is tried no later than the second. */
  predicate NoLater(a: Kind, b: Kind) {
    match b
    case ExactPath => a.ExactPath?
    case BasenameExact => a.ExactPath? || a.BasenameExact?
    case BasenamePrefixSuffix => !a.BasenameSuffix? && !a.TopLevelRoot?
    case BasenameSuffix => !a.TopLevelRoot?
    case TopLevelRoot => true
  }

  /** Nothing exactly if no rule accepts the path; otherwise the mode of a rule that does,
      by way of a declared matcher such that none of a more specific kind accepts it. */
  ghost predicate RightAnswer(rules: seq<Rule>, path: string, answer: Option<Mode>)
    requires (forall r | r in rules :: r.Valid()) && Declared(rules).Some?
  {
    && (answer == None <==> forall r | r in rules && Speaks(r) :: !RuleAccepts(r, path))
    && (answer.Some? ==>
          && (exists r :: r in rules && Speaks(r) && RuleAccepts(r, path) && answer == Some(r.mode))
          && exists w :: w in Declared(rules).value && w.matcher.Matches(path) && answer == Some(w.matcher.mode)
                         && forall d | d in Declared(rules).value && d.matcher.Matches(path) ::
                              NoLater(w.matcher.kind, d.matcher.kind))
  }

  /** The document of an accepted layout gives the right answer for every path. */
  lemma DocumentMeaning(rules: seq<Rule>, path: string)
    requires forall r | r in rules :: r.Valid()
    requires Acceptable(rules)
    ensures forall document | Decides(document, Declared(rules).value, path) ::
              RightAnswer(rules, path, Lookup(document, path))
  {
    var ds := Declared(rules).value;
    hide RuleAccepts, Matcher.Matches, Declared, Lookup, Before;
    forall document | Decides(document, ds, path)
      ensures RightAnswer(rules, path, Lookup(document, path))
    {
      if Lookup(document, path).Some? {
        FirstExists(ds, path);
        var w :| w in ds && First(ds, path, w.matcher);
        var r := DeclaredRule(rules, w, path);
        forall d | d in ds && d.matcher.Matches(path)
          ensures NoLater(w.matcher.kind, d.matcher.kind)
        {
          FirstIsNoLater(w.matcher, d.matcher);
        }
      } else if r :| r in rules && Speaks(r) && RuleAccepts(r, path) {
        var d := RuleDeclares(rules, r, path);
        assert false;
      }
    }
  }

  lemma FirstIsNoLater(first: Matcher, m: Matcher)
    requires first == m || Before(first, m)
    ensures NoLater(first.kind, m.kind)
  {
    SpecificKindsFirst(m, first);
    KeyOrder(KeyOf(first), KeyOf(m));
  }

  /** A rule for all names with an ending overrides the rule for the tree they lie in:
      machine files stay, but those with that ending are replaced. */
  lemma EndingOverridesTree(boards: set<Board>, tree: string, ending: string, path: string)
    requires tree != [] && NoSlash(tree) && ending != [] && Representable("*" + ending) && tree + "/" <= path
    ensures var rules := [Rule(Tree, boards, Keep, tree, []), Rule(File, boards, Replace, "**/*" + ending, [])];
      && Declared(rules).Some?
      && forall document | Decides(document, Declared(rules).value, path) ::
           Lookup(document, path) == Some(if EndsWith(Basename(path), ending) then Replace else Keep)
  {
    EndingRules(boards, tree, ending);
    hide Declared, DeviceMatchers;
    var top := Declaration(Matcher(TopLevelRoot, Keep, Some(tree), [], []), boards);
    var end := Declaration(Matcher(BasenameSuffix, Replace, None, [], ending), boards);
    RootOfPath(tree, path);
    assert top.matcher.Matches(path) && end.matcher.Matches(path) == EndsWith(Basename(path), ending);
    SpecificKindsFirst(end.matcher, top.matcher);
    hide Before, Matcher.Matches, Decides, Representable, Basename, EndsWith;
    forall document | Decides(document, [top, end], path)
      ensures Lookup(document, path) == Some(if end.matcher.Matches(path) then Replace else Keep)
    {
      FirstOfTwo(document, end, top, path);
    }
  }

  lemma FirstOfTwo(document: seq<Matcher>, a: Declaration, b: Declaration, path: string)
    requires Decides(document, [b, a], path) && Before(a.matcher, b.matcher) && b.matcher.Matches(path)
    ensures Lookup(document, path) == Some(if a.matcher.Matches(path) then a.matcher.mode else b.matcher.mode)
  {
    hide Before, Matcher.Matches, Lookup;
    var ds := [b, a];
    assert a in ds && b in ds && forall d | d in ds :: d == a || d == b;
    if a.matcher.Matches(path) {
      assert First(ds, path, a.matcher);
    } else {
      assert First(ds, path, b.matcher);
    }
  }

  lemma EndingRules(boards: set<Board>, tree: string, ending: string)
    requires tree != [] && NoSlash(tree) && ending != [] && Representable("*" + ending)
    ensures Declared([Rule(Tree, boards, Keep, tree, []), Rule(File, boards, Replace, "**/*" + ending, [])])
         == Some([Declaration(Matcher(TopLevelRoot, Keep, Some(tree), [], []), boards),
                  Declaration(Matcher(BasenameSuffix, Replace, None, [], ending), boards)])
  {
    var first, second := Rule(Tree, boards, Keep, tree, []), Rule(File, boards, Replace, "**/*" + ending, []);
    RootOfAll(tree);
    assert DeviceMatchers(first) == Some([Matcher(TopLevelRoot, Keep, Some(tree), [], [])]);
    var pattern := "*" + ending;
    assert second.target[..3] == "**/" && second.target[3..] == pattern;
    OneStarAtMost(pattern);
    assert pattern[0] == '*' && BeforeStar(pattern) == [] && pattern[1..] == ending;
    assert DevicePattern(pattern, None, Replace) == Some(Matcher(BasenameSuffix, Replace, None, [], ending));
    assert [first, second][..1] == [first] && [first][..0] == [];
    var top, end := Matcher(TopLevelRoot, Keep, Some(tree), [], []), Matcher(BasenameSuffix, Replace, None, [], ending);
    assert Label([top], boards) == [Declaration(top, boards)] && Label([end], boards) == [Declaration(end, boards)];
    hide DeviceMatchers;
    var rules := [first, second];
    assert rules[..0] == [] && rules[..1] == [first] && rules[..2] == rules;
    DeclaredNext(rules, 0);
    DeclaredNext(rules, 1);
    assert ([] + [Declaration(top, boards)]) + [Declaration(end, boards)] == [Declaration(top, boards), Declaration(end, boards)];
  }
}
