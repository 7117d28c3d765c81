/** Device path matchers: what one pattern accepts, the order in which patterns
    are tried, and the decision whether two patterns can meet on a path. */
module DeviceMatcher {
  import opened Wrappers
  import opened Strings

  datatype Mode = Config | Kernel | Keep | Metadata | Replace

  datatype Kind = ExactPath | BasenameExact | BasenamePrefixSuffix | BasenameSuffix | TopLevelRoot

  datatype Matcher = Matcher(kind: Kind, mode: Mode, root: Option<string>, value: string, suffix: string)
  {
    /** The shape every matcher built from a layout rule has. */
    predicate WellFormed() {
      && (root.Some? ==> root.value != [] && NoSlash(root.value))
      && match kind
         case ExactPath => root == None && suffix == []
         case TopLevelRoot => root.Some? && value == [] && suffix == []
         case BasenameExact => NoSlash(value) && suffix == []
         case BasenameSuffix => value == [] && NoSlash(suffix)
         case BasenamePrefixSuffix => value != [] && NoSlash(value) && NoSlash(suffix)
    }

    predicate Matches(path: string) {
      && (root.Some? ==> TopRoot(path) == root.value)
      && var basename := Basename(path);
         match kind
         case ExactPath => path == value
         case TopLevelRoot => true
         case BasenameExact => basename == value
         case BasenameSuffix => EndsWith(basename, suffix)
         case BasenamePrefixSuffix => StartsWith(basename, value) && EndsWith(basename, suffix)
    }
  }

  // ------------------------------------------------------------------ order

  /** The identity of a matcher: everything but its mode. */
  datatype Key = Key(kind: Kind, root: string, value: string, suffix: string)

  function KeyOf(m: Matcher): Key {
    Key(m.kind, if m.root.Some? then m.root.value else [], m.value, m.suffix)
  }

  /** Most specific kinds first. */
  function Rank(kind: Kind): nat {
    match kind
    case ExactPath => 0
    case BasenameExact => 1
    case BasenamePrefixSuffix => 2
    case BasenameSuffix => 3
    case TopLevelRoot => 4
  }

  predicate KeyLess(a: Key, b: Key) {
    || Rank(a.kind) < Rank(b.kind)
    || (a.kind == b.kind &&
        (|| Less(a.root, b.root)
         || (a.root == b.root &&
             (|| Less(a.value, b.value)
              || (a.value == b.value && Less(a.suffix, b.suffix))))))
  }

  predicate Before(a: Matcher, b: Matcher) {
    KeyLess(KeyOf(a), KeyOf(b))
  }

  lemma KeyOrder(a: Key, b: Key)
    ensures KeyLess(a, b) || a == b || KeyLess(b, a)
    ensures !(KeyLess(a, b) && KeyLess(b, a))
    ensures !KeyLess(a, a)
  {
    LessTotal(a.root, b.root);
    LessTotal(a.value, b.value);
    LessTotal(a.suffix, b.suffix);
  }

  lemma KeyOrderTransitive(a: Key, b: Key, c: Key)
    requires KeyLess(a, b) && KeyLess(b, c)
    ensures KeyLess(a, c)
  {
    if Less(a.root, b.root) && Less(b.root, c.root) {
      LessTransitive(a.root, b.root, c.root);
    }
    if Less(a.value, b.value) && Less(b.value, c.value) {
      LessTransitive(a.value, b.value, c.value);
    }
    if Less(a.suffix, b.suffix) && Less(b.suffix, c.suffix) {
      LessTransitive(a.suffix, b.suffix, c.suffix);
    }
  }

  /** The more a matcher says about a path, the earlier it is tried: the whole path, then
      the whole name, then both ends of the name, then its end, then only the root. */
  lemma SpecificKindsFirst(a: Matcher, b: Matcher)
    ensures a.kind.ExactPath? && !b.kind.ExactPath? ==> Before(a, b)
    ensures a.kind.BasenameExact? && (b.kind.BasenamePrefixSuffix? || b.kind.BasenameSuffix? || b.kind.TopLevelRoot?) ==>
              Before(a, b)
    ensures a.kind.BasenamePrefixSuffix? && (b.kind.BasenameSuffix? || b.kind.TopLevelRoot?) ==> Before(a, b)
    ensures a.kind.BasenameSuffix? && b.kind.TopLevelRoot? ==> Before(a, b)
  {
  }

  /** Within a kind the texts decide: the root, none counting as empty, then the name or
      its beginning, then its end. */
  lemma TextsDecideWithinKind(a: Matcher, b: Matcher)
    requires a.kind == b.kind
    ensures var rootA := if a.root == None then [] else a.root.value;
            var rootB := if b.root == None then [] else b.root.value;
      Before(a, b) <==> if rootA != rootB then Less(rootA, rootB)
                        else if a.value != b.value then Less(a.value, b.value)
                        else Less(a.suffix, b.suffix)
  {
    LessTotal(KeyOf(a).root, KeyOf(b).root);
    LessTotal(a.value, b.value);
    LessTotal(a.suffix, b.suffix);
  }

  // ---------------------------------------------------------------- overlap

  predicate Comparable(a: string, b: string) {
    StartsWith(a, b) || StartsWith(b, a)
  }

  predicate ComparableEnds(a: string, b: string) {
    EndsWith(a, b) || EndsWith(b, a)
  }

  predicate BasenameMatchersOverlap(a: Matcher, b: Matcher)
    requires !a.kind.ExactPath? && !a.kind.TopLevelRoot?
    requires !b.kind.ExactPath? && !b.kind.TopLevelRoot?
  {
    if a.kind.BasenameExact? then
      if b.kind.BasenameExact? then a.value == b.value
      else StartsWith(a.value, b.value) && EndsWith(a.value, b.suffix)
    else if b.kind.BasenameExact? then
      StartsWith(b.value, a.value) && EndsWith(b.value, a.suffix)
    else
      Comparable(a.value, b.value) && ComparableEnds(a.suffix, b.suffix)
  }

  /** The decision procedure. */
  predicate Overlap(a: Matcher, b: Matcher) {
    if a.kind.ExactPath? then b.Matches(a.value)
    else if b.kind.ExactPath? then a.Matches(b.value)
    else if a.root.Some? && b.root.Some? && a.root != b.root then false
    else if a.kind.TopLevelRoot? || b.kind.TopLevelRoot? then true
    else BasenameMatchersOverlap(a, b)
  }

  function Longer(a: string, b: string): string {
    if |a| >= |b| then a else b
  }

  /** A basename accepted by both basename patterns of an overlapping pair. */
  function CommonName(a: Matcher, b: Matcher): string {
    if a.kind.BasenameExact? then a.value
    else if b.kind.BasenameExact? then b.value
    else
      Longer(a.value, b.value) + Longer(a.suffix, b.suffix)
  }

  /** A path on which an overlapping pair meets. */
  function CommonPath(a: Matcher, b: Matcher): string {
    if a.kind.ExactPath? then a.value
    else if b.kind.ExactPath? then b.value
    else
      var name := CommonName(a, b);
      if a.root.Some? then a.root.value + "/" + name
      else if b.root.Some? then b.root.value + "/" + name
      else name
  }

  lemma PrefixesOfOne(s: string, a: string, b: string)
    requires StartsWith(s, a) && StartsWith(s, b)
    ensures Comparable(a, b)
  {
  }

  lemma SuffixesOfOne(s: string, a: string, b: string)
    requires EndsWith(s, a) && EndsWith(s, b)
    ensures ComparableEnds(a, b)
  {
    if |a| >= |b| {
      assert a[|a| - |b|..] == s[|s| - |a|..][|a| - |b|..];
    } else {
      assert b[|b| - |a|..] == s[|s| - |b|..][|b| - |a|..];
    }
  }

  /** Both ends of a concatenation that is long enough on each side. */
  lemma JoinEnds(p: string, s: string, prefix: string, suffix: string)
    requires StartsWith(p, prefix) && EndsWith(s, suffix)
    ensures StartsWith(p + s, prefix) && EndsWith(p + s, suffix)
  {
    assert (p + s)[|p + s| - |suffix|..] == s[|s| - |suffix|..];
  }

  predicate BasenamePattern(m: Matcher) { m.kind.BasenameSuffix? || m.kind.BasenamePrefixSuffix? }

  /** One of the pair names the basename outright. */
  lemma ExactNameAccepted(a: Matcher, b: Matcher, m: Matcher)
    requires a.WellFormed() && b.WellFormed() && Overlap(a, b) && (m == a || m == b)
    requires !a.kind.ExactPath? && !b.kind.ExactPath? && (a.kind.BasenameExact? || b.kind.BasenameExact?)
    ensures NoSlash(CommonName(a, b))
    ensures m.kind.BasenameExact? ==> CommonName(a, b) == m.value
    ensures BasenamePattern(m) ==> StartsWith(CommonName(a, b), m.value) && EndsWith(CommonName(a, b), m.suffix)
  {
    hide StartsWith, EndsWith, NoSlash;
  }

  lemma LongerPrefix(a: string, b: string)
    requires Comparable(a, b)
    ensures StartsWith(Longer(a, b), a) && StartsWith(Longer(a, b), b)
  {
  }

  lemma LongerSuffix(a: string, b: string)
    requires ComparableEnds(a, b)
    ensures EndsWith(Longer(a, b), a) && EndsWith(Longer(a, b), b)
  {
  }

  lemma EmptyEnds(s: string)
    ensures Comparable([], s) && Comparable(s, []) && ComparableEnds([], s) && ComparableEnds(s, [])
  {
  }

  lemma NoSlashJoin(p: string, s: string)
    requires NoSlash(p) && NoSlash(s)
    ensures NoSlash(p + s)
  {
  }

  /** The longer prefix and the longer suffix make a name that has all four ends. */
  lemma JoinLongest(p: string, q: string, s: string, t: string)
    requires NoSlash(p) && NoSlash(q) && NoSlash(s) && NoSlash(t) && Comparable(p, q) && ComparableEnds(s, t)
    ensures var name := Longer(p, q) + Longer(s, t);
      NoSlash(name) && StartsWith(name, p) && StartsWith(name, q) && EndsWith(name, s) && EndsWith(name, t)
  {
    hide StartsWith, EndsWith, NoSlash, Comparable, ComparableEnds;
    LongerPrefix(p, q);
    LongerSuffix(s, t);
    JoinEnds(Longer(p, q), Longer(s, t), p, s);
    JoinEnds(Longer(p, q), Longer(s, t), q, t);
    NoSlashJoin(Longer(p, q), Longer(s, t));
  }

  lemma NoNameOutright(a: Matcher, b: Matcher)
    requires a.WellFormed() && b.WellFormed() && Overlap(a, b)
    requires !a.kind.ExactPath? && !b.kind.ExactPath? && !a.kind.BasenameExact? && !b.kind.BasenameExact?
    ensures NoSlash(a.value) && NoSlash(b.value) && NoSlash(a.suffix) && NoSlash(b.suffix)
    ensures Comparable(a.value, b.value) && ComparableEnds(a.suffix, b.suffix)
  {
    EmptyEnds(a.value);
    EmptyEnds(b.value);
    EmptyEnds(a.suffix);
    EmptyEnds(b.suffix);
    hide StartsWith, EndsWith, Comparable, ComparableEnds;
  }

  /** Neither of the pair names the basename outright. */
  lemma JoinedNameAccepted(a: Matcher, b: Matcher)
    requires a.WellFormed() && b.WellFormed() && Overlap(a, b)
    requires !a.kind.ExactPath? && !b.kind.ExactPath? && !a.kind.BasenameExact? && !b.kind.BasenameExact?
    ensures NoSlash(CommonName(a, b))
    ensures StartsWith(CommonName(a, b), a.value) && EndsWith(CommonName(a, b), a.suffix)
    ensures StartsWith(CommonName(a, b), b.value) && EndsWith(CommonName(a, b), b.suffix)
  {
    hide StartsWith, EndsWith, NoSlash, Comparable, ComparableEnds, Overlap;
    NoNameOutright(a, b);
    JoinLongest(a.value, b.value, a.suffix, b.suffix);
  }

  lemma CommonNameAccepted(a: Matcher, b: Matcher, m: Matcher)
    requires a.WellFormed() && b.WellFormed() && Overlap(a, b) && (m == a || m == b)
    requires !a.kind.ExactPath? && !b.kind.ExactPath?
    ensures NoSlash(CommonName(a, b))
    ensures m.kind.BasenameExact? ==> CommonName(a, b) == m.value
    ensures BasenamePattern(m) ==> StartsWith(CommonName(a, b), m.value) && EndsWith(CommonName(a, b), m.suffix)
  {
    hide StartsWith, EndsWith, NoSlash, Overlap, CommonName;
    if a.kind.BasenameExact? || b.kind.BasenameExact? {
      ExactNameAccepted(a, b, m);
    } else {
      JoinedNameAccepted(a, b);
    }
  }

  lemma CommonPathAccepted(a: Matcher, b: Matcher, m: Matcher)
    requires a.WellFormed() && b.WellFormed() && Overlap(a, b) && (m == a || m == b)
    ensures m.Matches(CommonPath(a, b))
  {
    if !a.kind.ExactPath? && !b.kind.ExactPath? {
      CommonNameAccepted(a, b, m);
      var name := CommonName(a, b);
      if a.root.Some? || b.root.Some? {
        var root := if a.root.Some? then a.root.value else b.root.value;
        RootOfJoin(root, name);
        BasenameOfJoin(root, name);
      } else {
        BasenameOfName(name);
      }
    }
  }

  /** The decision is exact: two matchers overlap if and only if some path is
      accepted by both, over all paths, roots, prefixes and suffixes. */
  lemma OverlapIsExact(a: Matcher, b: Matcher)
    requires a.WellFormed() && b.WellFormed()
    ensures Overlap(a, b) <==> exists path :: a.Matches(path) && b.Matches(path)
  {
    if Overlap(a, b) {
      CommonPathAccepted(a, b, a);
      CommonPathAccepted(a, b, b);
      assert a.Matches(CommonPath(a, b)) && b.Matches(CommonPath(a, b));
    }
    forall path | a.Matches(path) && b.Matches(path)
      ensures Overlap(a, b)
    {
      MeetingMeansOverlap(a, b, path);
    }
  }

  lemma MeetingMeansOverlap(a: Matcher, b: Matcher, path: string)
    requires a.WellFormed() && b.WellFormed()
    requires a.Matches(path) && b.Matches(path)
    ensures Overlap(a, b)
  {
    var name := Basename(path);
    if !a.kind.ExactPath? && !b.kind.ExactPath? && !a.kind.TopLevelRoot? && !b.kind.TopLevelRoot? {
      if !a.kind.BasenameExact? && !b.kind.BasenameExact? {
        PrefixesOfOne(name, a.value, b.value);
        SuffixesOfOne(name, a.suffix, b.suffix);
      }
    }
  }

  lemma OverlapIsSymmetric(a: Matcher, b: Matcher)
    requires a.WellFormed() && b.WellFormed()
    ensures Overlap(a, b) == Overlap(b, a)
  {
    OverlapIsExact(a, b);
    OverlapIsExact(b, a);
    if exists path :: a.Matches(path) && b.Matches(path) {
      var path :| a.Matches(path) && b.Matches(path);
      assert b.Matches(path) && a.Matches(path);
    }
    if exists path :: b.Matches(path) && a.Matches(path) {
      var path :| b.Matches(path) && a.Matches(path);
      assert a.Matches(path) && b.Matches(path);
    }
  }

  // --------------------------------------------------------------- patterns

  /** The single-star pattern `prefix*suffix` in the usual sense: the two parts
      do not share characters of the name. */
  predicate Glob(prefix: string, suffix: string, name: string) {
    |prefix| + |suffix| <= |name| && StartsWith(name, prefix) && EndsWith(name, suffix)
  }

  function StarMatcher(prefix: string, suffix: string, root: Option<string>, mode: Mode): Matcher {
    Matcher(if prefix == [] then BasenameSuffix else BasenamePrefixSuffix, mode, root, prefix, suffix)
  }

  /** A nonempty end of the prefix is also the beginning of the suffix. */
  ghost predicate Interlock(prefix: string, suffix: string) {
    exists k | 0 < k <= |prefix| && k <= |suffix| :: prefix[|prefix| - k..] == suffix[..k]
  }

  /** The pattern in the usual sense, under its root directory if it has one. */
  predicate GlobMatches(prefix: string, suffix: string, root: Option<string>, path: string) {
    (root.Some? ==> TopRoot(path) == root.value) && Glob(prefix, suffix, Basename(path))
  }

  /** A star pattern means what its glob means, on every path, if and only if no
      nonempty end of its prefix is the beginning of its suffix. */
  lemma StarIsGlobIff(prefix: string, suffix: string, root: Option<string>, mode: Mode)
    requires NoSlash(prefix) && NoSlash(suffix) && (root.Some? ==> NoSlash(root.value))
    ensures (forall path :: StarMatcher(prefix, suffix, root, mode).Matches(path) <==> GlobMatches(prefix, suffix, root, path))
            <==> !Interlock(prefix, suffix)
  {
    if Interlock(prefix, suffix) {
      var k :| 0 < k <= |prefix| && k <= |suffix| && prefix[|prefix| - k..] == suffix[..k];
      InterlockedNameAccepted(prefix, suffix, k, root, mode);
    } else {
      forall path
        ensures StarMatcher(prefix, suffix, root, mode).Matches(path) <==> GlobMatches(prefix, suffix, root, path)
      {
        var name := Basename(path);
        if StartsWith(name, prefix) && EndsWith(name, suffix) && |name| < |prefix| + |suffix| {
          ShortNameInterlocks(prefix, suffix, name);
        }
      }
    }
  }

  /** A name that has both ends but is too short to hold them side by side. */
  lemma ShortNameInterlocks(prefix: string, suffix: string, name: string)
    requires StartsWith(name, prefix) && EndsWith(name, suffix) && |name| < |prefix| + |suffix|
    ensures Interlock(prefix, suffix)
  {
    var k := |prefix| + |suffix| - |name|;
    assert prefix[|prefix| - k..] == name[|name| - |suffix|..|prefix|] == suffix[..k];
  }

  lemma InterlockedName(prefix: string, suffix: string, k: nat)
    requires 0 < k <= |prefix| && k <= |suffix| && prefix[|prefix| - k..] == suffix[..k]
    ensures var name := prefix + suffix[k..];
            StartsWith(name, prefix) && EndsWith(name, suffix) && |name| < |prefix| + |suffix|
  {
    var name := prefix + suffix[k..];
    assert name[|name| - |suffix|..] == prefix[|prefix| - k..] + suffix[k..] == suffix[..k] + suffix[k..];
    assert suffix[..k] + suffix[k..] == suffix;
  }

  /** The name that prefix and suffix make by sharing `k` characters is accepted. */
  lemma InterlockedNameAccepted(prefix: string, suffix: string, k: nat, root: Option<string>, mode: Mode)
    requires NoSlash(prefix) && NoSlash(suffix) && (root.Some? ==> NoSlash(root.value))
    requires 0 < k <= |prefix| && k <= |suffix| && prefix[|prefix| - k..] == suffix[..k]
    ensures exists path :: StarMatcher(prefix, suffix, root, mode).Matches(path) && !GlobMatches(prefix, suffix, root, path)
  {
    var name := prefix + suffix[k..];
    NoSlashJoin(prefix, suffix[k..]);
    InterlockedName(prefix, suffix, k);
    assert prefix != [];
    hide StartsWith, EndsWith, NoSlash, TopRoot, Basename;
    if root.Some? {
      RootOfJoin(root.value, name);
      BasenameOfJoin(root.value, name);
      assert StarMatcher(prefix, suffix, root, mode).Matches(root.value + "/" + name);
      assert !GlobMatches(prefix, suffix, root, root.value + "/" + name);
    } else {
      BasenameOfName(name);
      assert StarMatcher(prefix, suffix, root, mode).Matches(name);
      assert !GlobMatches(prefix, suffix, root, name);
    }
  }

  /** The difference is real: `ab*b` accepts the file `ab`. */
  lemma StarIsNotGlob()
    ensures StarMatcher("ab", "b", None, Keep).Matches("ab") && !Glob("ab", "b", Basename("ab"))
  {
    BasenameOfName("ab");
  }
}
