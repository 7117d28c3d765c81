/** Text as Python compares and splits it: code-point order, prefixes, suffixes,
    the part before the first slash and the part after the last one. */
module Strings {

  predicate StartsWith(s: string, prefix: string) {
    prefix <= s
  }

  predicate EndsWith(s: string, suffix: string) {
    |suffix| <= |s| && s[|s| - |suffix|..] == suffix
  }

  predicate NoSlash(s: string) {
    '/' !in s
  }

  /** `path.split("/", 1)[0]`: everything before the first slash. */
  function TopRoot(path: string): (r: string)
    ensures NoSlash(r) && r <= path
    ensures r == path || path[|r|] == '/'
  {
    if path == [] || path[0] == '/' then []
    else [path[0]] + TopRoot(path[1..])
  }

  /** `path.rsplit("/", 1)[-1]`: everything after the last slash. */
  function Basename(path: string): (r: string)
    ensures NoSlash(r) && EndsWith(path, r)
    ensures r == path || path[|path| - |r| - 1] == '/'
  {
    if path == [] || path[|path| - 1] == '/' then []
    else Basename(path[..|path| - 1]) + [path[|path| - 1]]
  }

  /** A path with one slash splits at that slash. */
  lemma {:induction false} RootOfJoin(root: string, name: string)
    requires NoSlash(root)
    ensures TopRoot(root + "/" + name) == root
  {
    var path := root + "/" + name;
    if root != [] {
      RootOfJoin(root[1..], name);
      assert path[1..] == root[1..] + "/" + name;
    }
  }

  lemma {:induction false} BasenameOfJoin(root: string, name: string)
    requires NoSlash(name)
    ensures Basename(root + "/" + name) == name
  {
    var path := root + "/" + name;
    if name != [] {
      var n := |name| - 1;
      BasenameOfJoin(root, name[..n]);
      assert path[..|path| - 1] == root + "/" + name[..n];
    }
  }

  lemma {:induction false} BasenameOfName(name: string)
    requires NoSlash(name)
    ensures Basename(name) == name
  {
    if name != [] {
      BasenameOfName(name[..|name| - 1]);
    }
  }

  // ------------------------------------------------------------------ order

  predicate Less(a: string, b: string) {
    b != [] && (a == [] || a[0] < b[0] || (a[0] == b[0] && Less(a[1..], b[1..])))
  }

  lemma {:induction false} LessTotal(a: string, b: string)
    ensures Less(a, b) || a == b || Less(b, a)
    ensures !(Less(a, b) && Less(b, a))
    ensures !Less(a, a)
  {
    if a != [] && b != [] {
      LessTotal(a[1..], b[1..]);
      if a[0] == b[0] && a[1..] == b[1..] {
        assert a == [a[0]] + a[1..];
        assert b == [b[0]] + b[1..];
      }
    } else if a != [] {
      LessTotal(a[1..], a[1..]);
    }
  }

  /** The order is that of dictionaries: the first difference decides, and a beginning of
      a text comes before it. */
  lemma {:induction false} LessAtDifference(common: string, a: char, b: char, rest: string, rest': string)
    ensures Less(common + [a] + rest, common + [b] + rest') <==> a < b || (a == b && Less(rest, rest'))
    ensures Less(common, common + [b] + rest') && !Less(common + [b] + rest', common)
  {
    var s, t := common + [a] + rest, common + [b] + rest';
    if common == [] {
      assert s[0] == a && s[1..] == rest && t[0] == b && t[1..] == rest';
    } else {
      LessAtDifference(common[1..], a, b, rest, rest');
      assert s[1..] == common[1..] + [a] + rest && t[1..] == common[1..] + [b] + rest';
    }
  }

  lemma {:induction false} LessTransitive(a: string, b: string, c: string)
    requires Less(a, b) && Less(b, c)
    ensures Less(a, c)
  {
    if a != [] && a[0] == b[0] && b[0] == c[0] {
      LessTransitive(a[1..], b[1..], c[1..]);
    }
  }
}
