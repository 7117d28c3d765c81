/** Paths on a FAT volume: which texts are safe, how case is ignored, and which
    directories a path lies in. */
module FatPath {

  // ------------------------------------------------------------------- case

  function LowerChar(c: char): char {
    if 'A' <= c <= 'Z' then (c as int + 32) as char else c
  }

  function UpperChar(c: char): char {
    if 'a' <= c <= 'z' then (c as int - 32) as char else c
  }

  function Lower(s: string): (r: string)
    ensures |r| == |s| && forall i | 0 <= i < |s| :: r[i] == LowerChar(s[i])
  {
    seq(|s|, i requires 0 <= i < |s| => LowerChar(s[i]))
  }

  function Upper(s: string): (r: string)
    ensures |r| == |s| && forall i | 0 <= i < |s| :: r[i] == UpperChar(s[i])
  {
    seq(|s|, i requires 0 <= i < |s| => UpperChar(s[i]))
  }

  /** The letters, in both cases. */
  function Capital(k: nat): (c: char)
    requires k < 26
    ensures c as int == 'A' as int + k
  {
    "ABCDEFGHIJKLMNOPQRSTUVWXYZ"[k]
  }

  function Small(k: nat): (c: char)
    requires k < 26
    ensures c as int == 'a' as int + k
  {
    "abcdefghijklmnopqrstuvwxyz"[k]
  }

  /** The characters are equal, or the two cases of one letter. */
  ghost predicate SameLetter(c: char, d: char) {
    c == d || exists k: nat | k < 26 :: (c == Capital(k) && d == Small(k)) || (c == Small(k) && d == Capital(k))
  }

  /** The names are equal but for the case of letters. */
  ghost predicate SameName(a: string, b: string) {
    |a| == |b| && forall i | 0 <= i < |a| :: SameLetter(a[i], b[i])
  }

  lemma SameLetterIff(c: char, d: char)
    ensures LowerChar(c) == LowerChar(d) <==> SameLetter(c, d)
    ensures UpperChar(c) == UpperChar(d) <==> SameLetter(c, d)
  {
    hide Capital, Small;
    if 'A' <= c <= 'Z' {
      assert c == Capital(c as int - 'A' as int);
    }
    if 'A' <= d <= 'Z' {
      assert d == Capital(d as int - 'A' as int);
    }
  }

  /** Folding a name to either case forgets the case of letters and nothing else. */
  lemma CaseLaw(a: string, b: string)
    ensures Lower(a) == Lower(b) <==> SameName(a, b)
    ensures Upper(a) == Upper(b) <==> SameName(a, b)
  {
    hide SameLetter, LowerChar, UpperChar;
    forall i | 0 <= i < |a| && |a| == |b|
      ensures Lower(a)[i] == Lower(b)[i] <==> SameLetter(a[i], b[i])
      ensures Upper(a)[i] == Upper(b)[i] <==> SameLetter(a[i], b[i])
    {
      SameLetterIff(a[i], b[i]);
    }
  }

  lemma SameNameSymmetric(a: string, b: string)
    ensures SameName(a, b) == SameName(b, a)
    ensures SameName(a, a)
  {
    CaseLaw(a, b);
    CaseLaw(b, a);
    CaseLaw(a, a);
    hide Lower, Upper, SameName;
  }

  // -------------------------------------------------------------- validation

  const FORBIDDEN: set<char> := {'"', '*', ':', '<', '>', '?', '\\', '|'}
  const RESERVED: set<string> :=
    {"CON", "PRN", "AUX", "NUL"}
    + (set d | '1' <= d <= '9' :: "COM" + [d])
    + (set d | '1' <= d <= '9' :: "LPT" + [d])

  function UpTo(s: string, stop: char): string {
    if s == [] || s[0] == stop then [] else [s[0]] + UpTo(s[1..], stop)
  }

  function Components(text: string): seq<string>
    decreases |text|
  {
    var head := UpTo(text, '/');
    UpToIsPrefix(text, '/');
    if |head| == |text| then [head] else [head] + Components(text[|head| + 1..])
  }

  lemma {:induction false} UpToIsPrefix(s: string, stop: char)
    ensures UpTo(s, stop) <= s
  {
    if s != [] && s[0] != stop {
      UpToIsPrefix(s[1..], stop);
    }
  }

  predicate SafeComponent(c: string) {
    && c != "" && c != "." && c != ".."
    && c[0] != ' ' && c[|c| - 1] != ' ' && c[|c| - 1] != '.'
    && |c| <= 255
    && Upper(UpTo(c, '.')) !in RESERVED
  }

  predicate SafeFatPath(text: string) {
    && text != "" && |text| <= 240
    && text[0] != '/' && text[|text| - 1] != '/'
    && (forall c | c in text :: 0x20 as char <= c <= 0x7E as char && c !in FORBIDDEN)
    && forall c | c in Components(text) :: SafeComponent(c)
  }

  // ----------------------------------------------- what a safe path looks like

  /** The text between two slashes, or between a slash and an end, from `i` to `j`. */
  ghost predicate Segment(text: string, i: int, j: int, c: string) {
    && 0 <= i <= j <= |text| && text[i..j] == c && '/' !in c
    && (i == 0 || text[i - 1] == '/') && (j == |text| || text[j] == '/')
  }

  lemma {:induction false} UpToStops(s: string, stop: char)
    ensures UpTo(s, stop) <= s && stop !in UpTo(s, stop)
    ensures |UpTo(s, stop)| < |s| ==> s[|UpTo(s, stop)|] == stop
  {
    if s != [] && s[0] != stop {
      UpToStops(s[1..], stop);
    }
  }

  /** The components of a text are its segments. */
  lemma {:induction false} ComponentsAreSegments(text: string, c: string)
    ensures c in Components(text) <==> exists i, j :: Segment(text, i, j, c)
    decreases |text|
  {
    var head := UpTo(text, '/');
    var n := |head|;
    UpToStops(text, '/');
    assert text[0..n] == head && Segment(text, 0, n, head);
    if n < |text| {
      ComponentsAreSegments(text[n + 1..], c);
      LaterSegments(text, n, text[n + 1..], c);
      assert Components(text) == [head] + Components(text[n + 1..]);
    } else {
      assert Components(text) == [head];
    }
    if i, j :| Segment(text, i, j, c) {
      SegmentIsFirstOrLater(text, n, i, j, c);
      assert i > n ==> n < |text|;
    }
    hide Segment;
  }

  /** The segments behind a slash are those of the text behind it. */
  lemma LaterSegments(text: string, n: nat, rest: string, c: string)
    requires n < |text| && text[n] == '/' && rest == text[n + 1..]
    ensures (exists i, j :: Segment(rest, i, j, c)) <==> exists i, j :: i > n && Segment(text, i, j, c)
  {
    if i, j :| Segment(rest, i, j, c) {
      assert text[n + 1 + i..n + 1 + j] == rest[i..j];
      assert i > 0 ==> text[n + 1 + i - 1] == rest[i - 1];
      assert Segment(text, n + 1 + i, n + 1 + j, c);
    }
    if i, j :| i > n && Segment(text, i, j, c) {
      assert text[i..j] == rest[i - n - 1..j - n - 1];
      assert i > n + 1 ==> rest[i - n - 2] == text[i - 1];
      assert Segment(rest, i - n - 1, j - n - 1, c);
    }
  }

  /** A segment is the one before the first slash or lies behind that slash. */
  lemma SegmentIsFirstOrLater(text: string, n: nat, i: int, j: int, c: string)
    requires n <= |text| && '/' !in text[..n] && (n < |text| ==> text[n] == '/') && Segment(text, i, j, c)
    ensures (i == 0 && c == text[..n]) || i > n
  {
    forall k | 0 <= k < n
      ensures text[k] != '/'
    {
      assert text[k] == text[..n][k] && text[..n][k] in text[..n];
    }
    forall k | i <= k < j
      ensures text[k] != '/'
    {
      assert text[k] == c[k - i] && c[k - i] in c;
    }
    assert i == 0 ==> text[0..j] == text[..j];
  }

  /** A device name: CON, PRN, AUX or NUL, or COM or LPT with a digit from 1 to 9. */
  predicate DeviceName(r: string) {
    || r == "CON" || r == "PRN" || r == "AUX" || r == "NUL"
    || (|r| == 4 && (r[..3] == "COM" || r[..3] == "LPT") && '1' <= r[3] <= '9')
  }

  lemma ReservedAreDevices(r: string)
    ensures r in RESERVED <==> DeviceName(r)
  {
    if DeviceName(r) && |r| == 4 {
      assert r == r[..3] + [r[3]];
    }
  }

  lemma DeviceNamePlain(r: string)
    requires DeviceName(r)
    ensures '.' !in r && Upper(r) == r
  {
  }

  /** A component is safe if it is neither empty nor a dot or two, does not begin or end
      with a space nor end with a dot, is not too long, and no spelling of a device name,
      with an extension or without, whatever the case of its letters. */
  lemma SafeComponentIff(c: string)
    ensures SafeComponent(c) <==>
              && 0 < |c| <= 255 && c != "." && c != ".." && c[0] != ' ' && c[|c| - 1] != ' ' && c[|c| - 1] != '.'
              && forall r, n | DeviceName(r) && 0 <= n <= |c| && SameName(c[..n], r) :: n < |c| && c[n] != '.'
  {
    hide SameName, Upper, RESERVED;
    var stem := UpTo(c, '.');
    UpToStops(c, '.');
    ReservedAreDevices(Upper(stem));
    var m := |stem|;
    assert c[..m] == stem;
    if DeviceName(Upper(stem)) {
      UpperTwice(stem);
      CaseLaw(stem, Upper(stem));
      assert SameName(c[..m], Upper(stem)) && (m < |c| ==> c[m] == '.');
    }
    if r, n :| DeviceName(r) && 0 <= n <= |c| && SameName(c[..n], r) && (n == |c| || c[n] == '.') {
      DeviceNamePlain(r);
      CaseLaw(c[..n], r);
      NoDot(c[..n], r);
      assert n == m by { StemEnds(c, stem, n); }
    }
  }

  lemma UpperTwice(s: string)
    ensures Upper(Upper(s)) == Upper(s)
  {
  }

  lemma NoDot(a: string, r: string)
    requires SameName(a, r) && '.' !in r
    ensures '.' !in a
  {
    forall i | 0 <= i < |a|
      ensures a[i] != '.'
    {
      SameLetterIff(a[i], r[i]);
      assert r[i] in r;
    }
  }

  lemma StemEnds(c: string, stem: string, n: nat)
    requires stem <= c && '.' !in stem && (|stem| < |c| ==> c[|stem|] == '.')
    requires n <= |c| && '.' !in c[..n] && (n < |c| ==> c[n] == '.')
    ensures n == |stem|
  {
    forall k | 0 <= k < |stem|
      ensures c[k] != '.'
    {
      assert c[k] == stem[k] && stem[k] in stem;
    }
    forall k | 0 <= k < n
      ensures c[k] != '.'
    {
      assert c[k] == c[..n][k] && c[..n][k] in c[..n];
    }
  }

  /** A safe path has 1 to 240 printable characters, none of which FAT forbids, and each of
      its segments is a safe component; hence no slash at an end and no two in a row. */
  lemma SafePathIff(text: string)
    ensures SafeFatPath(text) <==>
              && 0 < |text| <= 240
              && (forall k | 0 <= k < |text| ::
                    ' ' <= text[k] <= '~' && text[k] != '"' && text[k] != '*' && text[k] != ':' && text[k] != '<'
                    && text[k] != '>' && text[k] != '?' && text[k] != '\\' && text[k] != '|')
              && forall i, j, c | Segment(text, i, j, c) :: SafeComponent(c)
  {
    forall c
      ensures c in Components(text) <==> exists i, j :: Segment(text, i, j, c)
    {
      ComponentsAreSegments(text, c);
    }
    if text != "" && text[0] == '/' {
      assert Segment(text, 0, 0, "");
    }
    if text != "" && text[|text| - 1] == '/' {
      assert Segment(text, |text|, |text|, "");
    }
    assert !SafeComponent("");
    assert forall k | 0 <= k < |text| :: text[k] in text;
    hide Segment, SafeComponent, Components;
  }

  // --------------------------------------------------------------- ancestors

  /** `dir` is a directory strictly above `path`. */
  predicate Above(dir: string, path: string) {
    dir != "" && dir + "/" <= path
  }

  ghost function Ancestors(path: string): set<string> {
    set i | 0 < i < |path| && path[i] == '/' :: path[..i]
  }

  lemma AncestorsAreAbove(path: string, dir: string)
    ensures dir in Ancestors(path) <==> Above(dir, path)
  {
    if Above(dir, path) {
      assert path[..|dir|] == dir && path[|dir|] == '/';
    }
    if dir in Ancestors(path) {
      var i :| 0 < i < |path| && path[i] == '/' && path[..i] == dir;
      assert dir + "/" == path[..i + 1];
    }
  }

  /** `path.rpartition("/")[0]`: everything before the last slash. */
  function Parent(path: string): (p: string)
    ensures |p| < |path| || p == path == ""
  {
    if path == "" then ""
    else
      var n := |path| - 1;
      if path[n] == '/' then path[..n] else Parent(path[..n])
  }

  /** The directories above a path are its parent and the directories above that. */
  lemma {:induction false} AncestorsOfParent(path: string)
    ensures Ancestors(path) == if Parent(path) == "" then {} else {Parent(path)} + Ancestors(Parent(path))
  {
    if path != "" {
      var n := |path| - 1;
      var shorter := path[..n];
      if path[n] == '/' {
        assert forall i | 0 < i < n :: shorter[..i] == path[..i];
        assert Ancestors(path) == Ancestors(shorter) + if n == 0 then {} else {shorter};
        assert n == 0 ==> Ancestors(shorter) == {};
      } else {
        AncestorsOfParent(shorter);
        assert forall i | 0 < i < n :: shorter[..i] == path[..i];
        assert Ancestors(path) == Ancestors(shorter);
      }
    }
  }

  /** Adds every directory above the path by climbing from parent to parent. */
  method AddParents(path: string, directories: set<string>) returns (all: set<string>)
    ensures all == directories + Ancestors(path)
  {
    all := directories;
    var parent := Parent(path);
    AncestorsOfParent(path);
    while parent != ""
      invariant all + (if parent == "" then {} else {parent} + Ancestors(parent)) == directories + Ancestors(path)
      decreases |parent|
    {
      AncestorsOfParent(parent);
      all := all + {parent};
      parent := Parent(parent);
    }
  }
}
