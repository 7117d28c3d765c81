/** Planning a staged SD-card tree: which files and directories a layout produces,
    and the refusal of everything a FAT volume could not hold. */
module StagePlan {
  import opened Wrappers
  import opened FatPath

  datatype MemberKind = SubDirectory | RegularFile | SymbolicLink | Special

  /** A member of a source tree, with the outcome of its rule's patterns. */
  datatype Member = Member(relative: string, kind: MemberKind,
                           included: bool, excludedByRule: bool, excludedByReview: bool)

  datatype FileSource = NoFile | Regular | NotRegular

  datatype TreeSource = NoTree | NotADirectory | Members(members: seq<Member>)

  /** One selected layout rule with its effective target. */
  datatype Entry =
    | DirectoryEntry(target: string)
    | Sourceless
    | FileEntry(target: string, source: string, optional: bool, state: FileSource)
    | TreeEntry(target: string, source: string, optional: bool, restricted: bool, tree: TreeSource)

  datatype PlannedFile = PlannedFile(target: string, source: string)

  datatype Plan = Plan(files: map<string, PlannedFile>, directories: set<string>, missingOptional: set<string>)

  // ------------------------------------------------------------ what is meant

  /** The tree a layout asks for, before any question of FAT safety. */
  datatype Draft = Draft(files: seq<PlannedFile>, directories: set<string>, missing: set<string>)

  const NOTHING := Draft([], {}, {})

  function Join(a: Draft, b: Draft): Draft {
    Draft(a.files + b.files, a.directories + b.directories, a.missing + b.missing)
  }

  function Both(a: Option<Draft>, b: Option<Draft>): Option<Draft> {
    if a == None || b == None then None else Some(Join(a.value, b.value))
  }

  predicate Selected(m: Member) {
    m.included && !m.excludedByRule && !m.excludedByReview
  }

  ghost function MemberDraft(e: Entry, m: Member): Option<Draft>
    requires e.TreeEntry?
  {
    var target := e.target + "/" + m.relative;
    match m.kind
    case SymbolicLink => None
    case SubDirectory =>
      Some(Draft([], if !e.restricted && !m.excludedByRule then {target} else {}, {}))
    case Special => None
    case RegularFile =>
      if !Selected(m) then Some(NOTHING)
      else if !SafeFatPath(target) then None
      else Some(Draft([PlannedFile(target, e.source + "/" + m.relative)], Ancestors(target), {}))
  }

  ghost function MembersDraft(e: Entry, members: seq<Member>): Option<Draft>
    requires e.TreeEntry?
  {
    if members == [] then Some(NOTHING)
    else Both(MembersDraft(e, members[..|members| - 1]), MemberDraft(e, members[|members| - 1]))
  }

  /** What one rule contributes, or nothing when the rule cannot be carried out. */
  ghost function EntryDraft(e: Entry): Option<Draft> {
    match e
    case DirectoryEntry(target) => Some(Draft([], {target}, {}))
    case Sourceless => Some(NOTHING)
    case FileEntry(target, source, optional, state) =>
      (match state
       case NoFile => if optional then Some(Draft([], {}, {target})) else None
       case NotRegular => None
       case Regular => Some(Draft([PlannedFile(target, source)], {}, {})))
    case TreeEntry(target, source, optional, restricted, tree) =>
      match tree
      case NoTree => if optional then Some(Draft([], {}, {target})) else None
      case NotADirectory => None
      case Members(members) => Both(Some(Draft([], {target}, {})), MembersDraft(e, members))
  }

  ghost function LayoutDraft(entries: seq<Entry>): Option<Draft> {
    if entries == [] then Some(NOTHING)
    else Both(LayoutDraft(entries[..|entries| - 1]), EntryDraft(entries[|entries| - 1]))
  }

  ghost function FileAncestors(files: seq<PlannedFile>): set<string> {
    set f, dir | f in files && dir in Ancestors(f.target) :: dir
  }

  ghost function AllDirectories(d: Draft): set<string> {
    d.directories + FileAncestors(d.files)
  }

  // --------------------------------------------------------------- FAT safety

  ghost predicate DistinctFiles(files: seq<PlannedFile>) {
    forall i, j | 0 <= i < j < |files| :: !SameName(files[i].target, files[j].target)
  }

  ghost predicate DistinctDirectories(directories: set<string>) {
    forall a, b | a in directories && b in directories && SameName(a, b) :: a == b
  }

  /** What the planner itself checks: no two names meet, and directories are safe. */
  ghost predicate Fits(d: Draft) {
    && DistinctFiles(d.files)
    && DistinctDirectories(AllDirectories(d))
    && (forall f, dir | f in d.files && dir in AllDirectories(d) :: !SameName(f.target, dir))
    && (forall dir | dir in AllDirectories(d) :: SafeFatPath(dir))
  }

  /** A FAT volume can hold the draft. */
  ghost predicate FatSafe(d: Draft) {
    Fits(d) && forall f | f in d.files :: SafeFatPath(f.target)
  }

  /** The same by names folded to lower case. */
  lemma FitsByFolding(d: Draft)
    ensures Fits(d) <==>
              && DistinctFiles(d.files)
              && (forall a, b | a in AllDirectories(d) && b in AllDirectories(d) && Lower(a) == Lower(b) :: a == b)
              && (forall f, dir | f in d.files && dir in AllDirectories(d) :: Lower(f.target) != Lower(dir))
              && (forall dir | dir in AllDirectories(d) :: SafeFatPath(dir))
  {
    forall a, b
      ensures Lower(a) == Lower(b) <==> SameName(a, b)
    {
      CaseLaw(a, b);
    }
    hide Lower, SameName, SafeFatPath, AllDirectories, DistinctFiles;
  }

  /** The targets that rules with a source or for a directory name are safe. */
  predicate TargetsSafe(entries: seq<Entry>) {
    forall e | e in entries && !e.Sourceless? :: SafeFatPath(e.target)
  }

  /** The plan is exactly the draft together with the directories above its files. */
  ghost predicate PlanOf(plan: Plan, d: Draft) {
    && (forall target | target in plan.files :: plan.files[target] in d.files && plan.files[target].target == target)
    && (forall f | f in d.files :: f.target in plan.files && plan.files[f.target] == f)
    && plan.directories == AllDirectories(d)
    && plan.missingOptional == d.missing
  }

  /** What a FAT volume needs, read off the plan alone. */
  ghost predicate SafePlan(plan: Plan) {
    && (forall a, b | a in plan.files && b in plan.files && SameName(a, b) :: a == b)
    && DistinctDirectories(plan.directories)
    && (forall f, dir | f in plan.files && dir in plan.directories :: !SameName(f, dir))
    && (forall f, dir | f in plan.files && Above(dir, f) :: dir in plan.directories)
    && (forall f | f in plan.files :: SafeFatPath(f))
    && (forall dir | dir in plan.directories :: SafeFatPath(dir))
  }

  lemma SafeDraftSafePlan(plan: Plan, d: Draft)
    requires FatSafe(d) && PlanOf(plan, d)
    ensures SafePlan(plan)
  {
    hide SameName, SafeFatPath, Ancestors;
    forall a, b | a in plan.files && b in plan.files && SameName(a, b)
      ensures a == b
    {
      var i :| 0 <= i < |d.files| && d.files[i] == plan.files[a];
      var j :| 0 <= j < |d.files| && d.files[j] == plan.files[b];
      SameNameSymmetric(a, b);
    }
    forall f, dir | f in plan.files && Above(dir, f)
      ensures dir in plan.directories
    {
      AncestorsAreAbove(f, dir);
      assert plan.files[f] in d.files;
    }
  }

  /** In a safe plan no file lies above another file or a directory's file, even
      when the names differ in case. */
  lemma NoFileAboveAnother(plan: Plan, file: string, other: string, dir: string)
    requires SafePlan(plan) && file in plan.files && other in plan.files
    requires Above(dir, other)
    ensures !SameName(file, dir)
  {
    assert dir in plan.directories;
  }

  // ----------------------------------------------------------------- planning

  /** The map holds the planned files by target. */
  ghost predicate FilesKnown(known: map<string, PlannedFile>, files: seq<PlannedFile>) {
    && (forall target | target in known :: known[target] in files && known[target].target == target)
    && (forall f | f in files :: f.target in known && known[f.target] == f)
  }

  /** The map's keys are the planned targets without regard to case. */
  ghost predicate NamesKnown(names: map<string, string>, files: seq<PlannedFile>) {
    forall key :: key in names <==> exists f :: f in files && Lower(f.target) == key
  }

  lemma NameTaken(names: map<string, string>, files: seq<PlannedFile>, f: PlannedFile)
    requires NamesKnown(names, files) && Lower(f.target) in names
    ensures !DistinctFiles(files + [f])
  {
    var g :| g in files && Lower(g.target) == Lower(f.target);
    CaseLaw(g.target, f.target);
    hide Lower, SameName;
    var i :| 0 <= i < |files| && files[i] == g;
    assert (files + [f])[i] == g && (files + [f])[|files|] == f;
  }

  lemma OneMoreKnown(known: map<string, PlannedFile>, names: map<string, string>, files: seq<PlannedFile>, f: PlannedFile)
    requires FilesKnown(known, files) && NamesKnown(names, files) && DistinctFiles(files)
    requires Lower(f.target) !in names
    ensures DistinctFiles(files + [f])
    ensures FilesKnown(known[f.target := f], files + [f])
    ensures NamesKnown(names[Lower(f.target) := f.target], files + [f])
  {
    forall g | g in files
      ensures !SameName(g.target, f.target)
    {
      CaseLaw(g.target, f.target);
    }
    hide Lower, SameName;
    assert forall g :: g in files + [f] <==> g in files || g == f;
    assert forall g | g in files :: g.target != f.target;
  }


  class Planner {
    var files: map<string, PlannedFile>
    var fatPaths: map<string, string>
    var directories: set<string>
    var missing: set<string>

    // The draft collected so far.
    ghost var draft: Draft

    ghost predicate Valid()
      reads this
    {
      && DistinctFiles(draft.files) && FilesKnown(files, draft.files) && NamesKnown(fatPaths, draft.files)
      && directories == draft.directories && missing == draft.missing
    }

    constructor ()
      ensures Valid() && draft == NOTHING
    {
      files, fatPaths, directories, missing := map[], map[], {}, {};
      draft := NOTHING;
    }

    /** Adds a file unless its name is taken, ignoring case. */
    method AddTarget(f: PlannedFile) returns (ok: bool)
      requires Valid()
      modifies `files, `fatPaths, `draft
      ensures Valid()
      ensures ok ==> draft == Join(old(draft), Draft([f], {}, {}))
      ensures ok <==> DistinctFiles(old(draft.files) + [f])
      ensures !ok ==> draft == old(draft)
    {
      var key := Lower(f.target);
      if key in fatPaths {
        NameTaken(fatPaths, draft.files, f);
        return false;
      }
      OneMoreKnown(files, fatPaths, draft.files, f);
      hide FilesKnown, NamesKnown, DistinctFiles, Lower, SameName;
      files := files[f.target := f];
      fatPaths := fatPaths[key := f.target];
      draft := Join(draft, Draft([f], {}, {}));
      return true;
    }

    /** Adds one member of a source tree. */
    method AddMember(e: Entry, m: Member) returns (ok: bool)
      requires Valid() && e.TreeEntry?
      modifies this
      ensures ok <==> MemberDraft(e, m).Some? && DistinctFiles(old(draft.files) + MemberDraft(e, m).value.files)
      ensures ok ==> Valid() && draft == Join(old(draft), MemberDraft(e, m).value)
    {
      hide Lower, SameName, SafeFatPath, Ancestors;
      var target := e.target + "/" + m.relative;
      assert draft.files + [] == draft.files;
      match m.kind {
        case SymbolicLink =>
          return false;
        case SubDirectory =>
          if !e.restricted && !m.excludedByRule {
            directories := directories + {target};
            draft := Join(draft, Draft([], {target}, {}));
          }
          return true;
        case Special =>
          return false;
        case RegularFile =>
          if !Selected(m) {
            return true;
          }
          if !SafeFatPath(target) {
            return false;
          }
          ok := AddTarget(PlannedFile(target, e.source + "/" + m.relative));
          if ok {
            directories := AddParents(target, directories);
            draft := Draft(draft.files, draft.directories + Ancestors(target), draft.missing);
          }
      }
    }

    /** Adds every member of a source tree. */
    method AddMembers(e: Entry, members: seq<Member>) returns (ok: bool)
      requires Valid() && e.TreeEntry?
      modifies this
      ensures ok <==> MembersDraft(e, members).Some? && DistinctFiles(old(draft.files) + MembersDraft(e, members).value.files)
      ensures ok ==> Valid() && draft == Join(old(draft), MembersDraft(e, members).value)
    {
      hide MemberDraft;
      ghost var before := draft;
      assert draft.files + [] == draft.files;
      for n := 0 to |members|
        invariant MembersDraft(e, members[..n]).Some?
        invariant Valid() && draft == Join(before, MembersDraft(e, members[..n]).value)
      {
        ghost var soFar := MembersDraft(e, members[..n]).value;
        ok := AddMember(e, members[n]);
        MembersExtend(e, members, n, before.files);
        if ok {
          JoinAssociative(before, soFar, MemberDraft(e, members[n]).value);
        } else {
          if MemberDraft(e, members[n]).Some? {
            JoinAssociative(before, soFar, MemberDraft(e, members[n]).value);
          }
          return;
        }
      }
      assert members[..|members|] == members;
      ok := true;
    }

    /** Adds one layout rule. */
    method AddEntry(e: Entry) returns (ok: bool)
      requires Valid()
      modifies this
      ensures ok <==> EntryDraft(e).Some? && DistinctFiles(old(draft.files) + EntryDraft(e).value.files)
      ensures ok ==> Valid() && draft == Join(old(draft), EntryDraft(e).value)
    {
      hide Lower, SameName, MembersDraft;
      assert draft.files + [] == draft.files;
      match e {
        case DirectoryEntry(target) =>
          directories := directories + {target};
          draft := Join(draft, Draft([], {target}, {}));
          ok := true;
        case Sourceless =>
          ok := true;
        case FileEntry(target, source, optional, state) =>
          if state.NoFile? {
            if !optional {
              return false;
            }
            missing := missing + {target};
            draft := Join(draft, Draft([], {}, {target}));
            return true;
          }
          if state.NotRegular? {
            return false;
          }
          ok := AddTarget(PlannedFile(target, source));
        case TreeEntry(target, source, optional, restricted, tree) =>
          if tree.NoTree? {
            if !optional {
              return false;
            }
            missing := missing + {target};
            draft := Join(draft, Draft([], {}, {target}));
            return true;
          }
          if tree.NotADirectory? {
            return false;
          }
          ghost var before := draft;
          directories := directories + {target};
          draft := Join(draft, Draft([], {target}, {}));
          ok := AddMembers(e, tree.members);
          if MembersDraft(e, tree.members).Some? {
            JoinAssociative(before, Draft([], {target}, {}), MembersDraft(e, tree.members).value);
            assert [] + MembersDraft(e, tree.members).value.files == MembersDraft(e, tree.members).value.files;
          }
      }
    }

    /** Adds the directories above every file, and refuses what FAT cannot hold. */
    method Finish() returns (ok: bool)
      requires Valid()
      modifies `directories
      ensures ok <==> Fits(draft)
      ensures ok ==> directories == AllDirectories(draft)
    {
      hide Lower, SameName, SafeFatPath, Ancestors, AncestorsOf, FileAncestors, Fits, DistinctFiles;
      AllFileAncestors();
      AddAllParents(files.Keys);
      ok := CheckDirectories();
    }

    method AddAllParents(targets: set<string>)
      modifies `directories
      ensures directories == old(directories) + AncestorsOf(targets)
    {
      var rest := targets;
      while rest != {}
        invariant rest <= targets
        invariant directories == old(directories) + AncestorsOf(targets - rest)
        decreases |rest|
      {
        var target :| target in rest;
        directories := AddParents(target, directories);
        AncestorsOfMore(targets - rest, target);
        rest := rest - {target};
        assert targets - rest == (targets - (rest + {target})) + {target};
      }
      assert targets - rest == targets;
    }

    lemma AllFileAncestors()
      requires Valid()
      ensures AncestorsOf(files.Keys) == FileAncestors(draft.files)
    {
      forall dir
        ensures dir in AncestorsOf(files.Keys) <==> dir in FileAncestors(draft.files)
      {
        if dir in AncestorsOf(files.Keys) {
          var t :| t in files.Keys && dir in Ancestors(t);
          assert files[t] in draft.files;
        }
        if dir in FileAncestors(draft.files) {
          var f :| f in draft.files && dir in Ancestors(f.target);
          assert f.target in files.Keys;
        }
      }
    }

    method CheckDirectories() returns (ok: bool)
      requires DistinctFiles(draft.files) && directories == AllDirectories(draft)
      requires NamesKnown(fatPaths, draft.files)
      ensures ok <==> Fits(draft)
    {
      FitsByFolding(draft);
      hide Lower, SameName, SafeFatPath, Ancestors, FileAncestors, Fits;
      var rest := directories;
      var fatDirectories: map<string, string> := map[];
      while rest != {}
        invariant rest <= directories
        invariant forall d | d in directories - rest :: SafeFatPath(d) && Lower(d) !in fatPaths
        invariant forall d | d in directories - rest :: Lower(d) in fatDirectories && fatDirectories[Lower(d)] == d
        invariant forall key | key in fatDirectories ::
                    fatDirectories[key] in directories - rest && Lower(fatDirectories[key]) == key
        decreases |rest|
      {
        var d :| d in rest;
        if !SafeFatPath(d) {
          return false;
        }
        var key := Lower(d);
        if key in fatDirectories && fatDirectories[key] != d {
          assert Lower(fatDirectories[key]) == Lower(d);
          return false;
        }
        if key in fatPaths {
          return false;
        }
        fatDirectories := fatDirectories[key := d];
        rest := rest - {d};
      }
      ok := true;
    }
  }

  ghost function AncestorsOf(targets: set<string>): set<string> {
    set t, dir | t in targets && dir in Ancestors(t) :: dir
  }

  lemma AncestorsOfMore(targets: set<string>, target: string)
    ensures AncestorsOf(targets + {target}) == AncestorsOf(targets) + Ancestors(target)
  {
  }

  lemma JoinAssociative(a: Draft, b: Draft, c: Draft)
    ensures Join(Join(a, b), c) == Join(a, Join(b, c))
    ensures (a.files + b.files) + c.files == a.files + (b.files + c.files)
  {
    assert (a.files + b.files) + c.files == a.files + (b.files + c.files);
  }

  lemma {:induction false} MembersPrefix(e: Entry, members: seq<Member>, n: nat)
    requires e.TreeEntry? && n <= |members| && MembersDraft(e, members).Some?
    ensures MembersDraft(e, members[..n]).Some?
    ensures MembersDraft(e, members[..n]).value.files <= MembersDraft(e, members).value.files
  {
    var last := |members| - 1;
    if n == |members| {
      assert members[..n] == members;
    } else {
      MembersPrefix(e, members[..last], n);
      assert members[..last][..n] == members[..n];
    }
  }

  lemma DistinctPrefix(a: seq<PlannedFile>, b: seq<PlannedFile>)
    requires a <= b && DistinctFiles(b)
    ensures DistinctFiles(a)
  {
  }

  /** Unfolds the draft at member `n`; a refusal there is a refusal of the whole. */
  lemma MembersExtend(e: Entry, members: seq<Member>, n: nat, files: seq<PlannedFile>)
    requires e.TreeEntry? && n < |members|
    ensures MembersDraft(e, members[..n + 1]) == Both(MembersDraft(e, members[..n]), MemberDraft(e, members[n]))
    ensures MembersDraft(e, members).Some? && DistinctFiles(files + MembersDraft(e, members).value.files) ==>
              && MembersDraft(e, members[..n + 1]).Some?
              && DistinctFiles(files + MembersDraft(e, members[..n + 1]).value.files)
  {
    assert members[..n + 1][..n] == members[..n] && members[..n + 1][n] == members[n];
    if MembersDraft(e, members).Some? && DistinctFiles(files + MembersDraft(e, members).value.files) {
      MembersPrefix(e, members, n + 1);
      DistinctPrefix(files + MembersDraft(e, members[..n + 1]).value.files,
                     files + MembersDraft(e, members).value.files);
    }
  }

  lemma {:induction false} LayoutPrefix(entries: seq<Entry>, n: nat)
    requires n <= |entries| && LayoutDraft(entries).Some?
    ensures LayoutDraft(entries[..n]).Some?
    ensures LayoutDraft(entries[..n]).value.files <= LayoutDraft(entries).value.files
  {
    var last := |entries| - 1;
    if n == |entries| {
      assert entries[..n] == entries;
    } else {
      LayoutPrefix(entries[..last], n);
      assert entries[..last][..n] == entries[..n];
    }
  }

  lemma LayoutExtend(entries: seq<Entry>, n: nat)
    requires n < |entries|
    ensures LayoutDraft(entries[..n + 1]) == Both(LayoutDraft(entries[..n]), EntryDraft(entries[n]))
    ensures LayoutDraft(entries).Some? && DistinctFiles(LayoutDraft(entries).value.files) ==>
              LayoutDraft(entries[..n + 1]).Some? && DistinctFiles(LayoutDraft(entries[..n + 1]).value.files)
  {
    hide EntryDraft, DistinctFiles;
    assert entries[..n + 1][..n] == entries[..n] && entries[..n + 1][n] == entries[n];
    if LayoutDraft(entries).Some? && DistinctFiles(LayoutDraft(entries).value.files) {
      LayoutPrefix(entries, n + 1);
      DistinctPrefix(LayoutDraft(entries[..n + 1]).value.files, LayoutDraft(entries).value.files);
    }
  }

  // ------------------------------------------------------- safe file targets

  lemma {:induction false} MembersSafe(e: Entry, members: seq<Member>)
    requires e.TreeEntry? && MembersDraft(e, members).Some?
    ensures forall f | f in MembersDraft(e, members).value.files :: SafeFatPath(f.target)
  {
    hide SafeFatPath, Ancestors;
    if members != [] {
      MembersSafe(e, members[..|members| - 1]);
    }
  }

  lemma EntrySafe(e: Entry)
    requires EntryDraft(e).Some? && (!e.Sourceless? ==> SafeFatPath(e.target))
    ensures forall f | f in EntryDraft(e).value.files :: SafeFatPath(f.target)
  {
    hide SafeFatPath, MembersDraft;
    if e.TreeEntry? && e.tree.Members? {
      MembersSafe(e, e.tree.members);
    }
  }

  lemma {:induction false} LayoutSafe(entries: seq<Entry>)
    requires TargetsSafe(entries) && LayoutDraft(entries).Some?
    ensures forall f | f in LayoutDraft(entries).value.files :: SafeFatPath(f.target)
  {
    hide SafeFatPath, EntryDraft;
    if entries != [] {
      LayoutSafe(entries[..|entries| - 1]);
      EntrySafe(entries[|entries| - 1]);
    }
  }

  // ---------------------------------------------------------------- the plan

  /** The check of the rules' own targets, made when a layout is loaded. */
  method CheckTargets(entries: seq<Entry>) returns (ok: bool)
    ensures ok <==> TargetsSafe(entries)
  {
    hide SafeFatPath;
    for n := 0 to |entries|
      invariant TargetsSafe(entries[..n])
    {
      var e := entries[n];
      assert e in entries;
      if !e.Sourceless? && !SafeFatPath(e.target) {
        return false;
      }
    }
    assert entries[..|entries|] == entries;
    return true;
  }

  /** A plan is made exactly when the rules' targets are safe, the rules can be carried
      out, and FAT can hold the result; it is then that result, and safe. */
  method PlanStage(entries: seq<Entry>) returns (plan: Option<Plan>)
    ensures plan.Some? <==> TargetsSafe(entries) && LayoutDraft(entries).Some? && FatSafe(LayoutDraft(entries).value)
    ensures plan.Some? ==> PlanOf(plan.value, LayoutDraft(entries).value) && SafePlan(plan.value)
  {
    hide LayoutDraft, Fits, PlanOf, SafePlan, TargetsSafe;
    var ok := CheckTargets(entries);
    if !ok {
      return None;
    }
    if LayoutDraft(entries).Some? {
      LayoutSafe(entries);
    }
    plan := PlanEntries(entries);
    if plan.Some? {
      SafeDraftSafePlan(plan.value, LayoutDraft(entries).value);
    }
  }

  method PlanEntries(entries: seq<Entry>) returns (plan: Option<Plan>)
    ensures plan.Some? <==> LayoutDraft(entries).Some? && Fits(LayoutDraft(entries).value)
    ensures plan.Some? ==> PlanOf(plan.value, LayoutDraft(entries).value)
  {
    hide EntryDraft, Lower, SafeFatPath, Ancestors;
    var planner := new Planner();
    for n := 0 to |entries|
      invariant fresh(planner) && planner.Valid()
      invariant LayoutDraft(entries[..n]) == Some(planner.draft)
    {
      var ok := planner.AddEntry(entries[n]);
      LayoutExtend(entries, n);
      if !ok {
        return None;
      }
    }
    assert entries[..|entries|] == entries;
    var ok := planner.Finish();
    if !ok {
      return None;
    }
    plan := Some(Plan(planner.files, planner.directories, planner.missing));
  }
}
