/** What a plan holds, said of the rules and the files found rather than of the way a
    plan is put together. */
module PlanMeaning {
  import opened Wrappers
  import opened FatPath
  import opened StagePlan

  /** A member that a tree rule takes: a regular file that it includes and nothing excludes. */
  predicate Taken(m: Member) {
    m.kind.RegularFile? && m.included && !m.excludedByRule && !m.excludedByReview
  }

  ghost predicate TreePuts(e: Entry, members: seq<Member>, target: string, source: string)
    requires e.TreeEntry?
  {
    exists m | m in members && Taken(m) :: target == e.target + "/" + m.relative && source == e.source + "/" + m.relative
  }

  ghost predicate TreeNames(e: Entry, members: seq<Member>, dir: string)
    requires e.TreeEntry?
  {
    exists m | m in members && m.kind.SubDirectory? && !e.restricted && !m.excludedByRule :: dir == e.target + "/" + m.relative
  }

  /** A tree has no links or special files, and its files go to safe targets only. */
  ghost predicate TreeFeasible(e: Entry, members: seq<Member>)
    requires e.TreeEntry?
  {
    forall m | m in members ::
      !m.kind.SymbolicLink? && !m.kind.Special? && (Taken(m) ==> SafeFatPath(e.target + "/" + m.relative))
  }

  /** The rule puts this source at this target. */
  ghost predicate Puts(e: Entry, target: string, source: string) {
    || (e.FileEntry? && e.state.Regular? && target == e.target && source == e.source)
    || (e.TreeEntry? && e.tree.Members? && TreePuts(e, e.tree.members, target, source))
  }

  /** The rule names this directory. */
  ghost predicate Names(e: Entry, dir: string) {
    || (e.DirectoryEntry? && dir == e.target)
    || (e.TreeEntry? && e.tree.Members? && (dir == e.target || TreeNames(e, e.tree.members, dir)))
  }

  /** The rule may go without its source, and does. */
  ghost predicate Misses(e: Entry, target: string) {
    || (e.FileEntry? && e.state.NoFile? && e.optional && target == e.target)
    || (e.TreeEntry? && e.tree.NoTree? && e.optional && target == e.target)
  }

  /** The rule can be carried out: what it needs is there, or it may do without. */
  ghost predicate Feasible(e: Entry) {
    match e
    case DirectoryEntry(_) => true
    case Sourceless => true
    case FileEntry(_, _, optional, state) => state.Regular? || (state.NoFile? && optional)
    case TreeEntry(_, _, optional, _, tree) =>
      (tree.NoTree? && optional) || (tree.Members? && TreeFeasible(e, tree.members))
  }

  // ---------------------------------------------------------- from the drafts

  /** The directory is above a file of the draft. */
  ghost predicate AboveFile(files: seq<PlannedFile>, dir: string) {
    exists f | f in files :: Above(dir, f.target)
  }

  lemma AboveMore(a: seq<PlannedFile>, b: seq<PlannedFile>, dir: string)
    ensures AboveFile(a + b, dir) <==> AboveFile(a, dir) || AboveFile(b, dir)
  {
  }

  lemma MemberMeaning(e: Entry, m: Member)
    requires e.TreeEntry?
    ensures MemberDraft(e, m).Some? <==> TreeFeasible(e, [m])
    ensures MemberDraft(e, m).Some? ==>
              var d := MemberDraft(e, m).value;
              && d.missing == {}
              && (forall f :: f in d.files <==> TreePuts(e, [m], f.target, f.source))
              && forall dir :: dir in d.directories <==> TreeNames(e, [m], dir) || AboveFile(d.files, dir)
  {
    hide SafeFatPath, Above, Ancestors;
    assert m in [m] && forall o | o in [m] :: o == m;
    var target := e.target + "/" + m.relative;
    forall dir
      ensures dir in Ancestors(target) <==> Above(dir, target)
    {
      AncestorsAreAbove(target, dir);
    }
    var f := PlannedFile(target, e.source + "/" + m.relative);
    assert f in [f] && forall g | g in [f] :: g == f;
  }

  lemma {:induction false} MembersMeaning(e: Entry, members: seq<Member>)
    requires e.TreeEntry?
    ensures MembersDraft(e, members).Some? <==> TreeFeasible(e, members)
    ensures MembersDraft(e, members).Some? ==>
              var d := MembersDraft(e, members).value;
              && d.missing == {}
              && (forall f :: f in d.files <==> TreePuts(e, members, f.target, f.source))
              && forall dir :: dir in d.directories <==> TreeNames(e, members, dir) || AboveFile(d.files, dir)
  {
    if members != [] {
      var front, m := members[..|members| - 1], members[|members| - 1];
      MembersMeaning(e, front);
      MemberMeaning(e, m);
      assert members == front + [m];
      TreeGrows(e, front, m);
      hide MemberDraft, TreePuts, TreeNames, TreeFeasible, AboveFile;
      assert MembersDraft(e, members) == Both(MembersDraft(e, front), MemberDraft(e, m));
      hide MembersDraft;
      if MembersDraft(e, members).Some? {
        var a, b := MembersDraft(e, front).value, MemberDraft(e, m).value;
        forall dir
          ensures AboveFile(a.files + b.files, dir) <==> AboveFile(a.files, dir) || AboveFile(b.files, dir)
        {
          AboveMore(a.files, b.files, dir);
        }
      }
    }
  }

  lemma TreeGrows(e: Entry, front: seq<Member>, m: Member)
    requires e.TreeEntry?
    ensures TreeFeasible(e, front + [m]) <==> TreeFeasible(e, front) && TreeFeasible(e, [m])
    ensures forall t, s :: TreePuts(e, front + [m], t, s) <==> TreePuts(e, front, t, s) || TreePuts(e, [m], t, s)
    ensures forall dir :: TreeNames(e, front + [m], dir) <==> TreeNames(e, front, dir) || TreeNames(e, [m], dir)
  {
    hide SafeFatPath;
  }

  lemma EntryMeaning(e: Entry)
    ensures EntryDraft(e).Some? <==> Feasible(e)
    ensures EntryDraft(e).Some? ==>
              var d := EntryDraft(e).value;
              && (forall f :: f in d.files <==> Puts(e, f.target, f.source))
              && (forall target :: target in d.missing <==> Misses(e, target))
              && (forall dir :: Names(e, dir) ==> dir in d.directories)
              && forall dir :: dir in d.directories ==> Names(e, dir) || AboveFile(d.files, dir)
  {
    if e.TreeEntry? && e.tree.Members? {
      MembersMeaning(e, e.tree.members);
      hide MembersDraft, TreeFeasible, TreePuts, TreeNames, AboveFile;
      assert forall files: seq<PlannedFile> :: [] + files == files;
    }
    hide TreeFeasible, TreePuts, TreeNames;
  }

  /** What a layout can be carried out to, read off its rules. */
  lemma {:induction false} LayoutMeaning(entries: seq<Entry>)
    ensures LayoutDraft(entries).Some? <==> forall e | e in entries :: Feasible(e)
    ensures LayoutDraft(entries).Some? ==>
              var d := LayoutDraft(entries).value;
              && (forall f :: f in d.files <==> exists e :: e in entries && Puts(e, f.target, f.source))
              && (forall target :: target in d.missing <==> exists e :: e in entries && Misses(e, target))
              && (forall e, dir :: e in entries && Names(e, dir) ==> dir in d.directories)
              && forall dir :: dir in d.directories ==> (exists e :: e in entries && Names(e, dir)) || AboveFile(d.files, dir)
  {
    hide EntryDraft, Feasible, Puts, Misses, Names, AboveFile;
    if entries != [] {
      var front, e := entries[..|entries| - 1], entries[|entries| - 1];
      LayoutMeaning(front);
      EntryMeaning(e);
      assert forall o :: o in entries <==> o in front || o == e;
      if LayoutDraft(entries).Some? {
        forall dir
          ensures AboveFile(LayoutDraft(entries).value.files, dir) <==>
                  AboveFile(LayoutDraft(front).value.files, dir) || AboveFile(EntryDraft(e).value.files, dir)
        {
          AboveMore(LayoutDraft(front).value.files, EntryDraft(e).value.files, dir);
        }
      }
    }
  }

  /** The plan puts exactly what its rules put, and its directories are exactly those that
      its rules name and those above its files. */
  lemma PlanHolds(entries: seq<Entry>, plan: Plan)
    requires LayoutDraft(entries).Some? && PlanOf(plan, LayoutDraft(entries).value)
    ensures forall f: PlannedFile :: f.target in plan.files && plan.files[f.target] == f <==>
              exists e :: e in entries && Puts(e, f.target, f.source)
    ensures forall dir :: dir in plan.directories <==>
              (exists e :: e in entries && Names(e, dir)) || exists target :: target in plan.files && Above(dir, target)
    ensures forall target :: target in plan.missingOptional <==> exists e :: e in entries && Misses(e, target)
  {
    LayoutMeaning(entries);
    var d := LayoutDraft(entries).value;
    forall dir
      ensures dir in plan.directories <==>
              dir in d.directories || exists target :: target in plan.files && Above(dir, target)
    {
      DirectoryOrAbove(d, dir);
      AboveFileOfPlan(d, plan, dir);
    }
    forall dir
      ensures AboveFile(d.files, dir) <==> exists target :: target in plan.files && Above(dir, target)
    {
      AboveFileOfPlan(d, plan, dir);
    }
    assert forall f: PlannedFile :: f.target in plan.files && plan.files[f.target] == f <==> f in d.files;
    hide LayoutDraft, Puts, Names, Misses, Above, AboveFile, AllDirectories;
  }

  lemma AboveFileOfPlan(d: Draft, plan: Plan, dir: string)
    requires PlanOf(plan, d)
    ensures AboveFile(d.files, dir) <==> exists target :: target in plan.files && Above(dir, target)
  {
    hide Above, AllDirectories;
    if f :| f in d.files && Above(dir, f.target) {
      assert f.target in plan.files;
    }
    if target :| target in plan.files && Above(dir, target) {
      assert plan.files[target] in d.files;
    }
  }

  lemma DirectoryOrAbove(d: Draft, dir: string)
    ensures dir in AllDirectories(d) <==> dir in d.directories || AboveFile(d.files, dir)
  {
    forall f | f in d.files
      ensures dir in Ancestors(f.target) <==> Above(dir, f.target)
    {
      AncestorsAreAbove(f.target, dir);
    }
    hide Ancestors, Above;
  }
}
