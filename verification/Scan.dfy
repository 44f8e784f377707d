/** The walking methods, proved to do exactly what the walk's events say. */
module Scan {
  import opened Strings
  import opened Ordered
  import opened Inventory
  import opened SourceWalk
  import RemotePath

  class ScanOutput {
    var entries: map<string, LocalEntry>
    var excluded: set<string>
    var skipped: seq<SkippedEntry>
    var complete: bool

    constructor ()
      ensures View() == EMPTY
    {
      entries, excluded, skipped, complete := map[], {}, [], true;
    }

    ghost function View(): Output
      reads this
    {
      Output(entries, excluded, skipped, complete)
    }

    method Insert(relative: string, entry: LocalEntry, budget: nat) returns (fits: bool)
      requires complete
      modifies this
      ensures View() == Step(old(View()), Keep(relative, entry), budget) && fits == complete
    {
      if |entries| + |skipped| >= budget {
        complete := false;
        return false;
      }
      entries := entries[relative := entry];
      return true;
    }

    method Skip(relative: string, reason: SkipReason, budget: nat) returns (fits: bool)
      requires complete
      modifies this
      ensures View() == Step(old(View()), Decline(relative, reason), budget) && fits == complete
    {
      if |entries| + |skipped| >= budget {
        complete := false;
        return false;
      }
      skipped := skipped + [SkippedEntry(relative, reason)];
      return true;
    }

    /** A folder that cannot be listed leaves the entries, its subtree too, and becomes a skip that the
        budget does not count. */
    method WithholdUnreadable(relative: string, detail: string)
      modifies this
      ensures View() == Apply(old(View()), Withhold(relative, Deferred(detail)))
    {
      entries := RemoveSubtree(entries, relative);
      skipped := skipped + [SkippedEntry(relative, Deferred(detail))];
    }

    method RecordExcluded(relative: string, c: Context)
      modifies this
      ensures View() == if c.includeExcluded && InScope(c.scope, relative)
                        then Apply(old(View()), Exclude(relative)) else old(View())
    {
      if c.includeExcluded && InScope(c.scope, relative) {
        excluded := excluded + {relative};
      }
    }
  }

  /** Read a folder: its names in whatever order the file system gives them. */
  method ListFolder(children: map<string, Node>) returns (listing: seq<string>)
    ensures multiset(listing) == multiset(children.Keys)
  {
    listing := [];
    var remaining := children.Keys;
    while remaining != {}
      invariant remaining <= children.Keys
      invariant multiset(listing) == multiset(children.Keys - remaining)
      decreases |remaining|
    {
      var name :| name in remaining;
      assert multiset(children.Keys - (remaining - {name}))
          == multiset(children.Keys - remaining) + multiset{name};
      remaining := remaining - {name};
      listing := listing + [name];
    }
    assert children.Keys - remaining == children.Keys;
  }

  /** Sorting forgets the order of the listing. */
  lemma SortedListing(listing: seq<string>, names: set<string>)
    requires multiset(listing) == multiset(names)
    ensures Sort(listing, AtMost) == SortedKeys(names)
  {
    AtMostIsTotalPreorder();
    SortSorts(listing, AtMost);
    var sorted := Sort(listing, AtMost);
    forall i, j | 0 <= i < j < |sorted| ensures Less(sorted[i], sorted[j]) {
      EqualPlacesCountTwice(sorted, i, j);
    }
    assert forall k :: k in sorted <==> k in multiset(names);
    EnumerationIsUnique(sorted, names);
  }

  lemma EqualPlacesCountTwice(names: seq<string>, i: nat, j: nat)
    requires i < j < |names|
    ensures names[i] == names[j] ==> multiset(names)[names[j]] >= 2
  {
    assert names == names[..j] + [names[j]] + names[j + 1..];
    assert names[..j][i] == names[i];
  }

  lemma PlayOne(o: Output, e: Event, budget: nat)
    requires o.complete
    ensures Play(o, [], budget) == o
    ensures Play(o, [e], budget) == Step(o, e, budget)
    ensures !e.Charged() ==> Play(o, [e], budget) == Apply(o, e)
  {
    assert [e][..0] == [];
  }

  /** What one folder's reading adds. */
  ghost function FolderEvents(c: Context, path: string, node: Node): seq<Event>
    requires node.Folder? || node.LockedFolder?
  {
    if node.Folder? then ChildEvents(c, path, node, SortedKeys(node.children.Keys))
    else [Withhold(path, Deferred(node.detail))]
  }

  /** `scan_dir`: every child in name order, stopping when the budget is spent. */
  method ScanDir(c: Context, path: string, node: Node, budget: nat, output: ScanOutput)
    requires node.Folder? || node.LockedFolder?
    requires output.complete
    modifies output
    ensures output.View() == Play(old(output.View()), FolderEvents(c, path, node), budget)
    decreases node, 0
  {
    hide NodeEvents, ChildEvents, Play, Step;
    if node.LockedFolder? {
      PlayOne(output.View(), Withhold(path, Deferred(node.detail)), budget);
      output.WithholdUnreadable(path, node.detail);
      return;
    }
    ghost var start := output.View();
    var listing := ListFolder(node.children);
    SortedListing(listing, node.children.Keys);
    var names := Sort(listing, AtMost);
    NoChildren(c, path, node, start, budget);
    for i := 0 to |names|
      invariant output.complete
      invariant output.View() == Play(start, ChildEvents(c, path, node, names[..i]), budget)
    {
      var name := names[i];
      OneMoreChild(c, path, node, names, i, start, budget);
      ScanEntry(c, Child(path, name), node.children[name], budget, output);
      if !output.complete {
        StoppedWalkStands(c, path, node, names, i + 1, start, budget);
        return;
      }
    }
    assert names[..|names|] == names;
  }

  lemma NoChildren(c: Context, path: string, node: Node, start: Output, budget: nat)
    requires node.Folder?
    ensures Play(start, ChildEvents(c, path, node, []), budget) == start
  {
  }

  lemma OneMoreChild(c: Context, path: string, node: Node, names: seq<string>, i: nat,
                     start: Output, budget: nat)
    requires node.Folder? && (forall name <- names :: name in node.children) && i < |names|
    ensures names[i] in node.children
    ensures Play(start, ChildEvents(c, path, node, names[..i + 1]), budget)
         == Play(Play(start, ChildEvents(c, path, node, names[..i]), budget),
                 NodeEvents(c, Child(path, names[i]), node.children[names[i]]), budget)
  {
    hide NodeEvents, Play, Step;
    assert names[i] in names && names[..i + 1][..i] == names[..i];
    PlayConcat(start, ChildEvents(c, path, node, names[..i]),
               NodeEvents(c, Child(path, names[i]), node.children[names[i]]), budget);
  }

  /** Once the walk has stopped, the children still to come change nothing. */
  lemma {:induction false} StoppedWalkStands(c: Context, path: string, node: Node, names: seq<string>,
                                             n: nat, start: Output, budget: nat)
    requires node.Folder? && (forall name <- names :: name in node.children) && n <= |names|
    requires !Play(start, ChildEvents(c, path, node, names[..n]), budget).complete
    ensures Play(start, ChildEvents(c, path, node, names), budget)
         == Play(start, ChildEvents(c, path, node, names[..n]), budget)
    decreases |names|
  {
    hide NodeEvents, ChildEvents, Play, Step;
    if n == |names| {
      assert names[..n] == names;
    } else {
      var m := |names| - 1;
      assert names[..m][..n] == names[..n] && names[..m + 1] == names;
      forall name <- names[..m] ensures name in node.children {
        assert name in names;
      }
      StoppedWalkStands(c, path, node, names[..m], n, start, budget);
      OneMoreChild(c, path, node, names, m, start, budget);
      IncompletePlayStands(Play(start, ChildEvents(c, path, node, names[..m]), budget),
                           NodeEvents(c, Child(path, names[m]), node.children[names[m]]), budget);
    }
  }

  /** The loop body of `scan_dir`: one child. */
  method ScanEntry(c: Context, path: string, node: Node, budget: nat, output: ScanOutput)
    requires output.complete
    modifies output
    ensures output.View() == Play(old(output.View()), NodeEvents(c, path, node), budget)
    decreases node, 2
  {
    ghost var start := output.View();
    PlayOne(start, Exclude(path), budget);
    if RemotePath.IsDsmManaged(path) {
      output.RecordExcluded(path, c);
      return;
    }
    var inScope := InScope(c.scope, path);
    if !inScope && !OnScopePath(c.scope, path) {
      return;
    }
    if node.Unclassified? {
      PlayOne(start, Decline(path, Deferred(node.detail)), budget);
      var _ := output.Skip(path, Deferred(node.detail), budget);
      return;
    }
    if c.ignored(path, node.IsFolder()) {
      output.RecordExcluded(path, c);
      return;
    }
    if Refused(path) {
      PlayOne(start, Decline(path, Deferred("unsupported-entry")), budget);
      var _ := output.Skip(path, Deferred("unsupported-entry"), budget);
      return;
    }
    ScanAdmitted(c, path, node, budget, output);
  }

  /** An entry that passed every check: record it and descend, or treat it as a leaf. */
  method ScanAdmitted(c: Context, path: string, node: Node, budget: nat, output: ScanOutput)
    requires output.complete && Judge(c, path, node) == Admitted
    modifies output
    ensures output.View() == Play(old(output.View()), NodeEvents(c, path, node), budget)
    decreases node, 1
  {
    hide Judge, Step;
    if !node.Folder? && !node.LockedFolder? {
      ScanLeaf(InScope(c.scope, path), path, node, budget, output);
      return;
    }
    ghost var kept := Keep(path, FOLDER_ENTRY);
    PlayOne(output.View(), kept, budget);
    PlayConcat(output.View(), [kept], FolderEvents(c, path, node), budget);
    assert NodeEvents(c, path, node) == [kept] + FolderEvents(c, path, node);
    var fits := output.Insert(path, FOLDER_ENTRY, budget);
    if !fits {
      IncompletePlayStands(output.View(), FolderEvents(c, path, node), budget);
      return;
    }
    ScanDir(c, path, node, budget, output);
  }

  /** A file, a special entry, or one that vanished. A file is recorded only in scope. */
  method ScanLeaf(inScope: bool, path: string, node: Node, budget: nat, output: ScanOutput)
    requires output.complete && !node.Folder? && !node.LockedFolder?
    modifies output
    ensures output.View() == Play(old(output.View()), LeafEvents(inScope, path, node), budget)
  {
    ghost var events := LeafEvents(inScope, path, node);
    PlayOne(output.View(), if events == [] then Exclude(path) else events[0], budget);
    match node
    case Unreadable(_, detail) => var _ := output.Skip(path, Deferred(detail), budget);
    case Special(_, reason) => var _ := output.Skip(path, reason, budget);
    case RegularFile(size) =>
      if inScope {
        var _ := output.Insert(path, FileEntry(size), budget);
      }
    case UntimedFile(detail) =>
      if inScope {
        var _ := output.Skip(path, Deferred(detail), budget);
      }
    case _ =>
  }
}
