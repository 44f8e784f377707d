/** The whole scan: walk, collision pass and sorted skips, with what a scope and a budget change. */
module ScopedScan {
  import opened Strings
  import opened Ordered
  import opened Inventory
  import opened SourceWalk
  import opened WalkOutcome
  import opened Scan
  import opened Collisions
  import opened Wrappers

  ghost predicate UnderSome(paths: set<string>, p: string) {
    exists q :: q in paths && AtOrBeneath(q, p)
  }

  ghost function WithoutSubtrees(entries: map<string, LocalEntry>, paths: set<string>)
    : map<string, LocalEntry>
  {
    map p | p in entries && !UnderSome(paths, p) :: entries[p]
  }

  function ReportOf(pair: Pair): SkippedEntry {
    SkippedEntry(pair.0, LocalCaseCollision(pair.1))
  }

  function ReportsOf(pairs: seq<Pair>): seq<SkippedEntry> {
    seq(|pairs|, i requires 0 <= i < |pairs| => ReportOf(pairs[i]))
  }

  lemma RemovingOneMore(entries: map<string, LocalEntry>, pairs: seq<Pair>, i: nat)
    requires i < |pairs|
    ensures WithoutSubtree(WithoutSubtrees(entries, Firsts(pairs[..i])), pairs[i].0)
         == WithoutSubtrees(entries, Firsts(pairs[..i + 1]))
    ensures ReportsOf(pairs[..i + 1]) == ReportsOf(pairs[..i]) + [ReportOf(pairs[i])]
  {
    hide AtOrBeneath;
    assert pairs[..i + 1] == pairs[..i] + [pairs[i]];
    assert Firsts(pairs[..i + 1]) == Firsts(pairs[..i]) + {pairs[i].0};
    forall p ensures UnderSome(Firsts(pairs[..i + 1]), p)
                 <==> UnderSome(Firsts(pairs[..i]), p) || AtOrBeneath(pairs[i].0, p) {
      if AtOrBeneath(pairs[i].0, p) {
        assert pairs[i].0 in Firsts(pairs[..i + 1]);
      }
    }
  }

  /** Taking out the top spellings with everything beneath them takes out exactly the doomed. */
  lemma TopsCoverTheDoomed(entries: map<string, LocalEntry>, skips: set<string>,
                           fold: string -> string, tops: set<string>)
    requires forall q :: q in tops <==> IsTop(entries.Keys, skips, fold, q)
    ensures WithoutSubtrees(entries, tops) == Survivors(entries, skips, fold)
  {
    hide AtOrBeneath, Collides;
    forall p ensures UnderSome(tops, p) <==> Doomed(entries.Keys, skips, fold, p) {
      if Doomed(entries.Keys, skips, fold, p) {
        var q :| AtOrBeneath(q, p) && Collides(entries.Keys, skips, fold, q);
        var top := DoomHasATop(entries.Keys, skips, fold, q);
        AtOrBeneathIsTransitive(top, q, p);
        assert top in tops;
      }
    }
  }

  lemma AtOrBeneathIsTransitive(a: string, b: string, c: string)
    requires AtOrBeneath(a, b) && AtOrBeneath(b, c)
    ensures AtOrBeneath(a, c)
  {
    if a != b { BeneathIsTransitive(a, b, c); }
  }

  lemma PairsReport(entries: set<string>, skipped: seq<SkippedEntry>, fold: string -> string,
                    pairs: seq<Pair>)
    requires forall q :: q in Firsts(pairs) <==> IsTop(entries, SkipPaths(skipped), fold, q)
    requires FirstsDiffer(pairs)
    requires forall pair <- pairs :: IsPair(entries, skipped, fold, pair)
    ensures Reports(entries, skipped, fold, ReportsOf(pairs))
  {
    hide IsTop, RivalOf;
    var reports := ReportsOf(pairs);
    assert forall i | 0 <= i < |pairs| :: reports[i] == ReportOf(pairs[i]);
    assert SkipPaths(reports) == Firsts(pairs) by {
      forall q | q in Firsts(pairs) ensures q in SkipPaths(reports) {
        var i :| 0 <= i < |pairs| && pairs[i].0 == q;
        assert reports[i] in reports;
      }
      forall q | q in SkipPaths(reports) ensures q in Firsts(pairs) {
        var i :| 0 <= i < |reports| && reports[i].relative == q;
        assert pairs[i] in pairs;
      }
    }
    forall report <- reports
      ensures report.relative in entries
      ensures report.reason == LocalCaseCollision(RivalOf(entries, skipped, fold, report.relative))
    {
      var i :| 0 <= i < |reports| && reports[i] == report;
      assert pairs[i] in pairs;
    }
  }

  /** A report names a path, carried or skipped by the walk, that differs from its own and has the
      same fold. */
  lemma ReportsNameACollision(entries: set<string>, skipped: seq<SkippedEntry>, fold: string -> string,
                              reports: seq<SkippedEntry>, report: SkippedEntry)
    requires entries !! SkipPaths(skipped) && Reports(entries, skipped, fold, reports) && report in reports
    ensures report.reason.LocalCaseCollision?
    ensures var other := report.reason.other;
      other in entries + SkipPaths(skipped) && other != report.relative && fold(other) == fold(report.relative)
  {
    hide RivalOf, Collides;
    assert report.relative in SkipPaths(reports);
    RivalCollides(entries, skipped, fold, report.relative);
  }

  /** `skip_portable_case_collisions`: take every colliding spelling out with what is beneath it and
      report the top ones. */
  method SkipPortableCaseCollisions(output: ScanOutput, fold: string -> string)
    returns (ghost reports: seq<SkippedEntry>)
    requires FoldContract(fold) && Closed(output.entries.Keys)
    requires output.entries.Keys !! SkipPaths(output.skipped)
    modifies output
    ensures output.entries == Survivors(old(output.entries), SkipPaths(old(output.skipped)), fold)
    ensures output.skipped == old(output.skipped) + reports
    ensures Reports(old(output.entries.Keys), old(output.skipped), fold, reports)
    ensures output.excluded == old(output.excluded) && output.complete == old(output.complete)
  {
    var pairs := FindColliding(output.entries, output.skipped, fold);
    ghost var entries, skipped := output.entries, output.skipped;
    NothingRemovedYet(entries, pairs);
    hide IsTop, IsPair, FirstsDiffer, Firsts, Survivors;
    for i := 0 to |pairs|
      invariant output.entries == WithoutSubtrees(entries, Firsts(pairs[..i]))
      invariant output.skipped == skipped + ReportsOf(pairs[..i])
      invariant output.excluded == old(output.excluded) && output.complete == old(output.complete)
    {
      RemovingOneMore(entries, pairs, i);
      output.entries := RemoveSubtree(output.entries, pairs[i].0);
      output.skipped := output.skipped + [ReportOf(pairs[i])];
    }
    assert pairs[..|pairs|] == pairs;
    TopsCoverTheDoomed(entries, SkipPaths(skipped), fold, Firsts(pairs));
    PairsReport(entries.Keys, skipped, fold, pairs);
    reports := ReportsOf(pairs);
  }

  lemma NothingRemovedYet(entries: map<string, LocalEntry>, pairs: seq<Pair>)
    ensures WithoutSubtrees(entries, Firsts(pairs[..0])) == entries
    ensures ReportsOf(pairs[..0]) == []
  {
  }

  // ---- The scan ----

  datatype ScopedScan = ScopedScan(
    entries: map<string, LocalEntry>,
    skipped: seq<SkippedEntry>,
    excluded: set<string>,
    complete: bool)

  /** What the walk leaves to the collision pass under a budget. */
  ghost function Walked(c: Context, root: Node, budget: nat): Output
    requires root.Folder?
  {
    var events := WalkEvents(c, root);
    Gather(events[..Cut(events, budget)])
  }

  /** What a scan has to answer. */
  ghost predicate IsScan(c: Context, root: Node, budget: nat, fold: string -> string, r: ScopedScan)
    requires root.Folder?
  {
    var o := Walked(c, root, budget);
    && r.entries == Survivors(o.entries, SkipPaths(o.skipped), fold)
    && r.excluded == o.excluded
    && (r.complete <==> Charges(WalkEvents(c, root)) <= budget)
    && Sorted(r.skipped, SkipAtMost)
    && exists reports ::
         && Reports(o.entries.Keys, o.skipped, fold, reports)
         && multiset(r.skipped) == multiset(o.skipped + reports)
  }

  /** What any walk leaves is closed under parents, its entries and skips are disjoint, and it holds
      no more records than the budget. */
  lemma WalkedIsClosedAndDisjoint(c: Context, root: Node, budget: nat)
    requires root.Folder? && WellNamed(root)
    ensures var o := Walked(c, root, budget);
      && ParentClosed(o.entries) && Closed(o.entries.Keys)
      && o.entries.Keys !! SkipPaths(o.skipped)
      && Play(EMPTY, WalkEvents(c, root), budget)
           == o.(complete := Charges(WalkEvents(c, root)) <= budget)
      && Recorded(o) <= budget
  {
    hide Orderly, FullyRooted, Play, Gather, Cut;
    var events := WalkEvents(c, root);
    var cut := Cut(events, budget);
    WalkIsOrderlyAndRooted(c, root);
    assert FullyRooted(events) by { FullyRootedMeans(events); }
    CutWithin(events, budget);
    OrderlyPrefix(events, cut);
    RootedPrefix(events, cut);
    GatheredIsClosedAndDisjoint(events[..cut]);
    BudgetIsACut(events, budget);
  }

  lemma FullyRootedMeans(events: seq<Event>)
    requires forall j, q | 0 <= j < |events| && events[j].Charged() && Beneath(q, events[j].path) ::
      KeptBefore(events, j, q)
    ensures FullyRooted(events)
  {
  }

  lemma CutWithin(events: seq<Event>, budget: nat)
    ensures Cut(events, budget) <= |events|
  {
  }

  lemma SkipOrderIsTotalPreorder()
    ensures IsTotalPreorder(SkipAtMost)
  {
    AtMostIsTotalPreorder();
  }

  /** `scan_scoped`: fails only when the source root itself cannot be listed. */
  method ScanScoped(c: Context, root: Node, budget: nat, fold: string -> string)
    returns (r: Result<ScopedScan, string>)
    requires root.Folder? || root.LockedFolder?
    requires WellNamed(root) && FoldContract(fold)
    ensures r.Err? <==> root.LockedFolder?
    ensures r.Ok? ==> IsScan(c, root, budget, fold, r.value)
  {
    if root.LockedFolder? {
      return Err(root.detail);
    }
    var output := new ScanOutput();
    ScanDir(c, [], root, budget, output);
    WalkedIsClosedAndDisjoint(c, root, budget);
    ghost var o := Walked(c, root, budget);
    hide Play, WalkEvents, Walked, Survivors;
    assert output.entries == o.entries && output.skipped == o.skipped;
    ghost var reports := SkipPortableCaseCollisions(output, fold);
    SkipOrderIsTotalPreorder();
    SortSorts(output.skipped, SkipAtMost);
    var skipped := Sort(output.skipped, SkipAtMost);
    return Ok(ScopedScan(output.entries, skipped, output.excluded, output.complete));
  }

  // ---- What a budget changes ----

  /** The paths of the reports are counted by the tops they name. */
  lemma {:induction false} DistinctReportsCount(reports: seq<SkippedEntry>)
    requires forall i, j | 0 <= i < j < |reports| :: reports[i].relative != reports[j].relative
    ensures |reports| == |SkipPaths(reports)|
  {
    if reports != [] {
      var n := |reports| - 1;
      DistinctReportsCount(reports[..n]);
      assert reports == reports[..n] + [reports[n]];
      assert SkipPaths(reports) == SkipPaths(reports[..n]) + {reports[n].relative};
      assert reports[n].relative !in SkipPaths(reports[..n]);
    }
  }

  /** A scan never holds more entries and skips than its budget, collision reports and withheld
      folders included; it is complete exactly when the walk's charged events all fit, and what it
      worked on is exactly the events before the first that did not. */
  lemma BudgetBoundsTheScan(c: Context, root: Node, budget: nat, fold: string -> string,
                            r: ScopedScan)
    requires root.Folder? && WellNamed(root) && IsScan(c, root, budget, fold, r)
    ensures |r.entries| + |r.skipped| <= budget
    ensures var events := WalkEvents(c, root);
            var cut := Cut(events, budget);
      && Walked(c, root, budget) == Gather(events[..cut])
      && Charges(events[..cut]) == (if r.complete then Charges(events) else budget)
      && (r.complete <==> cut == |events|)
      && (!r.complete ==> events[cut].Charged())
  {
    hide Play, WalkEvents, Gather, Closed, ParentClosed;
    var o := Walked(c, root, budget);
    var skips := SkipPaths(o.skipped);
    WalkedIsClosedAndDisjoint(c, root, budget);
    CutKeepsWhatFits(WalkEvents(c, root), budget);
    var reports :| Reports(o.entries.Keys, o.skipped, fold, reports)
      && multiset(r.skipped) == multiset(o.skipped + reports);
    assert |r.skipped| == |multiset(r.skipped)| == |o.skipped| + |reports|;
    DistinctReportsCount(reports);
    ReportsReplaceEntries(o.entries, skips, fold, SkipPaths(reports));
    if !r.complete {
      CutStays(WalkEvents(c, root), budget);
    }
  }

  /** Every report stands for an entry that left. */
  lemma ReportsReplaceEntries(entries: map<string, LocalEntry>, skips: set<string>,
                              fold: string -> string, tops: set<string>)
    requires forall q :: q in tops <==> IsTop(entries.Keys, skips, fold, q)
    ensures |Survivors(entries, skips, fold)| + |tops| <= |entries|
  {
    var kept := Survivors(entries, skips, fold).Keys;
    forall q <- tops ensures q in entries.Keys && q !in kept {
      assert IsTop(entries.Keys, skips, fold, q) && AtOrBeneath(q, q);
    }
    assert kept !! tops && kept + tops <= entries.Keys;
    SubsetIsNotLarger(kept + tops, entries.Keys);
    assert |kept + tops| == |kept| + |tops|;
  }

  lemma {:induction false} SubsetIsNotLarger(a: set<string>, b: set<string>)
    requires a <= b
    ensures |a| <= |b|
  {
    assert b == a + (b - a);
  }

  // ---- What a scope changes ----

  ghost function Unscoped(c: Context): Context {
    c.(scope := [])
  }

  lemma ScopedWalkIsRestriction(c: Context, root: Node)
    requires root.Folder? && WellNamed(root)
    ensures WalkEvents(c, root) == Restrict(c.scope, WalkEvents(Unscoped(c), root))
  {
    ScopedChildEvents(c, [], root, SortedKeys(root.children.Keys));
  }

  lemma ScopedEntry(c: Context, root: Node, p: string, entry: LocalEntry)
    requires root.Folder? && WellNamed(root)
    ensures var scoped := Gather(WalkEvents(c, root)).entries;
            var full := Gather(WalkEvents(Unscoped(c), root)).entries;
      (p in scoped && scoped[p] == entry)
        <==> p in full && full[p] == entry && Relevant(c.scope, Keep(p, entry))
  {
    hide Gather, WalkEvents, Orderly, Restrict, InScope, OnScopePath;
    ScopedWalkIsRestriction(c, root);
    WalkIsOrderlyAndRooted(c, root);
    WalkIsOrderlyAndRooted(Unscoped(c), root);
    GatheredEntries(WalkEvents(c, root), p, entry);
    GatheredEntries(WalkEvents(Unscoped(c), root), p, entry);
    KeptInRestriction(c.scope, WalkEvents(Unscoped(c), root), p, entry);
  }

  /** The scoped walk's skips are skips of the full walk, and those in scope are the same. */
  lemma ScopedSkip(c: Context, root: Node, skip: SkippedEntry)
    requires root.Folder? && WellNamed(root)
    ensures var scoped := Gather(WalkEvents(c, root)).skipped;
            var full := Gather(WalkEvents(Unscoped(c), root)).skipped;
      && (skip in scoped ==> skip in full)
      && (InScope(c.scope, skip.relative) ==> (skip in scoped <==> skip in full))
  {
    hide Gather, WalkEvents, Restrict, InScope, OnScopePath;
    var full := WalkEvents(Unscoped(c), root);
    ScopedWalkIsRestriction(c, root);
    GatheredSkips(WalkEvents(c, root), skip);
    GatheredSkips(full, skip);
    RestrictKeepsMembers(c.scope, full, Decline(skip.relative, skip.reason));
    RestrictKeepsMembers(c.scope, full, DeclineUntimed(skip.relative, skip.reason));
    RestrictKeepsMembers(c.scope, full, Withhold(skip.relative, skip.reason));
  }

  /** The scoped walk's entries are exactly the full walk's that are in scope or are folders on the
      way to it. Its skips are among the full walk's, and no skip in scope is missing. */
  lemma ScopedEntriesAreTheRelevantOnes(c: Context, root: Node)
    requires root.Folder? && WellNamed(root)
    ensures var scoped := Gather(WalkEvents(c, root));
            var full := Gather(WalkEvents(Unscoped(c), root));
      && (forall p :: p in scoped.entries <==>
            && p in full.entries
            && (InScope(c.scope, p) || (OnScopePath(c.scope, p) && full.entries[p].kind.Directory?)))
      && (forall p <- scoped.entries :: p in full.entries && scoped.entries[p] == full.entries[p])
      && (forall skip <- scoped.skipped :: skip in full.skipped)
      && (forall skip: SkippedEntry | InScope(c.scope, skip.relative) ::
            skip in scoped.skipped <==> skip in full.skipped)
  {
    hide Gather, WalkEvents, InScope, OnScopePath;
    var scoped, full := Gather(WalkEvents(c, root)), Gather(WalkEvents(Unscoped(c), root));
    forall p
      ensures p in scoped.entries <==>
        && p in full.entries
        && (InScope(c.scope, p) || (OnScopePath(c.scope, p) && full.entries[p].kind.Directory?))
      ensures p in scoped.entries ==> scoped.entries[p] == full.entries[p]
    {
      if p in scoped.entries { ScopedEntry(c, root, p, scoped.entries[p]); }
      if p in full.entries { ScopedEntry(c, root, p, full.entries[p]); }
    }
    forall skip: SkippedEntry
      ensures skip in scoped.skipped ==> skip in full.skipped
      ensures InScope(c.scope, skip.relative) ==> (skip in scoped.skipped <==> skip in full.skipped)
    {
      ScopedSkip(c, root, skip);
    }
  }

  /** What the full walk saw and the scoped walk did not lies outside the scope. */
  lemma UnseenIsOutside(c: Context, root: Node, r: string)
    requires root.Folder? && WellNamed(root)
    requires r in Seen(Gather(WalkEvents(Unscoped(c), root))) && r !in Seen(Gather(WalkEvents(c, root)))
    ensures !InScope(c.scope, r)
  {
    hide Gather, WalkEvents, InScope, OnScopePath;
    var full := Gather(WalkEvents(Unscoped(c), root));
    ScopedEntriesAreTheRelevantOnes(c, root);
    if r in SkipPaths(full.skipped) {
      var skip :| skip in full.skipped && skip.relative == r;
      ScopedSkip(c, root, skip);
    }
  }

  lemma KeptInRestriction(scope: string, events: seq<Event>, p: string, entry: LocalEntry)
    requires Orderly(events)
    ensures KeptIn(Restrict(scope, events), p, entry)
        <==> KeptIn(events, p, entry) && Relevant(scope, Keep(p, entry))
  {
    hide Restrict, InScope, OnScopePath;
    var restricted := Restrict(scope, events);
    RestrictKeepsMembers(scope, events, Keep(p, entry));
    if i :| 0 <= i < |restricted| && restricted[i].Withhold? && restricted[i].path == p {
      RestrictKeepsMembers(scope, events, restricted[i]);
      var j :| 0 <= j < |events| && events[j] == restricted[i];
    }
    if Relevant(scope, Keep(p, entry)) {
      if j :| 0 <= j < |events| && events[j].Withhold? && events[j].path == p {
        RestrictKeepsMembers(scope, events, events[j]);
        var i :| 0 <= i < |restricted| && restricted[i] == events[j];
      }
    }
  }

  /** A complete scoped scan still carries every relevant entry that a complete full scan carries;
      what it carries beyond that collides, itself or through a folder above it, with a path of the
      full walk outside the scope. */
  lemma ScopedScanAgainstFull(c: Context, root: Node, scopedBudget: nat, fullBudget: nat,
                              fold: string -> string, scoped: ScopedScan, full: ScopedScan)
    requires root.Folder? && WellNamed(root)
    requires IsScan(c, root, scopedBudget, fold, scoped) && scoped.complete
    requires IsScan(Unscoped(c), root, fullBudget, fold, full) && full.complete
    ensures forall p <- full.entries
        | InScope(c.scope, p) || (OnScopePath(c.scope, p) && full.entries[p].kind.Directory?) ::
      p in scoped.entries && scoped.entries[p] == full.entries[p]
    ensures forall p <- scoped.entries | p !in full.entries ::
      CollidesOutside(c, root, fold, p)
  {
    hide Gather, WalkEvents, InScope, OnScopePath, Doomed, Collides;
    var some, all := Gather(WalkEvents(c, root)), Gather(WalkEvents(Unscoped(c), root));
    CompleteWalk(c, root, scopedBudget);
    CompleteWalk(Unscoped(c), root, fullBudget);
    ScopedEntriesAreTheRelevantOnes(c, root);
    forall p <- full.entries
        | InScope(c.scope, p) || (OnScopePath(c.scope, p) && full.entries[p].kind.Directory?)
      ensures p in scoped.entries && scoped.entries[p] == full.entries[p]
    {
      SurvivorsShrinkWithRivals(all.entries, SkipPaths(all.skipped), some.entries,
                                SkipPaths(some.skipped), fold, p);
    }
    forall p <- scoped.entries | p !in full.entries ensures CollidesOutside(c, root, fold, p) {
      ExtraCollidesOutside(c, root, fold, p);
    }
  }

  lemma CompleteWalk(c: Context, root: Node, budget: nat)
    requires root.Folder? && Charges(WalkEvents(c, root)) <= budget
    ensures Walked(c, root, budget) == Gather(WalkEvents(c, root))
  {
    var events := WalkEvents(c, root);
    assert events[..|events|] == events;
  }

  /** All paths a walk recorded, carried or not. */
  ghost function Seen(o: Output): set<string> {
    o.entries.Keys + SkipPaths(o.skipped)
  }

  /** An entry of the scoped walk at or above the path collides with a path of the full walk that
      lies outside the scope. */
  ghost predicate CollidesOutside(c: Context, root: Node, fold: string -> string, p: string)
    requires root.Folder?
  {
    exists q, r :: AtOrBeneath(q, p) && q in Gather(WalkEvents(c, root)).entries
      && q != r && fold(q) == fold(r)
      && r in Seen(Gather(WalkEvents(Unscoped(c), root))) && !InScope(c.scope, r)
  }

  lemma ExtraCollidesOutside(c: Context, root: Node, fold: string -> string, p: string)
    requires root.Folder? && WellNamed(root)
    requires var some := Gather(WalkEvents(c, root));
             var all := Gather(WalkEvents(Unscoped(c), root));
      && p in all.entries
      && p in Survivors(some.entries, SkipPaths(some.skipped), fold)
      && p !in Survivors(all.entries, SkipPaths(all.skipped), fold)
    ensures CollidesOutside(c, root, fold, p)
  {
    hide Gather, WalkEvents;
    var some, all := Gather(WalkEvents(c, root)), Gather(WalkEvents(Unscoped(c), root));
    var q :| AtOrBeneath(q, p) && Collides(all.entries.Keys, SkipPaths(all.skipped), fold, q);
    var r :| r in all.entries.Keys + SkipPaths(all.skipped) && r != q && fold(r) == fold(q);
    assert !Collides(some.entries.Keys, SkipPaths(some.skipped), fold, q);
    assert q in some.entries by {
      EntriesOfWalkAreClosed(c, root);
    }
    assert r !in Seen(some);
    UnseenIsOutside(c, root, r);
  }

  lemma EntriesOfWalkAreClosed(c: Context, root: Node)
    requires root.Folder? && WellNamed(root)
    ensures Closed(Gather(WalkEvents(c, root)).entries.Keys)
  {
    var budget := Charges(WalkEvents(c, root));
    CompleteWalk(c, root, budget);
    WalkedIsClosedAndDisjoint(c, root, budget);
  }

  // ---- The answer is determined ----

  /** A report occurs once if its path is a top colliding spelling and it names its rival, and not at
      all otherwise. */
  lemma ReportsAreCounted(entries: set<string>, skipped: seq<SkippedEntry>, fold: string -> string,
                          reports: seq<SkippedEntry>, x: SkippedEntry)
    requires Reports(entries, skipped, fold, reports)
    ensures multiset(reports)[x]
         == if IsTop(entries, SkipPaths(skipped), fold, x.relative)
               && x.relative in entries
               && x.reason == LocalCaseCollision(RivalOf(entries, skipped, fold, x.relative)) then 1 else 0
  {
    hide IsTop, RivalOf;
    if x in reports {
      var i :| 0 <= i < |reports| && reports[i] == x;
      OneAside(reports, i);
      assert x !in reports[..i] + reports[i + 1..];
      assert x.relative in SkipPaths(reports);
    } else if x.relative in SkipPaths(reports) {
      var y :| y in reports && y.relative == x.relative;
    }
  }

  lemma ReportsAreDetermined(entries: set<string>, skipped: seq<SkippedEntry>, fold: string -> string,
                             a: seq<SkippedEntry>, b: seq<SkippedEntry>)
    requires Reports(entries, skipped, fold, a) && Reports(entries, skipped, fold, b)
    ensures multiset(a) == multiset(b)
  {
    forall x ensures multiset(a)[x] == multiset(b)[x] {
      ReportsAreCounted(entries, skipped, fold, a, x);
      ReportsAreCounted(entries, skipped, fold, b, x);
    }
  }

  /** Every path of a scan's skips is skipped for one reason. */
  lemma SkipsTellApart(c: Context, root: Node, budget: nat, fold: string -> string, reports: seq<SkippedEntry>)
    requires root.Folder? && WellNamed(root)
    requires var o := Walked(c, root, budget); Reports(o.entries.Keys, o.skipped, fold, reports)
    ensures Distinguishes(SkipAtMost, Walked(c, root, budget).skipped + reports)
  {
    hide IsTop, RivalOf, Gather, Orderly;
    var o := Walked(c, root, budget);
    var events := WalkEvents(c, root);
    WalkedIsClosedAndDisjoint(c, root, budget);
    WalkIsOrderlyAndRooted(c, root);
    CutWithin(events, budget);
    OrderlyPrefix(events, Cut(events, budget));
    forall x, y | x in o.skipped + reports && y in o.skipped + reports && SkipAtMost(x, y) && SkipAtMost(y, x)
      ensures x == y
    {
      assert x.relative == y.relative by {
        if x.relative != y.relative { LessIsAsymmetric(x.relative, y.relative); }
      }
      if x in o.skipped && y in o.skipped {
        OneSkipPerPath(events[..Cut(events, budget)], x, y);
      } else {
        assert x in o.skipped ==> x.relative in SkipPaths(o.skipped);
        assert y in o.skipped ==> y.relative in SkipPaths(o.skipped);
        SamePathSameReport(o.entries.Keys, o.skipped, fold, reports, x, y);
      }
    }
  }

  lemma SamePathSameReport(entries: set<string>, skipped: seq<SkippedEntry>, fold: string -> string,
                           reports: seq<SkippedEntry>, x: SkippedEntry, y: SkippedEntry)
    requires Reports(entries, skipped, fold, reports) && x.relative == y.relative
    requires x in skipped + reports && y in skipped + reports && !(x in skipped && y in skipped)
    requires entries !! SkipPaths(skipped)
    ensures x == y
  {
    hide IsTop, RivalOf;
    assert x in skipped ==> x.relative in SkipPaths(skipped);
    assert y in skipped ==> y.relative in SkipPaths(skipped);
    assert x in reports ==> x.relative in entries;
    assert y in reports ==> y.relative in entries;
  }

  /** The scan of a tree is determined, whatever order its folders are listed in: every entry, every
      skip with its reason and its place, every excluded path, and the completeness. */
  lemma ScanIsDetermined(c: Context, root: Node, budget: nat, fold: string -> string,
                         r: ScopedScan, s: ScopedScan)
    requires root.Folder? && WellNamed(root)
    requires IsScan(c, root, budget, fold, r) && IsScan(c, root, budget, fold, s)
    ensures r == s
  {
    hide Walked, Survivors, Reports, WellNamed;
    var o := Walked(c, root, budget);
    var a :| Reports(o.entries.Keys, o.skipped, fold, a) && multiset(r.skipped) == multiset(o.skipped + a);
    var b :| Reports(o.entries.Keys, o.skipped, fold, b) && multiset(s.skipped) == multiset(o.skipped + b);
    ReportsAreDetermined(o.entries.Keys, o.skipped, fold, a, b);
    SkipsTellApart(c, root, budget, fold, a);
    SortedSkipsAgree(o.skipped + a, r.skipped, s.skipped);
  }

  lemma SortedSkipsAgree(all: seq<SkippedEntry>, r: seq<SkippedEntry>, s: seq<SkippedEntry>)
    requires Distinguishes(SkipAtMost, all) && multiset(r) == multiset(all) == multiset(s)
    requires Sorted(r, SkipAtMost) && Sorted(s, SkipAtMost)
    ensures r == s
  {
    SkipOrderIsTotalPreorder();
    hide SkipAtMost, Sorted, IsTotalPreorder;
    assert forall x :: x in r <==> x in multiset(r);
    assert forall x :: x in all <==> x in multiset(all);
    SortedOrderIsUnique(r, s, SkipAtMost);
  }

  // ---- What a finished scan is safe for ----

  lemma PathsOfReportsAreTops(entries: set<string>, skipped: seq<SkippedEntry>, fold: string -> string,
                              reports: seq<SkippedEntry>, report: SkippedEntry)
    requires Reports(entries, skipped, fold, reports)
    ensures report in reports ==> IsTop(entries, SkipPaths(skipped), fold, report.relative)
  {
    hide IsTop, RivalOf;
    assert report in reports ==> report.relative in SkipPaths(reports);
  }

  /** In a finished scan no two entries share a fold, no entry is also skipped, and no entry, nor any
      folder above one, has the fold of a skipped path, reported collisions included. */
  lemma ScanIsSafe(c: Context, root: Node, budget: nat, fold: string -> string, r: ScopedScan)
    requires root.Folder? && WellNamed(root) && FoldContract(fold) && IsScan(c, root, budget, fold, r)
    ensures forall p, q | p in r.entries && q in r.entries && fold(p) == fold(q) :: p == q
    ensures forall p, a, skip | p in r.entries && AtOrBeneath(a, p) && skip in r.skipped ::
      fold(a) != fold(skip.relative)
    ensures Disjoint(r.entries, r.skipped)
  {
    hide Walked, Doomed, FoldContract, Reports, Less;
    var o := Walked(c, root, budget);
    var skips := SkipPaths(o.skipped);
    WalkedIsClosedAndDisjoint(c, root, budget);
    forall p, q | p in r.entries && q in r.entries && fold(p) == fold(q) ensures p == q {
      SurvivorsHaveOwnFolds(o.entries, skips, fold, p, q);
    }
    var reports :| Reports(o.entries.Keys, o.skipped, fold, reports)
      && multiset(r.skipped) == multiset(o.skipped + reports);
    forall p, a, skip | p in r.entries && AtOrBeneath(a, p) && skip in r.skipped
      ensures fold(a) != fold(skip.relative)
    {
      assert skip in multiset(r.skipped) && skip in multiset(o.skipped + reports);
      assert skip in o.skipped ==> skip.relative in skips;
      assert skip in reports ==> IsTop(o.entries.Keys, skips, fold, skip.relative) by {
        PathsOfReportsAreTops(o.entries.Keys, o.skipped, fold, reports, skip);
      }
      SurvivorsAreUnshielded(o.entries, skips, fold, p, a, skip.relative);
    }
    forall skip <- r.skipped ensures skip.relative !in r.entries {
      assert AtOrBeneath(skip.relative, skip.relative);
    }
  }
}
