/** What a walk's events add up to: closed and disjoint entries, and the budget as an exact cut. */
module WalkOutcome {
  import opened Strings
  import opened Ordered
  import opened Inventory
  import opened SourceWalk

  // ---- The order of a walk's events ----

  /** Later charged events never concern a path at or above an earlier one, nothing at or beneath
      a withheld folder comes after it, and a folder is withheld right after it was kept. */
  ghost predicate Orderly(events: seq<Event>) {
    && (forall i, j | 0 <= i < j < |events| && events[i].Charged() && events[j].Charged() ::
          !AtOrBeneath(events[j].path, events[i].path))
    && (forall i, j | 0 <= i < j < |events| && events[i].Withhold? && events[j].Charged() ::
          !AtOrBeneath(events[i].path, events[j].path))
    && (forall i | 0 <= i < |events| && events[i].Withhold? ::
          i > 0 && events[i - 1] == Keep(events[i].path, FOLDER_ENTRY))
  }

  /** Every folder above a charged path, from `base` down, was kept before it. */
  ghost predicate Rooted(base: string, events: seq<Event>) {
    forall j, q | 0 <= j < |events| && events[j].Charged() && Below(base, q)
        && Beneath(q, events[j].path) ::
      KeptBefore(events, j, q)
  }

  /** At or beneath `base`; any path at all when `base` is the source root. */
  predicate Below(base: string, q: string) {
    base == [] || AtOrBeneath(base, q)
  }

  ghost predicate KeptBefore(events: seq<Event>, j: int, q: string)
    requires 0 <= j <= |events|
  {
    exists i :: 0 <= i < j && events[i] == Keep(q, FOLDER_ENTRY)
  }

  /** No path of one lies at or beneath a path of the other. */
  ghost predicate Apart(a: seq<Event>, b: seq<Event>) {
    forall e <- a, f <- b :: !AtOrBeneath(e.path, f.path) && !AtOrBeneath(f.path, e.path)
  }

  lemma OrderlyConcat(a: seq<Event>, b: seq<Event>)
    requires Orderly(a) && Orderly(b) && Apart(a, b)
    ensures Orderly(a + b)
  {
    var all := a + b;
    forall i, j | 0 <= i < j < |all| && i < |a| <= j
      ensures !AtOrBeneath(all[j].path, all[i].path) && !AtOrBeneath(all[i].path, all[j].path)
    {
      assert all[i] in a && all[j] in b;
    }
    forall i | 0 <= i < |all| && all[i].Withhold?
      ensures i > 0 && all[i - 1] == Keep(all[i].path, FOLDER_ENTRY)
    {
      if i >= |a| { assert b[i - |a|].Withhold?; }
    }
  }

  lemma OrderlyUnderFolder(path: string, events: seq<Event>)
    requires Orderly(events) && path != [] && AllBeneath(path, events)
    ensures Orderly([Keep(path, FOLDER_ENTRY)] + events)
  {
    var all := [Keep(path, FOLDER_ENTRY)] + events;
    forall j | 0 < j < |all| ensures !AtOrBeneath(all[j].path, path) {
      assert all[j] in events;
    }
    forall i | 0 <= i < |all| && all[i].Withhold?
      ensures i > 0 && all[i - 1] == Keep(all[i].path, FOLDER_ENTRY)
    {
      assert events[i - 1].Withhold?;
    }
  }

  /** Different names of one folder have nothing at or beneath one another. */
  lemma SiblingsAreApart(parent: string, a: string, b: string, p: string, q: string)
    requires Slashless(a) && Slashless(b) && a != b && a != [] && b != []
    requires AtOrBeneath(Child(parent, a), p) && AtOrBeneath(Child(parent, b), q)
    ensures !AtOrBeneath(p, q) && !AtOrBeneath(q, p)
  {
    if AtOrBeneath(p, q) {
      MeetInOneChild(parent, a, b, p, q);
    }
    if AtOrBeneath(q, p) {
      MeetInOneChild(parent, b, a, q, p);
    }
  }

  lemma MeetInOneChild(parent: string, a: string, b: string, p: string, q: string)
    requires Slashless(a) && Slashless(b) && a != [] && b != []
    requires AtOrBeneath(Child(parent, a), p) && AtOrBeneath(Child(parent, b), q)
    requires AtOrBeneath(p, q)
    ensures a == b
  {
    var ca, cb := Child(parent, a), Child(parent, b);
    if p != q && ca != p { BeneathIsTransitive(ca, p, q); }
    assert AtOrBeneath(ca, q);
    AncestorsAreNested(ca, cb, q);
    if Beneath(ca, cb) {
      SlashInInnerName(parent, a, b);
    } else if Beneath(cb, ca) {
      SlashInInnerName(parent, b, a);
    } else {
      var n := if parent == [] then 0 else |parent| + 1;
      assert ca[n..] == a && cb[n..] == b;
    }
  }

  lemma SlashInInnerName(parent: string, outer: string, inner: string)
    requires Beneath(Child(parent, outer), Child(parent, inner))
    ensures '/' in inner
  {
    var n := if parent == [] then 0 else |parent| + 1;
    var at := |Child(parent, outer)|;
    assert Child(parent, inner)[at] == inner[at - n] == '/';
  }

  /** What lies strictly above a child is its parent or lies above that. */
  lemma AboveChild(parent: string, name: string, q: string)
    requires Beneath(q, Child(parent, name))
    ensures Slashless(name) ==> parent != [] && AtOrBeneath(q, parent)
  {
    var child := Child(parent, name);
    assert child[|q|] == '/';
    if parent == [] || |q| > |parent| {
      assert child[|q|] in name;
    } else if |q| < |parent| {
      assert q + "/" == child[..|q| + 1] == parent[..|q| + 1];
    } else {
      assert q == child[..|q|] == parent;
    }
  }

  lemma {:induction false} NodeEventsAreOrderly(c: Context, path: string, node: Node)
    requires path != [] && WellNamed(node)
    ensures Orderly(NodeEvents(c, path, node))
    decreases node, 1
  {
    hide Judge;
    if Judge(c, path, node).Admitted? && node.Folder? {
      var names := SortedKeys(node.children.Keys);
      ChildEventsAreOrderly(c, path, node, names);
      ChildEventsAreBeneath(c, path, node, names);
      OrderlyUnderFolder(path, ChildEvents(c, path, node, names));
    }
  }

  lemma {:induction false} ChildEventsAreOrderly(c: Context, parent: string, node: Node,
                                                 names: seq<string>)
    requires node.Folder? && WellNamed(node) && StrictlySorted(names)
    requires forall name <- names :: name in node.children
    ensures Orderly(ChildEvents(c, parent, node, names))
    decreases node, 0, |names|
  {
    if names != [] {
      var n := |names| - 1;
      var last := names[n];
      var front := ChildEvents(c, parent, node, names[..n]);
      var events := NodeEvents(c, Child(parent, last), node.children[last]);
      ChildEventsAreOrderly(c, parent, node, names[..n]);
      NodeEventsAreOrderly(c, Child(parent, last), node.children[last]);
      ChildrenAreApart(c, parent, node, names);
      OrderlyConcat(front, events);
    }
  }

  /** Each event of some children belongs to one of them. */
  lemma {:induction false} EventOfSomeChild(c: Context, parent: string, node: Node,
                                            names: seq<string>, e: Event)
    requires node.Folder? && WellNamed(node) && forall name <- names :: name in node.children
    requires e in ChildEvents(c, parent, node, names)
    ensures exists name <- names :: AtOrBeneath(Child(parent, name), e.path)
  {
    var n := |names| - 1;
    var last := names[n];
    if e in ChildEvents(c, parent, node, names[..n]) {
      EventOfSomeChild(c, parent, node, names[..n], e);
      var name :| name in names[..n] && AtOrBeneath(Child(parent, name), e.path);
      assert name in names;
    } else {
      NodeEventsAreBeneath(c, Child(parent, last), node.children[last]);
    }
  }

  lemma ChildrenAreApart(c: Context, parent: string, node: Node, names: seq<string>)
    requires node.Folder? && WellNamed(node) && StrictlySorted(names) && names != []
    requires forall name <- names :: name in node.children
    ensures var n := |names| - 1;
      Apart(ChildEvents(c, parent, node, names[..n]),
            NodeEvents(c, Child(parent, names[n]), node.children[names[n]]))
  {
    hide NodeEvents, ChildEvents, Less;
    var n := |names| - 1;
    var last := names[n];
    NodeEventsAreBeneath(c, Child(parent, last), node.children[last]);
    forall e <- ChildEvents(c, parent, node, names[..n]),
           f <- NodeEvents(c, Child(parent, last), node.children[last])
      ensures !AtOrBeneath(e.path, f.path) && !AtOrBeneath(f.path, e.path)
    {
      EventOfSomeChild(c, parent, node, names[..n], e);
      var name :| name in names[..n] && AtOrBeneath(Child(parent, name), e.path);
      var i :| 0 <= i < n && names[i] == name;
      LessIsAsymmetric(name, last);
      SiblingsAreApart(parent, name, last, e.path, f.path);
    }
  }

  lemma {:induction false} NodeEventsAreRooted(c: Context, path: string, node: Node)
    requires path != [] && WellNamed(node)
    ensures Rooted(path, NodeEvents(c, path, node))
    decreases node, 1
  {
    hide Judge;
    var events := NodeEvents(c, path, node);
    if Judge(c, path, node).Admitted? && node.Folder? {
      var names := SortedKeys(node.children.Keys);
      var below := ChildEvents(c, path, node, names);
      ChildEventsAreRooted(c, path, node, names);
      RootedUnderFolder(path, below);
      hide Rooted;
      assert events == [Keep(path, FOLDER_ENTRY)] + below;
    }
  }

  lemma RootedUnderFolder(path: string, below: seq<Event>)
    requires RootedBeneath(path, below)
    ensures Rooted(path, [Keep(path, FOLDER_ENTRY)] + below)
  {
    var events := [Keep(path, FOLDER_ENTRY)] + below;
    forall j, q | 0 <= j < |events| && events[j].Charged() && Below(path, q)
        && Beneath(q, events[j].path)
      ensures KeptBefore(events, j, q)
    {
      if q == path {
        assert events[0] == Keep(q, FOLDER_ENTRY) && j > 0;
      } else if j > 0 {
        assert events[j] == below[j - 1] && KeptBefore(below, j - 1, q);
        var i :| 0 <= i < j - 1 && below[i] == Keep(q, FOLDER_ENTRY);
        assert events[i + 1] == Keep(q, FOLDER_ENTRY);
      }
    }
  }

  /** As `Rooted`, but for the folders strictly beneath the parent, which the children keep. */
  ghost predicate RootedBeneath(parent: string, events: seq<Event>) {
    forall j, q | 0 <= j < |events| && events[j].Charged() && Below(parent, q) && q != parent
        && Beneath(q, events[j].path) ::
      KeptBefore(events, j, q)
  }

  lemma {:induction false} ChildEventsAreRooted(c: Context, parent: string, node: Node,
                                                names: seq<string>)
    requires node.Folder? && WellNamed(node) && forall name <- names :: name in node.children
    ensures RootedBeneath(parent, ChildEvents(c, parent, node, names))
    decreases node, 0, |names|
  {
    if names != [] {
      var n := |names| - 1;
      var last := names[n];
      var child := Child(parent, last);
      var front := ChildEvents(c, parent, node, names[..n]);
      var events := NodeEvents(c, child, node.children[last]);
      ChildEventsAreRooted(c, parent, node, names[..n]);
      NodeEventsAreRooted(c, child, node.children[last]);
      NodeEventsAreBeneath(c, child, node.children[last]);
      RootedConcat(parent, last, front, events);
    }
  }

  lemma RootedConcat(parent: string, name: string, front: seq<Event>, events: seq<Event>)
    requires Slashless(name) && name != []
    requires RootedBeneath(parent, front) && Rooted(Child(parent, name), events)
    requires AllAtOrBeneath(Child(parent, name), events)
    ensures RootedBeneath(parent, front + events)
  {
    var all, child := front + events, Child(parent, name);
    forall j, q | 0 <= j < |all| && all[j].Charged() && Below(parent, q) && q != parent
        && Beneath(q, all[j].path)
      ensures KeptBefore(all, j, q)
    {
      if j < |front| {
        assert KeptBefore(front, j, q);
        var i :| 0 <= i < j && front[i] == Keep(q, FOLDER_ENTRY);
        assert all[i] == Keep(q, FOLDER_ENTRY);
      } else {
        var e := events[j - |front|];
        assert e in events && all[j] == e;
        AncestorsAreNested(child, q, e.path);
        if Beneath(q, child) {
          AboveChild(parent, name, q);
          AboveAndBelow(parent, q);
        }
        assert Below(child, q) && KeptBefore(events, j - |front|, q);
        var i :| 0 <= i < j - |front| && events[i] == Keep(q, FOLDER_ENTRY);
        assert all[|front| + i] == Keep(q, FOLDER_ENTRY);
      }
    }
  }

  lemma AboveAndBelow(parent: string, q: string)
    requires parent != [] && AtOrBeneath(q, parent) && AtOrBeneath(parent, q)
    ensures q == parent
  {
  }

  /** The events of every walk are in order, and every folder above a charged path was kept first. */
  lemma WalkIsOrderlyAndRooted(c: Context, root: Node)
    requires root.Folder? && WellNamed(root)
    ensures Orderly(WalkEvents(c, root))
    ensures forall j, q | 0 <= j < |WalkEvents(c, root)| && WalkEvents(c, root)[j].Charged()
        && Beneath(q, WalkEvents(c, root)[j].path) ::
      KeptBefore(WalkEvents(c, root), j, q)
  {
    var names := SortedKeys(root.children.Keys);
    ChildEventsAreOrderly(c, [], root, names);
    ChildEventsAreRooted(c, [], root, names);
    var events := WalkEvents(c, root);
    forall j, q | 0 <= j < |events| && events[j].Charged() && Beneath(q, events[j].path)
      ensures KeptBefore(events, j, q)
    {
      EventOfSomeChild(c, [], root, names, events[j]);
      var name :| name in names && AtOrBeneath(Child([], name), events[j].path);
      assert events[j].path[0] == name[0] && name[0] in name;
      assert q != [];
    }
  }

  // ---- What is gathered ----

  ghost predicate WithheldIn(events: seq<Event>, path: string) {
    exists i :: 0 <= i < |events| && events[i].Withhold? && events[i].path == path
  }

  ghost predicate KeptIn(events: seq<Event>, path: string, entry: LocalEntry) {
    Keep(path, entry) in events && !WithheldIn(events, path)
  }

  lemma OrderlyPrefix(events: seq<Event>, n: nat)
    requires Orderly(events) && n <= |events|
    ensures Orderly(events[..n])
  {
    assert forall i | 0 <= i < n :: events[..n][i] == events[i];
  }

  /** The walk's entries are exactly what was kept and not withheld. */
  lemma {:induction false} GatheredEntries(events: seq<Event>, path: string, entry: LocalEntry)
    requires Orderly(events)
    ensures (path in Gather(events).entries && Gather(events).entries[path] == entry)
        <==> KeptIn(events, path, entry)
  {
    if events != [] {
      var n := |events| - 1;
      OrderlyPrefix(events, n);
      GatheredEntries(events[..n], path, entry);
      KeptInOneMore(events, path, entry);
      hide Orderly, KeptIn;
    }
  }

  lemma KeptInOneMore(events: seq<Event>, path: string, entry: LocalEntry)
    requires Orderly(events) && events != []
    ensures var front, last := events[..|events| - 1], events[|events| - 1];
      KeptIn(events, path, entry) <==>
        if last.Keep? && last.path == path then entry == last.entry
        else KeptIn(front, path, entry) && (last.Withhold? ==> !AtOrBeneath(last.path, path))
  {
    var n := |events| - 1;
    var front, last := events[..n], events[n];
    WithheldInOneMore(events, path);
    assert events == front + [last];
    if last.Keep? {
      NotYetMentioned(events, n);
    } else if last.Withhold? {
      NothingBeneathWithheld(events, n);
    }
  }

  lemma WithheldInOneMore(events: seq<Event>, path: string)
    requires events != []
    ensures var front, last := events[..|events| - 1], events[|events| - 1];
      WithheldIn(events, path) <==> WithheldIn(front, path) || (last.Withhold? && last.path == path)
  {
    var front := events[..|events| - 1];
    if i :| 0 <= i < |front| && front[i].Withhold? && front[i].path == path {
      assert events[i].Withhold? && events[i].path == path;
    }
  }

  /** A path is charged once, and not after it was withheld. */
  lemma NotYetMentioned(events: seq<Event>, n: nat)
    requires Orderly(events) && n < |events| && events[n].Charged()
    ensures !WithheldIn(events[..n + 1], events[n].path)
    ensures !WithheldIn(events[..n], events[n].path)
    ensures forall e <- events[..n] | e.Charged() :: e.path != events[n].path
  {
    forall i | 0 <= i < n && events[i].Withhold? ensures events[i].path != events[n].path {
    }
    forall e <- events[..n] | e.Charged() ensures e.path != events[n].path {
      var i :| 0 <= i < n && events[i] == e;
    }
  }

  /** Before a folder is withheld nothing beneath it was charged, and only it leaves. */
  lemma NothingBeneathWithheld(events: seq<Event>, n: nat)
    requires Orderly(events) && n < |events| && events[n].Withhold?
    ensures n > 0 && events[n - 1] == Keep(events[n].path, FOLDER_ENTRY)
    ensures forall e <- events[..n] | e.Charged() && AtOrBeneath(events[n].path, e.path) ::
      e == events[n - 1]
  {
    forall e <- events[..n] | e.Charged() && AtOrBeneath(events[n].path, e.path)
      ensures e == events[n - 1]
    {
      var i :| 0 <= i < n && events[i] == e;
      assert i < n - 1 ==> !AtOrBeneath(events[n - 1].path, events[i].path);
    }
  }

  /** The event records this skip. */
  predicate Skips(e: Event, skip: SkippedEntry) {
    (e.Decline? || e.DeclineUntimed? || e.Withhold?) && e.path == skip.relative && e.reason == skip.reason
  }

  ghost predicate SkippedIn(events: seq<Event>, skip: SkippedEntry) {
    || Decline(skip.relative, skip.reason) in events
    || DeclineUntimed(skip.relative, skip.reason) in events
    || Withhold(skip.relative, skip.reason) in events
  }

  lemma {:induction false} GatheredSkips(events: seq<Event>, skip: SkippedEntry)
    ensures skip in Gather(events).skipped <==> SkippedIn(events, skip)
  {
    if events != [] {
      var n := |events| - 1;
      GatheredSkips(events[..n], skip);
      assert events == events[..n] + [events[n]];
    }
  }

  lemma PlaceOfSkip(events: seq<Event>, skip: SkippedEntry) returns (i: nat)
    requires skip in Gather(events).skipped
    ensures i < |events| && Skips(events[i], skip)
  {
    GatheredSkips(events, skip);
    i :| i < |events| && events[i] in {Decline(skip.relative, skip.reason),
                                       DeclineUntimed(skip.relative, skip.reason),
                                       Withhold(skip.relative, skip.reason)};
  }

  /** A walk skips a path at most once. */
  lemma OneSkipPerPath(events: seq<Event>, x: SkippedEntry, y: SkippedEntry)
    requires Orderly(events) && x.relative == y.relative
    requires x in Gather(events).skipped && y in Gather(events).skipped
    ensures x == y
  {
    hide Orderly, Gather;
    var i := PlaceOfSkip(events, x);
    var j := PlaceOfSkip(events, y);
    if i < j { SkipIsTheOnlyRecord(events, i, j, x); }
    if j < i { SkipIsTheOnlyRecord(events, j, i, y); }
  }

  lemma SkipIsTheOnlyRecord(events: seq<Event>, i: nat, j: nat, skip: SkippedEntry)
    requires Orderly(events) && i < j < |events| && Skips(events[i], skip)
    ensures events[j].Charged() || events[j].Withhold? ==> events[j].path != skip.relative
  {
    if events[j].Withhold? && events[j].path == skip.relative {
      assert events[j - 1] == Keep(events[j].path, FOLDER_ENTRY);
      assert i < j - 1;
      assert AtOrBeneath(events[j - 1].path, events[i].path);
    } else if events[j].Charged() && events[j].path == skip.relative {
      assert AtOrBeneath(events[j].path, events[i].path);
    }
  }

  /** Every folder above an entry is an entry too, and a folder. */
  ghost predicate ParentClosed(entries: map<string, LocalEntry>) {
    forall p, q | p in entries && Beneath(q, p) :: q in entries && entries[q].kind.Directory?
  }

  /** No path is both an entry and a skip. */
  ghost predicate Disjoint(entries: map<string, LocalEntry>, skipped: seq<SkippedEntry>) {
    forall skip <- skipped :: skip.relative !in entries
  }

  ghost predicate FullyRooted(events: seq<Event>) {
    forall j, q | 0 <= j < |events| && events[j].Charged() && Beneath(q, events[j].path) ::
      KeptBefore(events, j, q)
  }

  lemma RootedPrefix(events: seq<Event>, n: nat)
    requires FullyRooted(events) && n <= |events|
    ensures FullyRooted(events[..n])
  {
    var front := events[..n];
    forall j, q | 0 <= j < |front| && front[j].Charged() && Beneath(q, front[j].path)
      ensures KeptBefore(front, j, q)
    {
      assert front[j] == events[j] && KeptBefore(events, j, q);
      var i :| 0 <= i < j && events[i] == Keep(q, FOLDER_ENTRY);
      assert front[i] == Keep(q, FOLDER_ENTRY);
    }
  }

  /** Whatever the walk gathers is closed under parents, and its entries and skips are disjoint. */
  lemma GatheredIsClosedAndDisjoint(events: seq<Event>)
    requires Orderly(events) && FullyRooted(events)
    ensures ParentClosed(Gather(events).entries)
    ensures Disjoint(Gather(events).entries, Gather(events).skipped)
  {
    hide Orderly, FullyRooted, Gather;
    var o := Gather(events);
    forall p, q | p in o.entries && Beneath(q, p)
      ensures q in o.entries && o.entries[q].kind.Directory?
    {
      GatheredEntries(events, p, o.entries[p]);
      ParentIsKept(events, p, q, o.entries[p]);
      GatheredEntries(events, q, FOLDER_ENTRY);
    }
    forall skip <- o.skipped ensures skip.relative !in o.entries {
      GatheredSkips(events, skip);
      if skip.relative in o.entries {
        GatheredEntries(events, skip.relative, o.entries[skip.relative]);
        NotKeptAndSkipped(events, skip, o.entries[skip.relative]);
      }
    }
  }

  lemma ParentIsKept(events: seq<Event>, p: string, q: string, entry: LocalEntry)
    requires Orderly(events) && FullyRooted(events)
    requires KeptIn(events, p, entry) && Beneath(q, p)
    ensures KeptIn(events, q, FOLDER_ENTRY)
  {
    var j :| 0 <= j < |events| && events[j] == Keep(p, entry);
    assert KeptBefore(events, j, q);
    var i :| 0 <= i < j && events[i] == Keep(q, FOLDER_ENTRY);
    forall w | 0 <= w < |events| && events[w].Withhold? ensures events[w].path != q {
      if w < j {
        assert !AtOrBeneath(events[w].path, events[j].path);
      } else {
        assert w > j && events[w - 1].Charged();
        assert !AtOrBeneath(events[w - 1].path, events[i].path);
      }
    }
  }

  lemma NotKeptAndSkipped(events: seq<Event>, skip: SkippedEntry, entry: LocalEntry)
    requires Orderly(events) && KeptIn(events, skip.relative, entry)
    ensures !SkippedIn(events, skip)
  {
    var k :| 0 <= k < |events| && events[k] == Keep(skip.relative, entry);
    forall j | 0 <= j < |events| && events[j].Charged() && j != k
      ensures events[j].path != skip.relative
    {
      assert events[k].Charged();
    }
  }

  // ---- The budget ----

  ghost function Charges(events: seq<Event>): nat {
    if events == [] then 0
    else Charges(events[..|events| - 1]) + if events[|events| - 1].Charged() then 1 else 0
  }

  /** The events before the first charged one that does not fit the budget. */
  ghost function Cut(events: seq<Event>, budget: nat): (cut: nat)
    ensures cut <= |events|
  {
    if Charges(events) <= budget then |events| else Cut(events[..|events| - 1], budget)
  }

  /** Each charged event adds exactly one record, withholding a folder included. */
  lemma {:induction false} RecordedIsCharged(events: seq<Event>)
    requires Orderly(events)
    ensures Recorded(Gather(events)) == Charges(events)
  {
    if events != [] {
      var n := |events| - 1;
      var last := events[n];
      OrderlyPrefix(events, n);
      RecordedIsCharged(events[..n]);
      if last.Keep? {
        KeepIsNew(events);
      } else if last.Withhold? {
        WithholdTrades(events);
      }
    }
  }

  lemma KeepIsNew(events: seq<Event>)
    requires Orderly(events) && events != [] && events[|events| - 1].Keep?
    ensures events[|events| - 1].path !in Gather(events[..|events| - 1]).entries
  {
    hide Gather;
    var n := |events| - 1;
    var before := Gather(events[..n]).entries;
    OrderlyPrefix(events, n);
    NotYetMentioned(events, n);
    if events[n].path in before {
      GatheredEntries(events[..n], events[n].path, before[events[n].path]);
    }
  }

  /** Withholding takes one entry out for the one skip it adds. */
  lemma WithholdTrades(events: seq<Event>)
    requires Orderly(events) && events != [] && events[|events| - 1].Withhold?
    ensures var before := Gather(events[..|events| - 1]).entries;
            var path := events[|events| - 1].path;
      path in before && WithoutSubtree(before, path) == before - {path}
  {
    hide Gather;
    var n := |events| - 1;
    var before, path := Gather(events[..n]).entries, events[n].path;
    OrderlyPrefix(events, n);
    NothingBeneathWithheld(events, n);
    assert events[..n][n - 1] == Keep(path, FOLDER_ENTRY);
    NotWithheldBefore(events, n);
    GatheredEntries(events[..n], path, FOLDER_ENTRY);
    forall k <- before ensures AtOrBeneath(path, k) <==> k == path {
      GatheredEntries(events[..n], k, before[k]);
    }
  }

  lemma NotWithheldBefore(events: seq<Event>, n: nat)
    requires Orderly(events) && 0 < n < |events| && events[n].Withhold?
    ensures !WithheldIn(events[..n], events[n].path)
  {
    assert events[n - 1].Charged();
    forall i | 0 <= i < n && events[..n][i].Withhold? ensures events[i].path != events[n].path {
      assert events[i].Withhold?;
      assert i != n - 1;
    }
  }

  lemma {:induction false} CutStays(events: seq<Event>, budget: nat)
    requires Charges(events) > budget
    ensures events != [] && Cut(events[..|events| - 1], budget) == Cut(events, budget)
    ensures Cut(events, budget) < |events|
  {
  }

  /** A walk with a budget records exactly the events before the first that does not fit, and is
      complete exactly when all of them fit. */
  lemma {:induction false} BudgetIsACut(events: seq<Event>, budget: nat)
    requires Orderly(events)
    ensures Play(EMPTY, events, budget)
         == Gather(events[..Cut(events, budget)]).(complete := Charges(events) <= budget)
    ensures Recorded(Play(EMPTY, events, budget)) <= budget
  {
    if events != [] {
      var n := |events| - 1;
      OrderlyPrefix(events, n);
      BudgetIsACut(events[..n], budget);
      RecordedIsCharged(events);
      RecordedIsCharged(events[..n]);
      hide Orderly;
      CutOfOneMore(events, budget);
      GatherIsComplete(events);
      GatherIsComplete(events[..n]);
    } else {
      assert events[..0] == [];
    }
  }

  lemma CutOfOneMore(events: seq<Event>, budget: nat)
    requires events != []
    ensures var n := |events| - 1;
      && events[..n][..Cut(events[..n], budget)] == events[..Cut(events[..n], budget)]
      && (Cut(events, budget) == |events| ==> events[..Cut(events, budget)] == events)
      && (Cut(events[..n], budget) == n ==> events[..n][..Cut(events[..n], budget)] == events[..n])
  {
    hide Cut;
  }

  lemma {:induction false} GatherIsComplete(events: seq<Event>)
    ensures Gather(events).complete
  {
    if events != [] {
      GatherIsComplete(events[..|events| - 1]);
    }
  }

  /** How much of the walk a budget keeps: as many charged events as fit. */
  lemma {:induction false} CutKeepsWhatFits(events: seq<Event>, budget: nat)
    ensures var cut := Cut(events, budget);
      && Charges(events[..cut]) == (if Charges(events) <= budget then Charges(events) else budget)
      && (cut < |events| ==> events[cut].Charged() && Charges(events[..cut]) == budget)
  {
    if Charges(events) <= budget {
      assert events[..|events|] == events;
    } else {
      var n := |events| - 1;
      CutKeepsWhatFits(events[..n], budget);
      var cut := Cut(events, budget);
      assert events[..n][..cut] == events[..cut];
      if cut == n {
        assert events[..n][..n] == events[..n];
      }
    }
  }
}
