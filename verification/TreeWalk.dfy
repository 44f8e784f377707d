/** What a walk finds, told from the tree alone: which paths are entries, which are skipped and why, and
    which are excluded. */
module TreeWalk {
  import opened Strings
  import opened Ordered
  import opened Inventory
  import opened SourceWalk
  import opened WalkOutcome
  import opened Collisions
  import opened ScopedScan
  import opened Wrappers
  import RemotePath

  // ---- The tree, by path ----

  /** The node a list of names leads to. */
  function Lookup(node: Node, names: seq<string>): Option<Node> {
    if names == [] then Some(node)
    else if node.Folder? && names[0] in node.children then Lookup(node.children[names[0]], names[1..])
    else None
  }

  function NodeAt(root: Node, p: string): Option<Node> {
    Lookup(root, Split(p))
  }

  /** In scope, or a folder on the way to the scope. */
  predicate InReach(scope: string, p: string) {
    InScope(scope, p) || OnScopePath(scope, p)
  }

  /** By components: the scope is a prefix of what lies in it, and a folder on the way a proper prefix of it. */
  lemma ScopeMeans(scope: string, p: string)
    ensures InScope(scope, p) <==> scope == "" || Split(scope) <= Split(p)
    ensures OnScopePath(scope, p) <==> scope != "" && (p == "" || Split(p) < Split(scope))
  {
    BeneathIsComponentPrefix(scope, p);
    BeneathIsComponentPrefix(p, scope);
    JoinedOfSplit(scope);
    JoinedOfSplit(p);
    hide Split, Beneath;
    if Split(scope) <= Split(p) && !(Split(scope) < Split(p)) {
      assert Split(scope) == Split(p);
    }
  }

  /** Nothing about the path itself keeps it out: no DSM-managed name, no ignore rule, a portable name. */
  predicate Clear(c: Context, p: string, isFolder: bool) {
    && !RemotePath.IsDsmManaged(p) && !c.ignored(p, isFolder)
    && RemotePath.ValidateRelative(p).Ok? && RemotePath.DrivePathIssue(p).None?
  }

  /** Nothing keeps any folder above the path out. */
  ghost predicate WayIsClear(c: Context, p: string) {
    forall q | Beneath(q, p) :: Clear(c, q, true)
  }

  // ---- What the walk should record ----

  /** Files in scope and folders in reach, with nothing in the way. */
  ghost predicate Carries(c: Context, root: Node, p: string, entry: LocalEntry) {
    WayIsClear(c, p) &&
      match NodeAt(root, p)
      case Some(RegularFile(size)) =>
        InScope(c.scope, p) && Clear(c, p, false) && entry == LocalEntry(File, size, None)
      case Some(Folder(_)) =>
        InReach(c.scope, p) && Clear(c, p, true) && entry == LocalEntry(Directory, 0, None)
      case _ => false
  }

  /** The reason a path in reach is skipped for, with nothing in the way above it. */
  ghost predicate SkipsFor(c: Context, root: Node, p: string, reason: SkipReason) {
    && WayIsClear(c, p) && InReach(c.scope, p) && !RemotePath.IsDsmManaged(p)
    && match NodeAt(root, p)
       case None => false
       case Some(Unclassified(detail)) => reason == Deferred(detail)
       case Some(node) =>
         !c.ignored(p, node.IsFolder()) &&
         if !Clear(c, p, node.IsFolder()) then reason == Deferred("unsupported-entry")
         else match node
              case Unreadable(_, detail) => reason == Deferred(detail)
              case Special(_, special) => reason == special
              case UntimedFile(detail) => InScope(c.scope, p) && reason == Deferred(detail)
              case LockedFolder(detail) => reason == Deferred(detail)
              case _ => false
  }

  /** A path in scope that is DSM-managed or ignored, reported only on demand. */
  ghost predicate Excludes(c: Context, root: Node, p: string) {
    && WayIsClear(c, p) && InScope(c.scope, p) && c.includeExcluded
    && match NodeAt(root, p)
       case None => false
       case Some(node) =>
         RemotePath.IsDsmManaged(p) || (!node.Unclassified? && c.ignored(p, node.IsFolder()))
  }

  // ---- The event a node causes ----

  /** The walk, come to a node, does this about it. */
  ghost predicate Causes(c: Context, p: string, node: Node, e: Event) {
    && e.path == p && InReach(c.scope, p)
    && match e
       case Keep(_, entry) =>
         || (node.RegularFile? && InScope(c.scope, p) && Clear(c, p, false)
             && entry == LocalEntry(File, node.size, None))
         || ((node.Folder? || node.LockedFolder?) && Clear(c, p, true) && entry == LocalEntry(Directory, 0, None))
       case Withhold(_, reason) => node.LockedFolder? && Clear(c, p, true) && reason == Deferred(node.detail)
       case DeclineUntimed(_, reason) =>
         node.UntimedFile? && InScope(c.scope, p) && Clear(c, p, false) && reason == Deferred(node.detail)
       case Decline(_, reason) =>
         !RemotePath.IsDsmManaged(p) &&
         if node.Unclassified? then reason == Deferred(node.detail)
         else
           && !c.ignored(p, node.IsFolder())
           && if !Clear(c, p, node.IsFolder()) then reason == Deferred("unsupported-entry")
              else (node.Unreadable? && reason == Deferred(node.detail)) || (node.Special? && reason == node.reason)
       case Exclude(_) =>
         && c.includeExcluded && InScope(c.scope, p)
         && (RemotePath.IsDsmManaged(p) || (!node.Unclassified? && c.ignored(p, node.IsFolder())))
  }

  /** What the order of the checks comes to. */
  lemma VerdictMeans(c: Context, p: string, node: Node)
    ensures Judge(c, p, node).Admitted?
       <==> InReach(c.scope, p) && !node.Unclassified? && Clear(c, p, node.IsFolder())
    ensures Judge(c, p, node).Pruned?
       <==> RemotePath.IsDsmManaged(p) || (InReach(c.scope, p) && !node.Unclassified? && c.ignored(p, node.IsFolder()))
    ensures Judge(c, p, node).DeclinedFor?
       <==> InReach(c.scope, p) && !RemotePath.IsDsmManaged(p)
            && (node.Unclassified? || (!c.ignored(p, node.IsFolder()) && !Clear(c, p, node.IsFolder())))
    ensures Judge(c, p, node).DeclinedFor? ==>
      Judge(c, p, node).reason == Deferred(if node.Unclassified? then node.detail else "unsupported-entry")
  {
    hide InScope, OnScopePath, RemotePath.IsDsmManaged, RemotePath.ValidateRelative, RemotePath.DrivePathIssue;
  }

  lemma ScopeIsInReach(scope: string, p: string)
    ensures InScope(scope, p) ==> InReach(scope, p)
  {
  }

  lemma OwnEvents(c: Context, p: string, node: Node, e: Event)
    requires p != [] && WellNamed(node) && e.path == p
    ensures e in NodeEvents(c, p, node) <==> Causes(c, p, node, e)
  {
    VerdictMeans(c, p, node);
    ScopeIsInReach(c.scope, p);
    ManagedIsNotClear(c, p, node.IsFolder());
    hide Judge, Clear, InReach, InScope, RemotePath.IsDsmManaged;
    match Judge(c, p, node)
    case OffLimits =>
    case Pruned =>
    case DeclinedFor(_) =>
    case Admitted =>
      if node.Folder? {
        NotFromBelow(c, p, node, e);
        hide ChildEvents;
      } else {
        OwnLeafEvents(c, p, node, e);
        hide Causes, LeafEvents;
      }
  }

  lemma OwnLeafEvents(c: Context, p: string, node: Node, e: Event)
    requires !node.Folder? && !node.Unclassified? && e.path == p
    requires InReach(c.scope, p) && Clear(c, p, node.IsFolder())
    ensures e in LeafEvents(InScope(c.scope, p), p, node) <==> Causes(c, p, node, e)
  {
    ManagedIsNotClear(c, p, node.IsFolder());
    hide Clear, InReach, InScope, RemotePath.IsDsmManaged;
  }

  lemma ManagedIsNotClear(c: Context, p: string, isFolder: bool)
    ensures Clear(c, p, isFolder) ==> !RemotePath.IsDsmManaged(p) && !c.ignored(p, isFolder)
  {
    hide RemotePath.IsDsmManaged, RemotePath.ValidateRelative, RemotePath.DrivePathIssue;
  }

  lemma NotFromBelow(c: Context, p: string, node: Node, e: Event)
    requires p != [] && node.Folder? && WellNamed(node) && e.path == p
    ensures e !in ChildEvents(c, p, node, SortedKeys(node.children.Keys))
  {
    var names := SortedKeys(node.children.Keys);
    ChildEventsAreBeneath(c, p, node, names);
    hide ChildEvents;
    forall f <- ChildEvents(c, p, node, names) ensures f.path != p {
      assert Beneath(p, f.path);
    }
  }

  // ---- Down the tree ----

  /** The name the way from a folder down to a path begins with. */
  function FirstStep(parent: string, p: string): string
    requires parent == [] || Beneath(parent, p)
  {
    FirstComponent(if parent == [] then p else p[|parent| + 1..])
  }

  lemma FirstStepIsTheChild(parent: string, name: string, p: string)
    requires Slashless(name) && AtOrBeneath(Child(parent, name), p)
    ensures parent == [] || Beneath(parent, p)
    ensures FirstStep(parent, p) == name
  {
    ChildIsBeneath(parent, name, p);
    var tail := if parent == [] then p else p[|parent| + 1..];
    if p == Child(parent, name) {
      assert tail == name;
      FirstComponentOfJoin(name, []);
    } else {
      var rest := p[|Child(parent, name)| + 1..];
      assert p == Child(parent, name) + "/" + rest;
      assert tail == name + "/" + rest;
      FirstComponentOfJoin(name, rest);
    }
  }

  /** Only the child on the way to its path causes an event. */
  lemma {:induction false} EventOfTheChild(c: Context, parent: string, node: Node, names: seq<string>, e: Event,
                                           name: string)
    requires node.Folder? && WellNamed(node) && forall n <- names :: n in node.children
    requires parent == [] || Beneath(parent, e.path)
    requires name == FirstStep(parent, e.path)
    ensures e in ChildEvents(c, parent, node, names)
        <==> name in names && e in NodeEvents(c, Child(parent, name), node.children[name])
    decreases |names|
  {
    hide NodeEvents, FirstStep;
    if names != [] {
      var n := |names| - 1;
      var last := names[n];
      EventOfTheChild(c, parent, node, names[..n], e, name);
      assert names == names[..n] + [last];
      NodeEventsAreBeneath(c, Child(parent, last), node.children[last]);
      if e in NodeEvents(c, Child(parent, last), node.children[last]) {
        FirstStepIsTheChild(parent, last, e.path);
      }
    }
  }

  /** The path some names down from another. */
  function Extend(path: string, names: seq<string>): string
    decreases |names|
  {
    if names == [] then path else Extend(path + "/" + names[0], names[1..])
  }

  lemma {:induction false} ExtendIsBeneath(path: string, names: seq<string>)
    ensures AtOrBeneath(path, Extend(path, names))
    ensures names != [] ==> Beneath(path, Extend(path, names))
    decreases |names|
  {
    if names != [] {
      ExtendIsBeneath(path + "/" + names[0], names[1..]);
      assert Beneath(path, path + "/" + names[0]);
      BeneathIsTransitive(path, path + "/" + names[0], Extend(path, names));
    }
  }

  lemma {:induction false} ExtendJoins(path: string, names: seq<string>)
    ensures Extend(path, names) == if names == [] then path else path + "/" + Joined(names)
    decreases |names|
  {
    if names != [] {
      ExtendJoins(path + "/" + names[0], names[1..]);
      if |names| > 1 {
        assert path + "/" + (names[0] + "/" + Joined(names[1..])) == (path + "/" + names[0]) + "/" + Joined(names[1..]);
      }
    }
  }

  /** The walk goes through this node and every folder on the way, except the node it ends at. */
  ghost predicate Opens(c: Context, path: string, node: Node, names: seq<string>)
    decreases |names|
  {
    names == [] ||
    (&& node.Folder? && InReach(c.scope, path) && Clear(c, path, true) && names[0] in node.children
     && Opens(c, path + "/" + names[0], node.children[names[0]], names[1..]))
  }

  lemma {:induction false} EventsAlong(c: Context, path: string, node: Node, names: seq<string>, e: Event)
    requires path != [] && WellNamed(node) && e.path == Extend(path, names)
    requires forall name <- names :: Slashless(name)
    ensures e in NodeEvents(c, path, node)
        <==> Opens(c, path, node, names) && Lookup(node, names).Some?
             && Causes(c, e.path, Lookup(node, names).value, e)
    decreases |names|
  {
    hide Causes, InScope, OnScopePath, RemotePath.IsDsmManaged, RemotePath.ValidateRelative;
    hide RemotePath.DrivePathIssue;
    if names == [] {
      OwnEvents(c, path, node, e);
    } else {
      var name := names[0];
      assert name in names;
      ExtendIsBeneath(path, names);
      ExtendIsBeneath(path + "/" + name, names[1..]);
      FirstStepIsTheChild(path, name, e.path);
      OnlyThroughTheChild(c, path, node, e, name);
      if node.Folder? && name in node.children {
        EventsAlong(c, path + "/" + name, node.children[name], names[1..], e);
      }
    }
  }

  lemma OnlyThroughTheChild(c: Context, path: string, node: Node, e: Event, name: string)
    requires path != [] && WellNamed(node) && Beneath(path, e.path) && name == FirstStep(path, e.path)
    ensures e in NodeEvents(c, path, node)
        <==> node.Folder? && InReach(c.scope, path) && Clear(c, path, true) && name in node.children
             && e in NodeEvents(c, Child(path, name), node.children[name])
  {
    VerdictMeans(c, path, node);
    hide Judge, Clear, InReach, FirstStep;
    if node.Folder? {
      EventOfTheChild(c, path, node, SortedKeys(node.children.Keys), e, name);
      hide ChildEvents;
    }
  }

  // ---- From the source root ----

  lemma PathFromTheTop(p: string)
    requires p != []
    ensures var names := Split(p);
      && FirstStep([], p) == names[0] && (forall name <- names :: Slashless(name))
      && (names[0] != [] ==> p == Extend(names[0], names[1..]))
  {
    var names := Split(p);
    JoinedOfSplit(p);
    ExtendJoins(names[0], names[1..]);
  }

  /** An event of the whole walk, by its path's place in the tree. */
  lemma WalkEvent(c: Context, root: Node, e: Event)
    requires root.Folder? && WellNamed(root) && e.path != []
    ensures e in WalkEvents(c, root) <==>
      var names := Split(e.path);
      && names[0] in root.children && Opens(c, names[0], root.children[names[0]], names[1..])
      && NodeAt(root, e.path).Some? && Causes(c, e.path, NodeAt(root, e.path).value, e)
  {
    hide Opens, Causes, NodeEvents, ChildEvents, Split;
    var names := Split(e.path);
    PathFromTheTop(e.path);
    EventOfTheChild(c, [], root, SortedKeys(root.children.Keys), e, names[0]);
    if names[0] in root.children {
      EventsAlong(c, names[0], root.children[names[0]], names[1..], e);
    }
  }

  /** A folder above a path in reach is in reach. */
  lemma ReachGoesUp(scope: string, q: string, p: string)
    requires Beneath(q, p) && q != [] && InReach(scope, p)
    ensures InReach(scope, q)
  {
    if !InReach(scope, q) { OutsideIsIrrelevant(scope, q, p); }
  }

  /** A walk that goes on to a path goes through exactly the clear folders above it. */
  lemma {:induction false} OpensMeans(c: Context, path: string, node: Node, names: seq<string>)
    requires path != [] && Lookup(node, names).Some? && InReach(c.scope, Extend(path, names))
    requires forall name <- names :: Slashless(name)
    ensures Opens(c, path, node, names) <==>
      (forall q | AtOrBeneath(path, q) && Beneath(q, Extend(path, names)) :: Clear(c, q, true))
    decreases |names|
  {
    hide Clear, InReach, Beneath;
    var p := Extend(path, names);
    if names == [] {
      forall q | AtOrBeneath(path, q) && Beneath(q, path) ensures false {
        NotAboveItself(path, q);
      }
    } else {
      var child := path + "/" + names[0];
      assert names[0] in names;
      ExtendIsBeneath(path, names);
      ReachGoesUp(c.scope, path, p);
      OpensMeans(c, child, node.children[names[0]], names[1..]);
      forall q | Beneath(q, p) ensures AtOrBeneath(path, q) <==> q == path || AtOrBeneath(child, q) {
        StepsBetween(path, names, q);
      }
    }
  }

  lemma NotAboveItself(path: string, q: string)
    requires AtOrBeneath(path, q)
    ensures !Beneath(q, path)
  {
  }

  /** Between a path and one further down lies only what lies at or beneath the first step. */
  lemma StepsBetween(path: string, names: seq<string>, q: string)
    requires names != [] && Slashless(names[0]) && path != [] && Beneath(q, Extend(path, names))
    ensures AtOrBeneath(path, q) <==> q == path || AtOrBeneath(path + "/" + names[0], q)
  {
    var child := Child(path, names[0]);
    ExtendIsBeneath(child, names[1..]);
    AncestorsAreNested(child, q, Extend(path, names));
    assert Beneath(path, child);
    if AtOrBeneath(child, q) {
      BeneathIsTransitive(path, child, q);
    } else {
      AboveChild(path, names[0], q);
      if Beneath(path, q) { NotAboveItself(path, q); }
    }
  }

  /** Every folder above a path of the tree lies at or beneath the first name. */
  lemma AboveStartsAtTheTop(p: string, q: string)
    requires p != [] && Beneath(q, p) && Split(p)[0] != []
    ensures q != [] && AtOrBeneath(Split(p)[0], q)
  {
    var names := Split(p);
    PathFromTheTop(p);
    ExtendIsBeneath(names[0], names[1..]);
    AncestorsAreNested(names[0], q, p);
    if Beneath(q, names[0]) { BelowIsASlash(q, names[0]); }
  }

  lemma BelowIsASlash(q: string, p: string)
    requires Beneath(q, p)
    ensures '/' in p
  {
    assert p[|q|] == '/';
  }

  /** The same, told without the tree: nothing in the way. */
  lemma WalkEventMeans(c: Context, root: Node, e: Event)
    requires root.Folder? && WellNamed(root) && e.path != []
    ensures e in WalkEvents(c, root)
        <==> WayIsClear(c, e.path) && NodeAt(root, e.path).Some? && Causes(c, e.path, NodeAt(root, e.path).value, e)
  {
    WalkEvent(c, root, e);
    if NodeAt(root, e.path).Some? && Causes(c, e.path, NodeAt(root, e.path).value, e) {
      var names := Split(e.path);
      PathFromTheTop(e.path);
      assert names[0] in root.children;
      OpensMeans(c, names[0], root.children[names[0]], names[1..]);
      forall q | Beneath(q, e.path) ensures AtOrBeneath(names[0], q) {
        AboveStartsAtTheTop(e.path, q);
      }
    }
  }

  // ---- What the walk records ----

  /** The source root has no path of its own, and no name of the tree is empty. */
  lemma RootHasNoEvent(c: Context, root: Node, e: Event)
    requires root.Folder? && WellNamed(root) && e.path == []
    ensures e !in WalkEvents(c, root) && NodeAt(root, e.path).None?
  {
    hide NodeEvents, ChildEvents;
    if e in WalkEvents(c, root) {
      EventOfSomeChild(c, [], root, SortedKeys(root.children.Keys), e);
    }
  }

  lemma AnyEventMeans(c: Context, root: Node, e: Event)
    requires root.Folder? && WellNamed(root)
    ensures e in WalkEvents(c, root)
        <==> WayIsClear(c, e.path) && NodeAt(root, e.path).Some? && Causes(c, e.path, NodeAt(root, e.path).value, e)
  {
    hide WalkEvents, Causes, NodeAt, WayIsClear;
    if e.path == [] { RootHasNoEvent(c, root, e); } else { WalkEventMeans(c, root, e); }
  }

  lemma {:induction false} GatheredExcluded(events: seq<Event>, p: string)
    ensures p in Gather(events).excluded <==> Exclude(p) in events
  {
    if events != [] {
      var n := |events| - 1;
      GatheredExcluded(events[..n], p);
      assert events == events[..n] + [events[n]];
    }
  }

  /** Without a budget an entry is exactly what the tree holds in scope, or on the way to it, with nothing
      in the way. */
  lemma EntryIsInTheTree(c: Context, root: Node, p: string, entry: LocalEntry)
    requires root.Folder? && WellNamed(root)
    ensures var entries := Gather(WalkEvents(c, root)).entries;
      (p in entries && entries[p] == entry) <==> Carries(c, root, p, entry)
  {
    hide Gather, WalkEvents, NodeAt, WayIsClear, Clear, InReach, Orderly;
    var events := WalkEvents(c, root);
    WalkIsOrderlyAndRooted(c, root);
    GatheredEntries(events, p, entry);
    ScopeIsInReach(c.scope, p);
    AnyEventMeans(c, root, Keep(p, entry));
    if WithheldIn(events, p) {
      var i :| 0 <= i < |events| && events[i].Withhold? && events[i].path == p;
      AnyEventMeans(c, root, events[i]);
    } else if NodeAt(root, p).Some? && NodeAt(root, p).value.LockedFolder? {
      AnyEventMeans(c, root, Withhold(p, Deferred(NodeAt(root, p).value.detail)));
    }
  }

  /** A skip is exactly a path of the tree that the walk comes to and cannot carry, with its reason. */
  lemma SkipIsInTheTree(c: Context, root: Node, p: string, reason: SkipReason)
    requires root.Folder? && WellNamed(root)
    ensures SkippedEntry(p, reason) in Gather(WalkEvents(c, root)).skipped <==> SkipsFor(c, root, p, reason)
  {
    hide Gather, WalkEvents, NodeAt, WayIsClear, Clear, InReach, InScope;
    GatheredSkips(WalkEvents(c, root), SkippedEntry(p, reason));
    ManagedIsNotClear(c, p, false);
    ManagedIsNotClear(c, p, true);
    ScopeIsInReach(c.scope, p);
    AnyEventMeans(c, root, Decline(p, reason));
    AnyEventMeans(c, root, DeclineUntimed(p, reason));
    AnyEventMeans(c, root, Withhold(p, reason));
  }

  lemma ExclusionIsInTheTree(c: Context, root: Node, p: string)
    requires root.Folder? && WellNamed(root)
    ensures p in Gather(WalkEvents(c, root)).excluded <==> Excludes(c, root, p)
  {
    hide Gather, WalkEvents, NodeAt, WayIsClear, InReach, InScope;
    GatheredExcluded(WalkEvents(c, root), p);
    ScopeIsInReach(c.scope, p);
    AnyEventMeans(c, root, Exclude(p));
  }

  // ---- What a finished scan answers ----

  /** The walk has something to say about the path: an entry or a skip. */
  ghost predicate Meets(c: Context, root: Node, p: string) {
    (exists entry :: Carries(c, root, p, entry)) || exists reason :: SkipsFor(c, root, p, reason)
  }

  /** The path would be an entry, and another path the walk meets has the same fold. */
  ghost predicate Clashes(c: Context, root: Node, fold: string -> string, p: string) {
    (exists entry :: Carries(c, root, p, entry)) && exists r :: Meets(c, root, r) && r != p && fold(r) == fold(p)
  }

  ghost predicate ClashesFirst(c: Context, root: Node, fold: string -> string, p: string) {
    Clashes(c, root, fold, p) && forall q | Beneath(q, p) :: !Clashes(c, root, fold, q)
  }

  lemma MetIsGathered(c: Context, root: Node, p: string)
    requires root.Folder? && WellNamed(root)
    ensures var o := Gather(WalkEvents(c, root));
      && (p in o.entries <==> exists entry :: Carries(c, root, p, entry))
      && (p in SkipPaths(o.skipped) <==> exists reason :: SkipsFor(c, root, p, reason))
      && (p in o.entries.Keys + SkipPaths(o.skipped) <==> Meets(c, root, p))
  {
    hide Gather, WalkEvents, Carries, SkipsFor;
    var o := Gather(WalkEvents(c, root));
    if p in o.entries { EntryIsInTheTree(c, root, p, o.entries[p]); }
    if entry :| Carries(c, root, p, entry) { EntryIsInTheTree(c, root, p, entry); }
    if x :| x in o.skipped && x.relative == p { SkipIsInTheTree(c, root, p, x.reason); }
    if reason :| SkipsFor(c, root, p, reason) {
      SkipIsInTheTree(c, root, p, reason);
      assert SkippedEntry(p, reason).relative == p;
    }
  }

  lemma ClashIsCollision(c: Context, root: Node, fold: string -> string, p: string)
    requires root.Folder? && WellNamed(root)
    ensures var o := Gather(WalkEvents(c, root));
      Collides(o.entries.Keys, SkipPaths(o.skipped), fold, p) <==> Clashes(c, root, fold, p)
  {
    hide Gather, WalkEvents, Carries, SkipsFor, Meets, SkipPaths;
    var o := Gather(WalkEvents(c, root));
    forall r
      ensures r in o.entries.Keys + SkipPaths(o.skipped) <==> Meets(c, root, r)
      ensures r in o.entries <==> exists entry :: Carries(c, root, r, entry)
    {
      MetIsGathered(c, root, r);
    }
  }

  /** A complete scan carries exactly the entries the tree holds with nothing in the way, each as the tree has
      it, less those that clash with another path met, themselves or through a folder above them. */
  lemma ScanFindsTheTree(c: Context, root: Node, budget: nat, fold: string -> string, r: ScopedScan)
    requires root.Folder? && WellNamed(root)
    requires IsScan(c, root, budget, fold, r) && r.complete
    ensures forall p, entry ::
      (p in r.entries && r.entries[p] == entry)
        <==> (Carries(c, root, p, entry) && forall q | AtOrBeneath(q, p) :: !Clashes(c, root, fold, q))
    ensures forall p :: p in r.excluded <==> Excludes(c, root, p)
  {
    hide Gather, WalkEvents, Carries, Clashes, Collides, Excludes, AtOrBeneath, Cut;
    var o := Gather(WalkEvents(c, root));
    CompleteWalk(c, root, budget);
    forall p ensures p in r.excluded <==> Excludes(c, root, p) {
      ExclusionIsInTheTree(c, root, p);
    }
    forall q ensures Collides(o.entries.Keys, SkipPaths(o.skipped), fold, q) <==> Clashes(c, root, fold, q) {
      ClashIsCollision(c, root, fold, q);
    }
    forall p, entry ensures (p in o.entries && o.entries[p] == entry) <==> Carries(c, root, p, entry) {
      EntryIsInTheTree(c, root, p, entry);
    }
  }

  lemma TopIsFirstClash(c: Context, root: Node, fold: string -> string, p: string)
    requires root.Folder? && WellNamed(root)
    ensures var o := Gather(WalkEvents(c, root));
      IsTop(o.entries.Keys, SkipPaths(o.skipped), fold, p) <==> ClashesFirst(c, root, fold, p)
  {
    hide Gather, WalkEvents, Clashes, Collides, SkipPaths;
    var o := Gather(WalkEvents(c, root));
    forall q ensures Collides(o.entries.Keys, SkipPaths(o.skipped), fold, q) <==> Clashes(c, root, fold, q) {
      ClashIsCollision(c, root, fold, q);
    }
  }

  /** A complete scan's skips are the walk's and the reports. */
  lemma SkipsOfScan(c: Context, root: Node, budget: nat, fold: string -> string, r: ScopedScan)
    returns (reports: seq<SkippedEntry>)
    requires root.Folder? && WellNamed(root)
    requires IsScan(c, root, budget, fold, r) && r.complete
    ensures var o := Gather(WalkEvents(c, root));
      && o.entries.Keys !! SkipPaths(o.skipped)
      && Reports(o.entries.Keys, o.skipped, fold, reports)
      && forall x :: x in r.skipped <==> x in o.skipped || x in reports
  {
    hide Gather, WalkEvents, Reports, SkipPaths;
    var o := Gather(WalkEvents(c, root));
    CompleteWalk(c, root, budget);
    WalkedIsClosedAndDisjoint(c, root, budget);
    reports :| Reports(o.entries.Keys, o.skipped, fold, reports)
      && multiset(r.skipped) == multiset(o.skipped + reports);
    forall x ensures x in r.skipped <==> x in o.skipped || x in reports {
      assert x in r.skipped <==> x in multiset(r.skipped);
      assert x in o.skipped + reports <==> x in multiset(o.skipped + reports);
    }
  }

  lemma ReportIsAClash(c: Context, root: Node, fold: string -> string, reports: seq<SkippedEntry>, x: SkippedEntry)
    requires root.Folder? && WellNamed(root) && x in reports
    requires var o := Gather(WalkEvents(c, root));
      && o.entries.Keys !! SkipPaths(o.skipped)
      && Reports(o.entries.Keys, o.skipped, fold, reports)
    ensures IsClashReport(c, root, fold, x)
  {
    hide Gather, WalkEvents, IsTop, ClashesFirst, Meets, RivalOf;
    var o := Gather(WalkEvents(c, root));
    ReportsNameACollision(o.entries.Keys, o.skipped, fold, reports, x);
    MetIsGathered(c, root, x.reason.other);
    PathsOfReportsAreTops(o.entries.Keys, o.skipped, fold, reports, x);
    TopIsFirstClash(c, root, fold, x.relative);
  }

  /** The skip is about a first clash and names the other path. */
  ghost predicate IsClashReport(c: Context, root: Node, fold: string -> string, x: SkippedEntry) {
    && ClashesFirst(c, root, fold, x.relative) && x.reason.LocalCaseCollision?
    && Meets(c, root, x.reason.other) && x.reason.other != x.relative && fold(x.reason.other) == fold(x.relative)
  }

  /** Its skips are exactly those of the tree, and for each clash with none above it one more that names the
      other path. */
  lemma ScanSkipsTheRest(c: Context, root: Node, budget: nat, fold: string -> string, r: ScopedScan)
    requires root.Folder? && WellNamed(root)
    requires IsScan(c, root, budget, fold, r) && r.complete
    ensures forall p, reason | SkipsFor(c, root, p, reason) :: SkippedEntry(p, reason) in r.skipped
    ensures forall x <- r.skipped :: SkipsFor(c, root, x.relative, x.reason) || IsClashReport(c, root, fold, x)
    ensures forall p | ClashesFirst(c, root, fold, p) :: p in SkipPaths(r.skipped)
    ensures forall i, j | 0 <= i < j < |r.skipped| :: AtMost(r.skipped[i].relative, r.skipped[j].relative)
  {
    assert Sorted(r.skipped, SkipAtMost) ==>
        forall i, j | 0 <= i < j < |r.skipped| :: AtMost(r.skipped[i].relative, r.skipped[j].relative);
    hide Gather, WalkEvents, SkipsFor, IsTop, ClashesFirst, IsScan, IsClashReport, RivalOf;
    var reports := SkipsOfScan(c, root, budget, fold, r);
    forall p, reason | SkipsFor(c, root, p, reason) ensures SkippedEntry(p, reason) in r.skipped {
      SkipIsInTheTree(c, root, p, reason);
    }
    forall x <- r.skipped ensures SkipsFor(c, root, x.relative, x.reason) || IsClashReport(c, root, fold, x) {
      if x in reports {
        ReportIsAClash(c, root, fold, reports, x);
      } else {
        SkipIsInTheTree(c, root, x.relative, x.reason);
      }
    }
    forall p | ClashesFirst(c, root, fold, p) ensures p in SkipPaths(r.skipped) {
      TopIsFirstClash(c, root, fold, p);
      var x :| x in reports && x.relative == p;
      assert x in r.skipped;
    }
  }
}
