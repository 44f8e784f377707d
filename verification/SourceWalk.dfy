/** The walk of a source tree, restricted to a scope and stopped by an entry budget.

    A folder's children are a map, so a listing comes in no order of its own; the walk sorts it.
    What the walk meets is written down as a sequence of events, the specification that the walking
    methods are proved against. */
module SourceWalk {
  import opened Strings
  import opened Ordered
  import opened Inventory
  import opened Wrappers
  import RemotePath

  /** One entry of the source as the file system classifies it. */
  datatype Node =
    | Unclassified(detail: string)                         // its file type cannot be read
    | Vanished(isFolder: bool)                             // gone before its metadata was read
    | Unreadable(isFolder: bool, detail: string)           // its metadata cannot be read
    | Special(isFolder: bool, reason: SkipReason)          // a link, a placeholder, a device
    | RegularFile(size: nat)
    | UntimedFile(detail: string)                          // a file whose time DSM cannot store
    | Folder(children: map<string, Node>)
    | LockedFolder(detail: string)                         // a folder that cannot be listed
  {
    predicate IsFolder() {
      (Vanished? && isFolder) || (Unreadable? && isFolder) || (Special? && isFolder)
      || Folder? || LockedFolder?
    }
  }

  /** File names are not empty and hold no slash. */
  ghost predicate WellNamed(node: Node) {
    node.Folder? ==>
      forall name <- node.children ::
        name != [] && Slashless(name) && WellNamed(node.children[name])
  }

  datatype Context = Context(
    ignored: (string, bool) -> bool,
    scope: string,
    includeExcluded: bool)

  // ---- Scope ----

  /** The scope itself or something beneath it; the empty scope is the whole tree. */
  predicate InScope(scope: string, relative: string) {
    scope == [] || AtOrBeneath(scope, relative)
  }

  /** A folder on the way to the scope. */
  predicate OnScopePath(scope: string, relative: string) {
    scope != [] && (relative == [] || Beneath(relative, scope))
  }

  function Child(parent: string, name: string): string {
    if parent == [] then name else parent + "/" + name
  }

  /** Names and paths no client can hold, with the reason the walk gives. */
  function Refused(relative: string): bool {
    RemotePath.ValidateRelative(relative).Err? || RemotePath.DrivePathIssue(relative).Some?
  }

  // ---- Events ----

  datatype Event =
    | Keep(path: string, entry: LocalEntry)
    | Decline(path: string, reason: SkipReason)
    | DeclineUntimed(path: string, reason: SkipReason)
    | Withhold(path: string, reason: SkipReason)   // the folder just kept cannot be listed
    | Exclude(path: string)
  {
    /** Whether the event is charged to the entry budget. */
    predicate Charged() { Keep? || Decline? || DeclineUntimed? }
  }

  const FOLDER_ENTRY := LocalEntry(Directory, 0, None)

  function FileEntry(size: nat): LocalEntry {
    LocalEntry(File, size, None)
  }

  /** The checks every entry passes before the walk looks at what it is. */
  datatype Verdict = OffLimits | Pruned | DeclinedFor(reason: SkipReason) | Admitted

  /** In the source's order: DSM-managed names, the scope, the file type, the ignore rules, the name. */
  function Judge(c: Context, path: string, node: Node): Verdict {
    if RemotePath.IsDsmManaged(path) then Pruned
    else if !InScope(c.scope, path) && !OnScopePath(c.scope, path) then OffLimits
    else if node.Unclassified? then DeclinedFor(Deferred(node.detail))
    else if c.ignored(path, node.IsFolder()) then Pruned
    else if Refused(path) then DeclinedFor(Deferred("unsupported-entry"))
    else Admitted
  }

  /** What the walk does about one entry at `path`. */
  ghost function NodeEvents(c: Context, path: string, node: Node): seq<Event>
    decreases node, 1
  {
    match Judge(c, path, node)
    case OffLimits => []
    case Pruned => if c.includeExcluded && InScope(c.scope, path) then [Exclude(path)] else []
    case DeclinedFor(reason) => [Decline(path, reason)]
    case Admitted =>
      if node.Folder? then
        [Keep(path, FOLDER_ENTRY)] + ChildEvents(c, path, node, SortedKeys(node.children.Keys))
      else LeafEvents(InScope(c.scope, path), path, node)
  }

  /** What the walk does about an admitted entry it does not descend into. */
  function LeafEvents(inScope: bool, path: string, node: Node): seq<Event>
    requires !node.Folder?
  {
    match node
    case Unclassified(_) => []
    case Vanished(_) => []
    case Unreadable(_, detail) => [Decline(path, Deferred(detail))]
    case Special(_, reason) => [Decline(path, reason)]
    case RegularFile(size) => if inScope then [Keep(path, FileEntry(size))] else []
    case UntimedFile(detail) => if inScope then [DeclineUntimed(path, Deferred(detail))] else []
    case LockedFolder(detail) => [Keep(path, FOLDER_ENTRY), Withhold(path, Deferred(detail))]
  }

  /** What the walk does about some of a folder's children, in the order given. */
  ghost function ChildEvents(c: Context, parent: string, node: Node, names: seq<string>): seq<Event>
    requires node.Folder? && forall name <- names :: name in node.children
    decreases node, 0, |names|
  {
    if names == [] then []
    else
      var last := names[|names| - 1];
      ChildEvents(c, parent, node, names[..|names| - 1])
        + NodeEvents(c, Child(parent, last), node.children[last])
  }

  /** The whole walk below the source root. */
  ghost function WalkEvents(c: Context, root: Node): seq<Event>
    requires root.Folder?
  {
    ChildEvents(c, [], root, SortedKeys(root.children.Keys))
  }

  // ---- Playing events under a budget ----

  datatype Output = Output(
    entries: map<string, LocalEntry>,
    excluded: set<string>,
    skipped: seq<SkippedEntry>,
    complete: bool)

  const EMPTY := Output(map[], {}, [], true)

  function Recorded(o: Output): nat {
    |o.entries| + |o.skipped|
  }

  ghost function Apply(o: Output, e: Event): Output {
    match e
    case Keep(path, entry) => o.(entries := o.entries[path := entry])
    case Decline(path, reason) => o.(skipped := o.skipped + [SkippedEntry(path, reason)])
    case DeclineUntimed(path, reason) => o.(skipped := o.skipped + [SkippedEntry(path, reason)])
    case Withhold(path, reason) =>
      o.(entries := WithoutSubtree(o.entries, path),
         skipped := o.skipped + [SkippedEntry(path, reason)])
    case Exclude(path) => o.(excluded := o.excluded + {path})
  }

  /** One event under a budget: a charged event that does not fit stops the walk instead. */
  ghost function Step(o: Output, e: Event, budget: nat): Output {
    if e.Charged() && Recorded(o) >= budget then o.(complete := false) else Apply(o, e)
  }

  ghost function Play(o: Output, events: seq<Event>, budget: nat): Output {
    if events == [] then o
    else
      var before := Play(o, events[..|events| - 1], budget);
      if before.complete then Step(before, events[|events| - 1], budget) else before
  }

  /** The events without any budget. */
  ghost function Gather(events: seq<Event>): Output {
    if events == [] then EMPTY
    else Apply(Gather(events[..|events| - 1]), events[|events| - 1])
  }

  lemma {:induction false} PlayConcat(o: Output, a: seq<Event>, b: seq<Event>, budget: nat)
    ensures Play(o, a + b, budget) == Play(Play(o, a, budget), b, budget)
  {
    if b == [] {
      assert a + b == a;
    } else {
      PlayConcat(o, a, b[..|b| - 1], budget);
      assert (a + b)[..|a + b| - 1] == a + b[..|b| - 1];
    }
  }

  lemma {:induction false} IncompletePlayStands(o: Output, events: seq<Event>, budget: nat)
    requires !o.complete
    ensures Play(o, events, budget) == o
  {
    if events != [] {
      IncompletePlayStands(o, events[..|events| - 1], budget);
    }
  }

  // ---- Scope refinement ----

  /** Which events of the full walk the scoped walk repeats. */
  predicate Relevant(scope: string, e: Event) {
    match e
    case Keep(path, entry) =>
      InScope(scope, path) || (OnScopePath(scope, path) && entry.kind.Directory?)
    case Decline(path, _) => InScope(scope, path) || OnScopePath(scope, path)
    case Withhold(path, _) => InScope(scope, path) || OnScopePath(scope, path)
    case DeclineUntimed(path, _) => InScope(scope, path)
    case Exclude(path) => InScope(scope, path)
  }

  function Restrict(scope: string, events: seq<Event>): seq<Event> {
    if events == [] then []
    else
      Restrict(scope, events[..|events| - 1])
        + if Relevant(scope, events[|events| - 1]) then [events[|events| - 1]] else []
  }

  lemma {:induction false} RestrictConcat(scope: string, a: seq<Event>, b: seq<Event>)
    ensures Restrict(scope, a + b) == Restrict(scope, a) + Restrict(scope, b)
  {
    if b == [] {
      assert a + b == a;
    } else {
      RestrictConcat(scope, a, b[..|b| - 1]);
      assert (a + b)[..|a + b| - 1] == a + b[..|b| - 1];
    }
  }

  lemma {:induction false} RestrictKeepsMembers(scope: string, events: seq<Event>, e: Event)
    ensures e in Restrict(scope, events) <==> e in events && Relevant(scope, e)
  {
    if events != [] {
      var n := |events| - 1;
      RestrictKeepsMembers(scope, events[..n], e);
      assert events == events[..n] + [events[n]];
    }
  }

  lemma {:induction false} RestrictToNothing(scope: string, events: seq<Event>)
    requires forall e <- events :: !Relevant(scope, e)
    ensures Restrict(scope, events) == []
  {
    if events != [] {
      RestrictToNothing(scope, events[..|events| - 1]);
    }
  }

  ghost predicate AllAtOrBeneath(path: string, events: seq<Event>) {
    forall e <- events :: AtOrBeneath(path, e.path)
  }

  ghost predicate AllBeneath(path: string, events: seq<Event>) {
    forall e <- events :: path == [] || Beneath(path, e.path)
  }

  lemma ChildIsBeneath(parent: string, name: string, path: string)
    requires AtOrBeneath(Child(parent, name), path)
    ensures parent == [] || Beneath(parent, path)
  {
    if parent != [] {
      assert Beneath(parent, parent + "/" + name);
      BeneathIsTransitive(parent, Child(parent, name), path);
    }
  }

  lemma {:induction false} NodeEventsAreBeneath(c: Context, path: string, node: Node)
    requires path != []
    requires WellNamed(node)
    ensures AllAtOrBeneath(path, NodeEvents(c, path, node))
    decreases node, 1
  {
    if node.Folder? {
      ChildEventsAreBeneath(c, path, node, SortedKeys(node.children.Keys));
    }
  }

  lemma {:induction false} ChildEventsAreBeneath(c: Context, parent: string, node: Node,
                                                 names: seq<string>)
    requires node.Folder? && WellNamed(node) && forall name <- names :: name in node.children
    ensures AllBeneath(parent, ChildEvents(c, parent, node, names))
    decreases node, 0, |names|
  {
    if names != [] {
      var last := names[|names| - 1];
      ChildEventsAreBeneath(c, parent, node, names[..|names| - 1]);
      NodeEventsAreBeneath(c, Child(parent, last), node.children[last]);
      forall e <- NodeEvents(c, Child(parent, last), node.children[last])
        ensures parent == [] || Beneath(parent, e.path)
      {
        ChildIsBeneath(parent, last, e.path);
      }
    }
  }

  /** Nothing at or beneath a path outside the scope and off its ancestor chain is relevant. */
  lemma OutsideIsIrrelevant(scope: string, path: string, below: string)
    requires path != [] && AtOrBeneath(path, below)
    requires !InScope(scope, path) && !OnScopePath(scope, path)
    ensures !InScope(scope, below) && !OnScopePath(scope, below)
  {
    if AtOrBeneath(scope, below) {
      AncestorsAreNested(path, scope, below);
    }
    if Beneath(below, scope) && path != below {
      BeneathIsTransitive(path, below, scope);
    }
  }

  lemma OutsideEvents(c: Context, path: string, node: Node)
    requires path != [] && WellNamed(node)
    requires !InScope(c.scope, path) && !OnScopePath(c.scope, path)
    ensures Restrict(c.scope, NodeEvents(c.(scope := []), path, node)) == []
  {
    var events := NodeEvents(c.(scope := []), path, node);
    NodeEventsAreBeneath(c.(scope := []), path, node);
    forall e <- events ensures !Relevant(c.scope, e) {
      OutsideIsIrrelevant(c.scope, path, e.path);
    }
    RestrictToNothing(c.scope, events);
  }

  /** Admitted to the scope's side, an entry is judged as in the full walk. */
  lemma SameVerdict(c: Context, path: string, node: Node)
    requires InScope(c.scope, path) || OnScopePath(c.scope, path)
    ensures Judge(c, path, node) == Judge(c.(scope := []), path, node)
  {
  }

  lemma RestrictLeaf(scope: string, path: string, node: Node)
    requires InScope(scope, path) || OnScopePath(scope, path)
    requires !node.Folder?
    ensures Restrict(scope, LeafEvents(true, path, node)) == LeafEvents(InScope(scope, path), path, node)
  {
    hide InScope, OnScopePath, Restrict;
    RestrictOfNone(scope);
    if node.LockedFolder? {
      RestrictOfTwo(scope, Keep(path, FOLDER_ENTRY), Withhold(path, Deferred(node.detail)));
    } else if |LeafEvents(true, path, node)| == 1 {
      RestrictOfOne(scope, LeafEvents(true, path, node)[0]);
    }
  }

  lemma RestrictOfNone(scope: string)
    ensures Restrict(scope, []) == []
  {
  }

  lemma RestrictOfTwo(scope: string, e: Event, f: Event)
    requires Relevant(scope, e) && Relevant(scope, f)
    ensures Restrict(scope, [e, f]) == [e, f]
  {
    hide Relevant;
    assert [e, f] == [e] + [f];
    RestrictConcat(scope, [e], [f]);
    RestrictOfOne(scope, e);
    RestrictOfOne(scope, f);
  }

  /** The scoped walk does exactly what the full walk does about the relevant paths, in the same
      order: entries, skips, withheld folders and excluded paths. */
  lemma {:induction false} ScopedNodeEvents(c: Context, path: string, node: Node)
    requires path != [] && WellNamed(node)
    ensures NodeEvents(c, path, node) == Restrict(c.scope, NodeEvents(c.(scope := []), path, node))
    decreases node, 1
  {
    var full := c.(scope := []);
    if !InScope(c.scope, path) && !OnScopePath(c.scope, path) {
      OutsideEvents(c, path, node);
    } else {
      SameVerdict(c, path, node);
      hide Judge, OnScopePath;
      RestrictOfOne(c.scope, Exclude(path));
      match Judge(c, path, node)
      case OffLimits =>
      case Pruned =>
      case DeclinedFor(reason) => RestrictOfOne(c.scope, Decline(path, reason));
      case Admitted =>
        if node.Folder? {
          var names := SortedKeys(node.children.Keys);
          ScopedChildEvents(c, path, node, names);
          RestrictConcat(c.scope, [Keep(path, FOLDER_ENTRY)], ChildEvents(full, path, node, names));
          RestrictOfOne(c.scope, Keep(path, FOLDER_ENTRY));
        } else {
          RestrictLeaf(c.scope, path, node);
        }
    }
  }

  lemma RestrictOfOne(scope: string, e: Event)
    ensures Restrict(scope, [e]) == if Relevant(scope, e) then [e] else []
  {
    hide Relevant;
    assert [e][..0] == [];
  }

  lemma {:induction false} ScopedChildEvents(c: Context, parent: string, node: Node,
                                             names: seq<string>)
    requires node.Folder? && WellNamed(node) && forall name <- names :: name in node.children
    ensures ChildEvents(c, parent, node, names)
         == Restrict(c.scope, ChildEvents(c.(scope := []), parent, node, names))
    decreases node, 0, |names|
  {
    if names != [] {
      var full := c.(scope := []);
      var last := names[|names| - 1];
      ScopedChildEvents(c, parent, node, names[..|names| - 1]);
      ScopedNodeEvents(c, Child(parent, last), node.children[last]);
      RestrictConcat(c.scope, ChildEvents(full, parent, node, names[..|names| - 1]),
                     NodeEvents(full, Child(parent, last), node.children[last]));
    }
  }
}
