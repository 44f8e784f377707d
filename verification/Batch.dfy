/** Preflight of a batch of sync jobs: selection, independence of their remote roots, and the
    arithmetic of planned deletions. */
module Batch {
  import opened Strings
  import opened Ordered
  import opened RemotePath
  import opened Wrappers

  const USIZE_MAX: nat := 0xFFFF_FFFF_FFFF_FFFF

  datatype Job = Job(
    name: string,
    endpoint: string,
    username: string,
    remote: RemoteRoot,
    delete: bool,
    maxDelete: nat)

  datatype Plan = Plan(name: string, count: nat)

  datatype JobPreflight = JobPreflight(name: string, planned: nat, maximum: nat)

  datatype Preflight = Preflight(
    perJob: seq<JobPreflight>,
    totalPlanned: nat,
    configuredLimit: nat,
    requestedLimit: Option<nat>,
    effectiveLimit: nat,
    remaining: nat)

  datatype BatchError =
    | EmptyBatch
    | EmptySelection
    | DuplicateJobName(name: string)
    | DuplicateSelection(name: string)
    | UnknownSelection(name: string)
    | OverlappingRemoteRoots(first: Job, second: Job)
    | DuplicateDeletionPlan(name: string)
    | UnknownDeletionPlan(name: string)
    | MissingDeletionPlan(name: string)
    | DeletionDisabled(name: string, planned: nat)
    | JobDeletionLimit(name: string, planned: nat, maximum: nat)
    | AggregateDeletionLimit(planned: nat, maximum: nat)
    | DeletionCountOverflow

  // ---- Names ----

  function JobName(job: Job): string { job.name }

  function PlanName(plan: Plan): string { plan.name }

  ghost function Members(names: seq<string>): set<string> {
    set n | n in names
  }

  /** The names that occur more than once. */
  ghost function Repeated(names: seq<string>): set<string> {
    set n | n in names && multiset(names)[n] >= 2
  }

  ghost predicate OccursTwice(names: seq<string>, n: string) {
    exists i, j :: 0 <= i < j < |names| && names[i] == n && names[j] == n
  }

  lemma RepeatedMeans(names: seq<string>, n: string)
    ensures n in Repeated(names) <==> OccursTwice(names, n)
  {
    if OccursTwice(names, n) {
      var i, j :| 0 <= i < j < |names| && names[i] == n && names[j] == n;
      OneAside(names, j);
      assert (names[..j] + names[j + 1..])[i] == n;
    } else if n in names {
      var i :| 0 <= i < |names| && names[i] == n;
      OneAside(names, i);
      assert n !in names[..i] + names[i + 1..];
    }
  }

  lemma RepeatedOfPermutation(a: seq<string>, b: seq<string>)
    requires multiset(a) == multiset(b)
    ensures Repeated(a) == Repeated(b) && Members(a) == Members(b)
  {
    assert forall n :: n in a <==> n in multiset(a);
    assert forall n :: n in b <==> n in multiset(b);
  }

  /** Nothing repeated means one index per name. */
  lemma DistinctIndices(names: seq<string>, i: nat, j: nat)
    requires Repeated(names) == {} && i < |names| && j < |names| && names[i] == names[j]
    ensures i == j
  {
    RepeatedMeans(names, names[i]);
  }

  /** The first equal neighbours of sorted names are the least repeated name. */
  method FirstEqualNeighbours(sorted: seq<string>) returns (r: Option<string>)
    requires Sorted(sorted, AtMost)
    ensures r == if Repeated(sorted) == {} then None else Some(Least(Repeated(sorted)))
  {
    var i := 0;
    while i + 1 < |sorted|
      invariant 0 <= i <= |sorted|
      invariant forall k | 0 <= k && k + 1 <= i && k + 1 < |sorted| :: sorted[k] != sorted[k + 1]
    {
      if sorted[i] == sorted[i + 1] {
        FirstNeighboursAreLeast(sorted, i);
        return Some(sorted[i]);
      }
      i := i + 1;
    }
    NoNeighboursNoRepeats(sorted);
    return None;
  }

  /** In a sorted list a repeated name stands next to itself. */
  lemma NeighbourOfRepeat(sorted: seq<string>, j: nat, k: nat)
    requires Sorted(sorted, AtMost) && j < k < |sorted| && sorted[j] == sorted[k]
    ensures sorted[j] == sorted[j + 1]
  {
    if sorted[j] != sorted[j + 1] {
      LessIsAsymmetric(sorted[j], sorted[j + 1]);
    }
  }

  lemma FirstNeighboursAreLeast(sorted: seq<string>, i: nat)
    requires Sorted(sorted, AtMost) && i + 1 < |sorted| && sorted[i] == sorted[i + 1]
    requires forall k | 0 <= k && k + 1 <= i :: sorted[k] != sorted[k + 1]
    ensures Repeated(sorted) != {} && Least(Repeated(sorted)) == sorted[i]
  {
    hide Repeated;
    RepeatedMeans(sorted, sorted[i]);
    forall n <- Repeated(sorted) ensures AtMost(sorted[i], n) {
      RepeatedMeans(sorted, n);
      var j, k :| 0 <= j < k < |sorted| && sorted[j] == n && sorted[k] == n;
      if j < i {
        NeighbourOfRepeat(sorted, j, k);
      } else if i < j {
        assert AtMost(sorted[i], sorted[j]);
      }
    }
    LeastIsUnique(Repeated(sorted), sorted[i]);
  }

  lemma NoNeighboursNoRepeats(sorted: seq<string>)
    requires Sorted(sorted, AtMost)
    requires forall k | 0 <= k && k + 1 < |sorted| :: sorted[k] != sorted[k + 1]
    ensures Repeated(sorted) == {}
  {
    hide Repeated;
    forall n ensures n !in Repeated(sorted) {
      RepeatedMeans(sorted, n);
      if n in Repeated(sorted) {
        var j, k :| 0 <= j < k < |sorted| && sorted[j] == n && sorted[k] == n;
        NeighbourOfRepeat(sorted, j, k);
      }
    }
  }

  // ---- The catalog ----

  /** By name, then endpoint, remote root and username. */
  predicate JobAtMost(left: Job, right: Job) {
    if left.name != right.name then Less(left.name, right.name)
    else if left.endpoint != right.endpoint then Less(left.endpoint, right.endpoint)
    else if left.remote != right.remote then Less(left.remote.path, right.remote.path)
    else AtMost(left.username, right.username)
  }

  lemma JobOrderIsTransitive(x: Job, y: Job, z: Job)
    requires JobAtMost(x, y) && JobAtMost(y, z)
    ensures JobAtMost(x, z)
  {
    hide Less;
    AtMostIsTotalPreorder();
    if x.name != z.name {
      assert AtMost(x.name, y.name) && AtMost(y.name, z.name);
    } else if x.name != y.name {
      LessIsAsymmetric(x.name, y.name);
    } else if x.endpoint != z.endpoint {
      assert AtMost(x.endpoint, y.endpoint) && AtMost(y.endpoint, z.endpoint);
    } else if x.endpoint != y.endpoint {
      LessIsAsymmetric(x.endpoint, y.endpoint);
    } else if x.remote != z.remote {
      assert AtMost(x.remote.path, y.remote.path) && AtMost(y.remote.path, z.remote.path);
    } else if x.remote != y.remote {
      LessIsAsymmetric(x.remote.path, y.remote.path);
    } else {
      assert AtMost(x.username, y.username) && AtMost(y.username, z.username);
    }
  }

  lemma JobOrderIsTotalPreorder()
    ensures IsTotalPreorder(JobAtMost)
  {
    forall x: Job, y: Job ensures JobAtMost(x, y) || JobAtMost(y, x) {
      LessIsTotal(x.name, y.name);
      LessIsTotal(x.endpoint, y.endpoint);
      LessIsTotal(x.remote.path, y.remote.path);
      LessIsTotal(x.username, y.username);
    }
    forall x: Job, y: Job, z: Job | JobAtMost(x, y) && JobAtMost(y, z) ensures JobAtMost(x, z) {
      JobOrderIsTransitive(x, y, z);
    }
  }

  /** Jobs with distinct names are told apart, so sorting them is blind to their order. */
  lemma JobOrderDistinguishes(jobs: seq<Job>)
    requires Repeated(Names(jobs, JobName)) == {}
    ensures Distinguishes(JobAtMost, jobs)
  {
    forall x, y | x in jobs && y in jobs && JobAtMost(x, y) && JobAtMost(y, x) ensures x == y {
      if x.name != y.name { LessIsAsymmetric(x.name, y.name); }
      assert x.name == y.name;
      var i :| 0 <= i < |jobs| && jobs[i] == x;
      var j :| 0 <= j < |jobs| && jobs[j] == y;
      var names := Names(jobs, JobName);
      assert names[i] == JobName(jobs[i]) && names[j] == JobName(jobs[j]);
      DistinctIndices(names, i, j);
    }
  }

  /** Named apart and sorted: the order of a catalog's jobs. */
  ghost predicate ByName(jobs: seq<Job>) {
    forall i, j | 0 <= i < j < |jobs| :: Less(jobs[i].name, jobs[j].name)
  }

  ghost function KnownNames(jobs: seq<Job>): set<string> {
    set job | job in jobs :: job.name
  }

  ghost function CatalogResult(jobs: seq<Job>): Result<seq<Job>, BatchError> {
    var repeated := Repeated(Names(jobs, JobName));
    if jobs == [] then Err(EmptyBatch)
    else if repeated != {} then Err(DuplicateJobName(Least(repeated)))
    else Ok(Sort(jobs, JobAtMost))
  }

  lemma SortedJobNames(jobs: seq<Job>)
    ensures Sorted(Names(Sort(jobs, JobAtMost), JobName), AtMost)
    ensures multiset(Sort(jobs, JobAtMost)) == multiset(jobs)
    ensures Repeated(Names(Sort(jobs, JobAtMost), JobName)) == Repeated(Names(jobs, JobName))
    ensures Members(Names(Sort(jobs, JobAtMost), JobName)) == Members(Names(jobs, JobName))
  {
    JobOrderIsTotalPreorder();
    SortSorts(jobs, JobAtMost);
    NamesOfPermutation(Sort(jobs, JobAtMost), jobs, JobName);
    RepeatedOfPermutation(Names(Sort(jobs, JobAtMost), JobName), Names(jobs, JobName));
  }

  /** `BatchCatalog::new`. */
  method NewCatalog(jobs: seq<Job>) returns (r: Result<seq<Job>, BatchError>)
    ensures r == CatalogResult(jobs)
  {
    if jobs == [] {
      return Err(EmptyBatch);
    }
    var sorted := Sort(jobs, JobAtMost);
    SortedJobNames(jobs);
    var repeated := FirstEqualNeighbours(Names(sorted, JobName));
    if repeated.Some? {
      return Err(DuplicateJobName(repeated.value));
    }
    return Ok(sorted);
  }

  /** A catalog holds the given jobs and nothing else, in strict order of their names. */
  lemma CatalogHoldsItsJobs(jobs: seq<Job>)
    requires CatalogResult(jobs).Ok?
    ensures ByName(CatalogResult(jobs).value)
    ensures multiset(CatalogResult(jobs).value) == multiset(jobs)
  {
    SortedJobNames(jobs);
    var catalog := Sort(jobs, JobAtMost);
    var names := Names(catalog, JobName);
    NamesStrictlySorted(names);
    assert forall i | 0 <= i < |catalog| :: names[i] == JobName(catalog[i]);
  }

  /** Why a catalog is refused: no jobs at all, or the least of the names that two jobs have. */
  lemma CatalogRefusal(jobs: seq<Job>, name: string)
    ensures CatalogResult(jobs) == Err(EmptyBatch) <==> jobs == []
    ensures CatalogResult(jobs) == Err(DuplicateJobName(name)) <==>
      SharedName(jobs, name) && forall other | SharedName(jobs, other) :: AtMost(name, other)
    ensures CatalogResult(jobs).Ok? <==> jobs != [] && !exists other :: SharedName(jobs, other)
  {
    hide Repeated, AtMost;
    var repeated := Repeated(Names(jobs, JobName));
    forall n ensures n in repeated <==> SharedName(jobs, n) { SharedMeansRepeated(jobs, n); }
    LeastMeans(repeated, name);
    assert repeated != {} ==> Least(repeated) in repeated;
  }

  ghost predicate SharedName(jobs: seq<Job>, name: string) {
    exists i, j :: 0 <= i < j < |jobs| && jobs[i].name == name && jobs[j].name == name
  }

  lemma SharedMeansRepeated(jobs: seq<Job>, name: string)
    ensures name in Repeated(Names(jobs, JobName)) <==> SharedName(jobs, name)
  {
    hide Repeated;
    var names := Names(jobs, JobName);
    assert forall i | 0 <= i < |jobs| :: names[i] == JobName(jobs[i]);
    RepeatedMeans(names, name);
    if i, j :| 0 <= i < j < |jobs| && jobs[i].name == name && jobs[j].name == name {
      assert names[i] == name && names[j] == name;
    }
    if i, j :| 0 <= i < j < |names| && names[i] == name && names[j] == name {
      assert jobs[i].name == name && jobs[j].name == name;
    }
  }

  lemma NamesStrictlySorted(names: seq<string>)
    requires Sorted(names, AtMost) && Repeated(names) == {}
    ensures StrictlySorted(names)
  {
    hide Repeated;
    forall i, j | 0 <= i < j < |names| ensures Less(names[i], names[j]) {
      if names[i] == names[j] { DistinctIndices(names, i, j); }
    }
  }

  /** The catalog, and any error, is the same for every order of the same jobs. */
  lemma CatalogIsOrderBlind(jobs: seq<Job>, reordered: seq<Job>)
    requires multiset(jobs) == multiset(reordered)
    ensures CatalogResult(jobs) == CatalogResult(reordered)
  {
    assert |jobs| == |multiset(jobs)| == |multiset(reordered)| == |reordered|;
    NamesOfPermutation(jobs, reordered, JobName);
    RepeatedOfPermutation(Names(jobs, JobName), Names(reordered, JobName));
    if Repeated(Names(jobs, JobName)) == {} {
      JobOrderIsTotalPreorder();
      JobOrderDistinguishes(jobs);
      SortIsOrderBlind(jobs, reordered, JobAtMost);
    }
  }

  // ---- Independent roots ----

  /** Two jobs on one endpoint whose roots are equal or nested, whoever logs in. */
  predicate Conflicts(left: Job, right: Job) {
    left.endpoint == right.endpoint && RootsOverlap(left.remote, right.remote)
  }

  ghost predicate Independent(jobs: seq<Job>) {
    forall i, j | 0 <= i < j < |jobs| :: !Conflicts(jobs[i], jobs[j])
  }

  /** The conflict a row-by-row scan meets first. */
  ghost predicate IsFirstConflict(jobs: seq<Job>, i: nat, j: nat) {
    && i < j < |jobs| && Conflicts(jobs[i], jobs[j])
    && (forall k, l | 0 <= k < i && k < l < |jobs| :: !Conflicts(jobs[k], jobs[l]))
    && (forall l | i < l < j :: !Conflicts(jobs[i], jobs[l]))
  }

  /** What `ValidatedBatch::from_selected` has to answer. */
  ghost predicate Validates(jobs: seq<Job>, r: Result<seq<Job>, BatchError>) {
    var sorted := Sort(jobs, JobAtMost);
    if jobs == [] then r == Err(EmptyBatch)
    else if Independent(sorted) then r == Ok(sorted)
    else exists i: nat, j: nat :: IsFirstConflict(sorted, i, j)
           && r == Err(OverlappingRemoteRoots(sorted[i], sorted[j]))
  }

  method FromSelected(jobs: seq<Job>) returns (r: Result<seq<Job>, BatchError>)
    ensures Validates(jobs, r)
  {
    if jobs == [] {
      return Err(EmptyBatch);
    }
    var sorted := Sort(jobs, JobAtMost);
    for i := 0 to |sorted|
      invariant forall k, l | 0 <= k < i && k < l < |sorted| :: !Conflicts(sorted[k], sorted[l])
    {
      for j := i + 1 to |sorted|
        invariant forall l | i < l < j :: !Conflicts(sorted[i], sorted[l])
      {
        if Conflicts(sorted[i], sorted[j]) {
          assert IsFirstConflict(sorted, i, j);
          return Err(OverlappingRemoteRoots(sorted[i], sorted[j]));
        }
      }
    }
    return Ok(sorted);
  }

  lemma FirstConflictIsUnique(jobs: seq<Job>, i: nat, j: nat, k: nat, l: nat)
    requires IsFirstConflict(jobs, i, j) && IsFirstConflict(jobs, k, l)
    ensures i == k && j == l
  {
  }

  lemma ValidationIsDeterministic(jobs: seq<Job>, r: Result<seq<Job>, BatchError>,
                                  s: Result<seq<Job>, BatchError>)
    requires Validates(jobs, r) && Validates(jobs, s)
    ensures r == s
  {
    var sorted := Sort(jobs, JobAtMost);
    if jobs != [] && !Independent(sorted) {
      hide Conflicts, Sort;
      var i: nat, j: nat :| IsFirstConflict(sorted, i, j)
        && r == Err(OverlappingRemoteRoots(sorted[i], sorted[j]));
      var k: nat, l: nat :| IsFirstConflict(sorted, k, l)
        && s == Err(OverlappingRemoteRoots(sorted[k], sorted[l]));
      FirstConflictIsUnique(sorted, i, j, k, l);
    }
  }

  /** Jobs with distinct names validate, or fail, the same way in every order. */
  lemma ValidationIsOrderBlind(jobs: seq<Job>, reordered: seq<Job>, r: Result<seq<Job>, BatchError>,
                               s: Result<seq<Job>, BatchError>)
    requires multiset(jobs) == multiset(reordered) && Repeated(Names(jobs, JobName)) == {}
    requires Validates(jobs, r) && Validates(reordered, s)
    ensures r == s
  {
    assert |jobs| == |multiset(jobs)| == |multiset(reordered)| == |reordered|;
    JobOrderIsTotalPreorder();
    JobOrderDistinguishes(jobs);
    SortIsOrderBlind(jobs, reordered, JobAtMost);
    assert Validates(jobs, s) by { hide Conflicts, Sort, IsFirstConflict; }
    ValidationIsDeterministic(jobs, r, s);
  }

  /** Two places of a batch may write one remote path of one endpoint. */
  ghost predicate ShareAWrite(left: Job, right: Job)
    requires IsParsed(left.remote) && IsParsed(right.remote)
  {
    left.endpoint == right.endpoint
    && exists remote :: WritesBelow(left.remote, remote) && WritesBelow(right.remote, remote)
  }

  ghost predicate WritesBelow(root: RemoteRoot, remote: string) {
    root.path != [] && Writes(root, remote)
  }

  /** Validation accepts exactly the job lists whose write sets are pairwise disjoint. */
  lemma AcceptedMeansDisjointWrites(jobs: seq<Job>, r: Result<seq<Job>, BatchError>)
    requires jobs != [] && (forall job <- jobs :: IsParsed(job.remote))
    requires Validates(jobs, r)
    ensures r.Ok? <==>
      forall i, j | 0 <= i < |jobs| && 0 <= j < |jobs| && i != j :: !ShareAWrite(jobs[i], jobs[j])
  {
    hide IsParsed, Sort, Sorted;
    var sorted := Sort(jobs, JobAtMost);
    JobOrderIsTotalPreorder();
    SortSorts(jobs, JobAtMost);
    hide IsTotalPreorder;
    forall left: Job, right: Job | IsParsed(left.remote) && IsParsed(right.remote)
      ensures Conflicts(left, right) <==> ShareAWrite(left, right)
    {
      ConflictIsSharedWrite(left, right);
    }
    if !Independent(sorted) {
      var i, j :| 0 <= i < j < |sorted| && Conflicts(sorted[i], sorted[j]);
      var k, l := PairOfPermutation(sorted, jobs, i, j);
      assert ShareAWrite(jobs[k], jobs[l]);
    }
    if i, j :| 0 <= i < |jobs| && 0 <= j < |jobs| && i != j && ShareAWrite(jobs[i], jobs[j]) {
      var k, l := PairOfPermutation(jobs, sorted, i, j);
      assert Conflicts(sorted[k], sorted[l]) && Conflicts(sorted[l], sorted[k]);
    }
  }

  /** An accepted batch holds the jobs given, each as often as given, in the order of their names. A
      refusal of two jobs names two places of it, the first no later in that order. */
  lemma AnswerHoldsTheJobs(jobs: seq<Job>, r: Result<seq<Job>, BatchError>)
    requires Validates(jobs, r)
    ensures r == Err(EmptyBatch) <==> jobs == []
    ensures r.Ok? ==>
      && multiset(r.value) == multiset(jobs)
      && forall i, j | 0 <= i < j < |r.value| :: AtMost(r.value[i].name, r.value[j].name)
    ensures r.Ok? && Repeated(Names(jobs, JobName)) == {} ==> ByName(r.value)
    ensures r.Err? && jobs != [] ==>
      && r.error.OverlappingRemoteRoots?
      && multiset{r.error.first, r.error.second} <= multiset(jobs)
      && AtMost(r.error.first.name, r.error.second.name) && Conflicts(r.error.first, r.error.second)
  {
    hide Sort, Repeated, Conflicts;
    var sorted := Sort(jobs, JobAtMost);
    SortedJobNames(jobs);
    var names := Names(sorted, JobName);
    assert forall i | 0 <= i < |sorted| :: names[i] == JobName(sorted[i]);
    if Repeated(Names(jobs, JobName)) == {} { NamesStrictlySorted(names); }
    if jobs != [] && !Independent(sorted) {
      var i: nat, j: nat :| IsFirstConflict(sorted, i, j)
        && r == Err(OverlappingRemoteRoots(sorted[i], sorted[j]));
      TwoPlaces(sorted, i, j);
    }
  }

  lemma TwoPlaces<T>(xs: seq<T>, i: nat, j: nat)
    requires i < j < |xs|
    ensures multiset{xs[i], xs[j]} <= multiset(xs)
  {
    OneAside(xs, j);
    assert (xs[..j] + xs[j + 1..])[i] == xs[i];
  }

  lemma ConflictIsSharedWrite(left: Job, right: Job)
    requires IsParsed(left.remote) && IsParsed(right.remote)
    ensures Conflicts(left, right) <==> ShareAWrite(left, right)
    ensures Conflicts(left, right) <==> Conflicts(right, left)
  {
    hide Writes;
    OverlapIsSharedWrite(left.remote, right.remote);
    ParseMeans(left.remote.path);
    ParseMeans(right.remote.path);
    forall remote
      ensures WritesBelow(left.remote, remote) <==> Writes(left.remote, remote)
      ensures WritesBelow(right.remote, remote) <==> Writes(right.remote, remote)
    {
    }
  }

  /** Two elements of a list stand at two places of any reordering. */
  lemma PairOfPermutation<T>(xs: seq<T>, ys: seq<T>, i: nat, j: nat) returns (k: nat, l: nat)
    requires multiset(xs) == multiset(ys)
    requires i < |xs| && j < |xs| && i != j
    ensures k < |ys| && l < |ys| && k != l && ys[k] == xs[i] && ys[l] == xs[j]
  {
    assert xs[i] in multiset(ys);
    k :| 0 <= k < |ys| && ys[k] == xs[i];
    ElsewhereToo(xs, ys, i, j, k);
    l := AnotherPlace(ys, k, xs[j]);
  }

  lemma ElsewhereToo<T>(xs: seq<T>, ys: seq<T>, i: nat, j: nat, k: nat)
    requires multiset(xs) == multiset(ys) && i < |xs| && j < |xs| && i != j
    requires k < |ys| && ys[k] == xs[i]
    ensures xs[j] in multiset(ys[..k] + ys[k + 1..])
  {
    StillThere(xs, i, j);
    OneAside(xs, i);
    OneAside(ys, k);
    assert multiset(xs[..i] + xs[i + 1..]) == multiset(xs) - multiset{xs[i]};
    assert multiset(ys[..k] + ys[k + 1..]) == multiset(ys) - multiset{ys[k]};
  }

  lemma StillThere<T>(xs: seq<T>, i: nat, j: nat)
    requires i < |xs| && j < |xs| && i != j
    ensures xs[j] in multiset(xs[..i] + xs[i + 1..])
  {
    assert (xs[..i] + xs[i + 1..])[if j < i then j else j - 1] == xs[j];
  }

  lemma AnotherPlace<T>(ys: seq<T>, k: nat, y: T) returns (l: nat)
    requires k < |ys| && y in multiset(ys[..k] + ys[k + 1..])
    ensures l < |ys| && l != k && ys[l] == y
  {
    var rest := ys[..k] + ys[k + 1..];
    var m :| 0 <= m < |rest| && rest[m] == y;
    l := if m < k then m else m + 1;
  }

  // ---- Selection ----

  /** The catalog's jobs with a name in the set, in catalog order. */
  ghost function Chosen(catalog: seq<Job>, names: set<string>): seq<Job> {
    if catalog == [] then []
    else
      var last := catalog[|catalog| - 1];
      Chosen(catalog[..|catalog| - 1], names) + if last.name in names then [last] else []
  }

  ghost function Unknown(names: seq<string>, known: set<string>): set<string> {
    Members(names) - known
  }

  /** What `BatchCatalog::select` has to answer: filter the catalog by name and validate. */
  ghost predicate Selects(catalog: seq<Job>, names: seq<string>, r: Result<seq<Job>, BatchError>) {
    var unknown := Unknown(names, KnownNames(catalog));
    if names == [] then r == Err(EmptySelection)
    else if Repeated(names) != {} then r == Err(DuplicateSelection(Least(Repeated(names))))
    else if unknown != {} then r == Err(UnknownSelection(Least(unknown)))
    else Validates(Chosen(catalog, Members(names)), r)
  }

  /** Why a selection is refused before any root is looked at: nothing is asked for, the least of the names
      asked for twice, or the least of those no job has. */
  lemma SelectionRefusal(catalog: seq<Job>, names: seq<string>, name: string, r: Result<seq<Job>, BatchError>)
    requires Selects(catalog, names, r)
    ensures r == Err(EmptySelection) <==> names == []
    ensures r == Err(DuplicateSelection(name)) <==>
      OccursTwice(names, name) && forall other | OccursTwice(names, other) :: AtMost(name, other)
    ensures r == Err(UnknownSelection(name)) <==>
      && (forall other :: !OccursTwice(names, other))
      && AskedInVain(catalog, names, name) && forall other | AskedInVain(catalog, names, other) :: AtMost(name, other)
    ensures r.Ok? ==> forall job :: job in r.value <==> job in catalog && job.name in names
  {
    hide Repeated, AskedInVain, AtMost, Validates;
    assert names == [] ==> !OccursTwice(names, name);
    var unknown := Unknown(names, KnownNames(catalog));
    forall n ensures n in Repeated(names) <==> OccursTwice(names, n) { RepeatedMeans(names, n); }
    forall n ensures n in unknown <==> AskedInVain(catalog, names, n) { UnknownMeansInVain(catalog, names, n); }
    LeastMeans(Repeated(names), name);
    LeastMeans(unknown, name);
    if names != [] && Repeated(names) == {} && unknown == {} {
      SelectedJobs(catalog, names, r);
    }
  }

  lemma UnknownMeansInVain(catalog: seq<Job>, names: seq<string>, n: string)
    ensures n in Unknown(names, KnownNames(catalog)) <==> AskedInVain(catalog, names, n)
  {
  }

  /** A selection nothing of which is unknown is answered about exactly the jobs asked for. */
  lemma SelectedJobs(catalog: seq<Job>, names: seq<string>, r: Result<seq<Job>, BatchError>)
    requires Validates(Chosen(catalog, Members(names)), r)
    ensures r.Err? ==> r.error.EmptyBatch? || r.error.OverlappingRemoteRoots?
    ensures r.Ok? ==> forall job :: job in r.value <==> job in catalog && job.name in names
  {
    hide Validates, Chosen;
    var chosen := Chosen(catalog, Members(names));
    AnswerHoldsTheJobs(chosen, r);
    forall job ensures job in chosen <==> job in catalog && job.name in names {
      ChosenIsFilter(catalog, Members(names), job);
    }
    assert r.Ok? ==> forall job :: job in r.value <==> job in multiset(r.value);
    assert forall job :: job in chosen <==> job in multiset(chosen);
  }

  ghost predicate AskedInVain(catalog: seq<Job>, names: seq<string>, name: string) {
    name in names && forall job <- catalog :: job.name != name
  }

  lemma {:induction false} ChosenIsFilter(catalog: seq<Job>, names: set<string>, job: Job)
    ensures job in Chosen(catalog, names) <==> job in catalog && job.name in names
  {
    if catalog != [] {
      var n := |catalog| - 1;
      ChosenIsFilter(catalog[..n], names, job);
      assert catalog == catalog[..n] + [catalog[n]];
    }
  }

  /** The index of a job by name, halving the range. */
  method FindJob(catalog: seq<Job>, name: string) returns (r: Option<nat>)
    requires ByName(catalog)
    ensures r.Some? ==> r.value < |catalog| && catalog[r.value].name == name
    ensures r.None? ==> name !in KnownNames(catalog)
  {
    var low, high := 0, |catalog|;
    while low < high
      invariant 0 <= low <= high <= |catalog|
      invariant forall i | 0 <= i < |catalog| && !(low <= i < high) :: catalog[i].name != name
      decreases high - low
    {
      var middle := (low + high) / 2;
      if catalog[middle].name == name {
        return Some(middle);
      }
      NotOnThatSide(catalog, middle, name);
      if Less(catalog[middle].name, name) {
        low := middle + 1;
      } else {
        high := middle;
      }
    }
    return None;
  }

  lemma NotOnThatSide(catalog: seq<Job>, middle: nat, name: string)
    requires ByName(catalog) && middle < |catalog| && catalog[middle].name != name
    ensures if Less(catalog[middle].name, name)
            then forall i | 0 <= i <= middle :: catalog[i].name != name
            else forall i | middle <= i < |catalog| :: catalog[i].name != name
  {
    hide Less;
    LessIsTotal(catalog[middle].name, name);
    if Less(catalog[middle].name, name) {
      forall i | 0 <= i < middle ensures catalog[i].name != name {
        LessIsTransitive(catalog[i].name, catalog[middle].name, name);
        LessIsAsymmetric(catalog[i].name, name);
      }
    } else {
      forall i | middle < i < |catalog| ensures catalog[i].name != name {
        LessIsTransitive(name, catalog[middle].name, catalog[i].name);
        LessIsAsymmetric(name, catalog[i].name);
      }
    }
  }

  /** Jobs between two consecutive wanted names are not chosen. */
  lemma {:induction false} ChosenSkips(catalog: seq<Job>, names: set<string>, start: nat, stop: nat)
    requires start <= stop <= |catalog|
    requires forall i | start <= i < stop :: catalog[i].name !in names
    ensures Chosen(catalog[..stop], names) == Chosen(catalog[..start], names)
    decreases stop
  {
    if start < stop {
      ChosenSkips(catalog, names, start, stop - 1);
      assert catalog[..stop][..stop - 1] == catalog[..stop - 1];
    }
  }

  method LookUp(catalog: seq<Job>, sorted: seq<string>) returns (r: Result<seq<Job>, string>)
    requires ByName(catalog) && StrictlySorted(sorted) && sorted != []
    ensures r.Ok? ==> r.value == Chosen(catalog, Members(sorted))
                      && Unknown(sorted, KnownNames(catalog)) == {}
    ensures r.Err? ==> Unknown(sorted, KnownNames(catalog)) != {}
                       && r.error == Least(Unknown(sorted, KnownNames(catalog)))
  {
    var selected := [];
    ghost var position := 0;
    for k := 0 to |sorted|
      invariant position <= |catalog|
      invariant forall i | 0 <= i < k :: sorted[i] in KnownNames(catalog)
      invariant if k == 0 then position == 0
                else position > 0 && catalog[position - 1].name == sorted[k - 1]
      invariant selected == Chosen(catalog[..position], Members(sorted))
    {
      var index := FindJob(catalog, sorted[k]);
      if index.None? {
        LeastUnknown(sorted, k, KnownNames(catalog));
        return Err(sorted[k]);
      }
      NextChosen(catalog, sorted, k, position, index.value);
      selected := selected + [catalog[index.value]];
      position := index.value + 1;
      assert catalog[..position][..index.value] == catalog[..index.value];
    }
    NoneChosenAfter(catalog, sorted, position);
    return Ok(selected);
  }

  /** `BatchCatalog::select`. */
  method Select(catalog: seq<Job>, names: seq<string>) returns (r: Result<seq<Job>, BatchError>)
    requires ByName(catalog)
    ensures Selects(catalog, names, r)
  {
    if names == [] {
      return Err(EmptySelection);
    }
    AtMostIsTotalPreorder();
    SortSorts(names, AtMost);
    var sorted := Sort(names, AtMost);
    RepeatedOfPermutation(sorted, names);
    var repeated := FirstEqualNeighbours(sorted);
    if repeated.Some? {
      return Err(DuplicateSelection(repeated.value));
    }
    NamesStrictlySorted(sorted);
    assert sorted != [] by { assert |sorted| == |multiset(sorted)| == |multiset(names)|; }
    var found := LookUp(catalog, sorted);
    if found.Err? {
      return Err(UnknownSelection(found.error));
    }
    r := FromSelected(found.value);
  }

  /** Names are looked up in ascending order, so the first unknown one is the least. */
  lemma LeastUnknown(sorted: seq<string>, k: nat, known: set<string>)
    requires StrictlySorted(sorted) && k < |sorted| && sorted[k] !in known
    requires forall i | 0 <= i < k :: sorted[i] in known
    ensures Unknown(sorted, known) != {} && Least(Unknown(sorted, known)) == sorted[k]
  {
    forall n <- Unknown(sorted, known) ensures AtMost(sorted[k], n) {
      var i :| 0 <= i < |sorted| && sorted[i] == n;
    }
    LeastIsUnique(Unknown(sorted, known), sorted[k]);
  }

  /** A name between two consecutive wanted names is not wanted. */
  lemma NotWantedBetween(sorted: seq<string>, k: nat, name: string)
    requires StrictlySorted(sorted) && k <= |sorted|
    requires k > 0 ==> Less(sorted[k - 1], name)
    requires k < |sorted| ==> Less(name, sorted[k])
    ensures name !in sorted
  {
    hide Less;
    AtMostIsTotalPreorder();
    forall m | 0 <= m < |sorted| ensures sorted[m] != name {
      if m < k {
        assert AtMost(sorted[m], sorted[k - 1]);
        if m < k - 1 { LessIsTransitive(sorted[m], sorted[k - 1], name); }
        LessIsAsymmetric(sorted[m], name);
      } else {
        if k < m { LessIsTransitive(name, sorted[k], sorted[m]); }
        LessIsAsymmetric(name, sorted[m]);
      }
    }
  }

  /** The job of the next wanted name comes later in the catalog, with nothing wanted between. */
  lemma NextChosen(catalog: seq<Job>, sorted: seq<string>, k: nat, position: nat, index: nat)
    requires ByName(catalog) && StrictlySorted(sorted)
    requires k < |sorted| && index < |catalog| && catalog[index].name == sorted[k]
    requires position <= |catalog|
    requires if k == 0 then position == 0
             else position > 0 && catalog[position - 1].name == sorted[k - 1]
    ensures position <= index
    ensures Chosen(catalog[..index], Members(sorted)) == Chosen(catalog[..position], Members(sorted))
  {
    if k > 0 {
      assert index < position - 1 ==> Less(sorted[k], sorted[k - 1]);
      LessIsAsymmetric(sorted[k - 1], sorted[k]);
    }
    forall i | position <= i < index ensures catalog[i].name !in Members(sorted) {
      NotWantedBetween(sorted, k, catalog[i].name);
    }
    ChosenSkips(catalog, Members(sorted), position, index);
  }

  lemma NoneChosenAfter(catalog: seq<Job>, sorted: seq<string>, position: nat)
    requires ByName(catalog) && StrictlySorted(sorted) && sorted != []
    requires 0 < position <= |catalog|
    requires catalog[position - 1].name == sorted[|sorted| - 1]
    ensures Chosen(catalog, Members(sorted)) == Chosen(catalog[..position], Members(sorted))
  {
    hide Less, Chosen;
    forall i | position <= i < |catalog| ensures catalog[i].name !in Members(sorted) {
      NotWantedBetween(sorted, |sorted|, catalog[i].name);
    }
    ChosenSkips(catalog, Members(sorted), position, |catalog|);
    assert catalog[..|catalog|] == catalog;
  }

  /** A selection, and any error, is the same for every order of the same names. */
  lemma SelectionIsOrderBlind(catalog: seq<Job>, names: seq<string>, reordered: seq<string>,
                              r: Result<seq<Job>, BatchError>, s: Result<seq<Job>, BatchError>)
    requires multiset(names) == multiset(reordered)
    requires Selects(catalog, names, r) && Selects(catalog, reordered, s)
    ensures r == s
  {
    hide Validates;
    assert |names| == |multiset(names)| == |multiset(reordered)| == |reordered|;
    RepeatedOfPermutation(names, reordered);
    var chosen := Chosen(catalog, Members(names));
    if Validates(chosen, r) && Validates(chosen, s) {
      ValidationIsDeterministic(chosen, r, s);
    }
  }
}
