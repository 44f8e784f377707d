/** Deletion preflight of a validated batch: every selected job has a plan, every plan keeps within
    its job's limit, and the totals are exact. */
module Deletions {
  import opened Strings
  import opened Ordered
  import opened Batch
  import opened Wrappers

  function JobLimit(job: Job): nat {
    if job.delete then job.maxDelete else 0
  }

  function ConfiguredTotal(jobs: seq<Job>): nat {
    if jobs == [] then 0
    else
      var last := jobs[|jobs| - 1];
      ConfiguredTotal(jobs[..|jobs| - 1]) + if last.delete then last.maxDelete else 0
  }

  /** `configured_deletion_limit`: add up with overflow checks. */
  function ConfiguredLimit(jobs: seq<Job>): (r: Result<nat, BatchError>)
    ensures r == if ConfiguredTotal(jobs) <= USIZE_MAX then Ok(ConfiguredTotal(jobs))
                 else Err(DeletionCountOverflow)
  {
    if jobs == [] then Ok(0)
    else
      var total := ConfiguredLimit(jobs[..|jobs| - 1]);
      var last := jobs[|jobs| - 1];
      if total.Err? || !last.delete then total
      else if total.value + last.maxDelete > USIZE_MAX then Err(DeletionCountOverflow)
      else Ok(total.value + last.maxDelete)
  }

  /** The plans by job name; a later plan replaces an earlier one. */
  function ByJob(plans: seq<Plan>): map<string, nat> {
    if plans == [] then map[]
    else ByJob(plans[..|plans| - 1])[plans[|plans| - 1].name := plans[|plans| - 1].count]
  }

  predicate WithinLimit(job: Job, plans: map<string, nat>) {
    job.name in plans && plans[job.name] <= JobLimit(job)
  }

  predicate AllWithinLimits(jobs: seq<Job>, plans: map<string, nat>) {
    forall i | 0 <= i < |jobs| :: WithinLimit(jobs[i], plans)
  }

  function Planned(jobs: seq<Job>, plans: map<string, nat>): nat
    requires AllWithinLimits(jobs, plans)
  {
    if jobs == [] then 0
    else Planned(jobs[..|jobs| - 1], plans) + plans[jobs[|jobs| - 1].name]
  }

  /** What is wrong with one job's plan, if anything is. */
  function Problem(job: Job, plans: map<string, nat>): (r: Option<BatchError>)
    ensures r.None? <==> WithinLimit(job, plans)
  {
    if job.name !in plans then Some(MissingDeletionPlan(job.name))
    else if !job.delete && plans[job.name] != 0 then
      Some(DeletionDisabled(job.name, plans[job.name]))
    else if plans[job.name] > JobLimit(job) then
      Some(BatchError.JobDeletionLimit(job.name, plans[job.name], JobLimit(job)))
    else None
  }

  function FirstProblem(jobs: seq<Job>, plans: map<string, nat>): (r: Option<BatchError>)
    ensures r.None? <==> AllWithinLimits(jobs, plans)
  {
    if jobs == [] then None
    else if FirstProblem(jobs[..|jobs| - 1], plans).Some? then FirstProblem(jobs[..|jobs| - 1], plans)
    else
      assert jobs == jobs[..|jobs| - 1] + [jobs[|jobs| - 1]];
      Problem(jobs[|jobs| - 1], plans)
  }

  function PerJob(jobs: seq<Job>, plans: map<string, nat>): seq<JobPreflight>
    requires AllWithinLimits(jobs, plans)
  {
    if jobs == [] then []
    else
      var last := jobs[|jobs| - 1];
      PerJob(jobs[..|jobs| - 1], plans) + [JobPreflight(last.name, plans[last.name], JobLimit(last))]
  }

  ghost function PlanKeys(plans: seq<Plan>): seq<string> {
    Names(plans, PlanName)
  }

  /** What `preflight_deletions` has to answer. */
  ghost function PreflightResult(jobs: seq<Job>, plans: seq<Plan>, limit: Option<nat>)
    : Result<Preflight, BatchError>
  {
    var repeated := Repeated(PlanKeys(plans));
    var unknown := Unknown(PlanKeys(plans), KnownNames(jobs));
    var byJob := ByJob(plans);
    if repeated != {} then Err(DuplicateDeletionPlan(Least(repeated)))
    else if unknown != {} then Err(UnknownDeletionPlan(Least(unknown)))
    else if ConfiguredTotal(jobs) > USIZE_MAX then Err(DeletionCountOverflow)
    else if FirstProblem(jobs, byJob).Some? then Err(FirstProblem(jobs, byJob).value)
    else
      assert AllWithinLimits(jobs, byJob);
      var total, configured := Planned(jobs, byJob), ConfiguredTotal(jobs);
      if limit.Some? && total > limit.value then Err(AggregateDeletionLimit(total, limit.value))
      else
        var effective := if limit.Some? && limit.value < configured then limit.value else configured;
        Ok(Preflight(PerJob(jobs, byJob), total, configured, limit, effective,
                     if effective >= total then effective - total else 0))
  }

  /** Every count is within its job's limit, so the planned total never outgrows the configured one:
      the overflow branch inside the loop cannot be taken and `remaining` never saturates. */
  lemma {:induction false} PlannedFitsConfigured(jobs: seq<Job>, plans: map<string, nat>)
    requires AllWithinLimits(jobs, plans)
    ensures Planned(jobs, plans) <= ConfiguredTotal(jobs)
  {
    if jobs != [] {
      PlannedFitsConfigured(jobs[..|jobs| - 1], plans);
    }
  }

  lemma {:induction false} ConfiguredGrows(jobs: seq<Job>, n: nat)
    requires n <= |jobs|
    ensures ConfiguredTotal(jobs[..n]) <= ConfiguredTotal(jobs)
    decreases |jobs|
  {
    if n < |jobs| {
      ConfiguredGrows(jobs[..|jobs| - 1], n);
      assert jobs[..|jobs| - 1][..n] == jobs[..n];
    } else {
      assert jobs[..n] == jobs;
    }
  }

  predicate PlanAtMost(left: Plan, right: Plan) {
    AtMost(left.name, right.name)
  }

  lemma SortedPlanNames(plans: seq<Plan>)
    ensures Sorted(PlanKeys(Sort(plans, PlanAtMost)), AtMost)
    ensures multiset(Sort(plans, PlanAtMost)) == multiset(plans)
    ensures Repeated(PlanKeys(Sort(plans, PlanAtMost))) == Repeated(PlanKeys(plans))
    ensures Members(PlanKeys(Sort(plans, PlanAtMost))) == Members(PlanKeys(plans))
  {
    AtMostIsTotalPreorder();
    assert IsTotalPreorder(PlanAtMost);
    SortSorts(plans, PlanAtMost);
    var names := PlanKeys(Sort(plans, PlanAtMost));
    assert forall i | 0 <= i < |names| :: names[i] == PlanName(Sort(plans, PlanAtMost)[i]);
    NamesOfPermutation(Sort(plans, PlanAtMost), plans, PlanName);
    RepeatedOfPermutation(PlanKeys(Sort(plans, PlanAtMost)), PlanKeys(plans));
  }

  lemma RepeatedOfPrefix(names: seq<string>, n: nat)
    requires n <= |names| && Repeated(names) == {}
    ensures Repeated(names[..n]) == {}
  {
    hide Repeated;
    forall x ensures x !in Repeated(names[..n]) {
      RepeatedMeans(names[..n], x);
      RepeatedMeans(names, x);
      assert forall i | 0 <= i < n :: names[..n][i] == names[i];
    }
  }

  /** With one plan per name, the map holds exactly the plans. */
  lemma {:induction false} ByJobHoldsPlans(plans: seq<Plan>, name: string, count: nat)
    requires Repeated(PlanKeys(plans)) == {}
    ensures (name in ByJob(plans) && ByJob(plans)[name] == count) <==> Plan(name, count) in plans
  {
    hide Repeated;
    if plans != [] {
      var n := |plans| - 1;
      var front, last := plans[..n], plans[n];
      LastPlanIsNew(plans, count);
      hide PlanKeys;
      ByJobHoldsPlans(front, name, count);
      assert plans == front + [last];
    }
  }

  /** Where no job is planned twice, the last plan's job has none before. */
  lemma LastPlanIsNew(plans: seq<Plan>, count: nat)
    requires plans != [] && Repeated(PlanKeys(plans)) == {}
    ensures var n := |plans| - 1;
      Plan(plans[n].name, count) !in plans[..n] && Repeated(PlanKeys(plans[..n])) == {}
  {
    hide Repeated;
    var n := |plans| - 1;
    var names := PlanKeys(plans);
    assert forall i | 0 <= i < |plans| :: names[i] == PlanName(plans[i]);
    assert PlanKeys(plans[..n]) == names[..n];
    RepeatedOfPrefix(names, n);
    if Plan(plans[n].name, count) in plans[..n] {
      var i :| 0 <= i < n && plans[i] == Plan(plans[n].name, count);
      DistinctIndices(names, i, n);
    }
  }

  /** The map does not depend on the order of the plans. */
  lemma ByJobIsOrderBlind(plans: seq<Plan>, reordered: seq<Plan>)
    requires multiset(plans) == multiset(reordered) && Repeated(PlanKeys(plans)) == {}
    ensures ByJob(plans) == ByJob(reordered)
  {
    hide Repeated;
    NamesOfPermutation(plans, reordered, PlanName);
    RepeatedOfPermutation(PlanKeys(plans), PlanKeys(reordered));
    PlansReappear(plans, reordered);
    PlansReappear(reordered, plans);
  }

  lemma PlansReappear(plans: seq<Plan>, reordered: seq<Plan>)
    requires multiset(plans) == multiset(reordered)
    requires Repeated(PlanKeys(plans)) == {} && Repeated(PlanKeys(reordered)) == {}
    ensures forall name <- ByJob(plans) ::
      name in ByJob(reordered) && ByJob(reordered)[name] == ByJob(plans)[name]
  {
    hide Repeated;
    forall name <- ByJob(plans)
      ensures name in ByJob(reordered) && ByJob(reordered)[name] == ByJob(plans)[name]
    {
      var plan := Plan(name, ByJob(plans)[name]);
      ByJobHoldsPlans(plans, name, plan.count);
      ByJobHoldsPlans(reordered, name, plan.count);
      assert plan in multiset(plans) && plan in multiset(reordered);
    }
  }

  /** Preflight, and any error it reports, is the same for every order of the plans. */
  lemma PreflightIsOrderBlind(jobs: seq<Job>, plans: seq<Plan>, reordered: seq<Plan>,
                              limit: Option<nat>)
    requires multiset(plans) == multiset(reordered)
    ensures PreflightResult(jobs, plans, limit) == PreflightResult(jobs, reordered, limit)
  {
    NamesOfPermutation(plans, reordered, PlanName);
    RepeatedOfPermutation(PlanKeys(plans), PlanKeys(reordered));
    if Repeated(PlanKeys(plans)) == {} {
      ByJobIsOrderBlind(plans, reordered);
    }
  }

  /** Names of plans, in sorted order, that no job has: the first is the least. */
  method FirstUnknown(sorted: seq<Plan>, known: set<string>) returns (r: Option<string>)
    requires Sorted(PlanKeys(sorted), AtMost)
    ensures r == if Unknown(PlanKeys(sorted), known) == {} then None
                 else Some(Least(Unknown(PlanKeys(sorted), known)))
  {
    ghost var names := PlanKeys(sorted);
    assert forall i | 0 <= i < |sorted| :: names[i] == PlanName(sorted[i]);
    for i := 0 to |sorted|
      invariant forall k | 0 <= k < i :: sorted[k].name in known
    {
      if sorted[i].name !in known {
        forall n <- Unknown(names, known) ensures AtMost(sorted[i].name, n) {
          var k :| 0 <= k < |names| && names[k] == n;
        }
        assert names[i] in Unknown(names, known);
        LeastIsUnique(Unknown(names, known), sorted[i].name);
        return Some(sorted[i].name);
      }
    }
    return None;
  }

  /** `ValidatedBatch::preflight_deletions`. */
  method PreflightDeletions(jobs: seq<Job>, plans: seq<Plan>, limit: Option<nat>)
    returns (r: Result<Preflight, BatchError>)
    ensures r == PreflightResult(jobs, plans, limit)
  {
    hide Repeated, Sort, FirstProblem, Planned, PerJob, ByJob;
    SortedPlanNames(plans);
    var sorted := Sort(plans, PlanAtMost);
    var repeated := FirstEqualNeighbours(Names(sorted, PlanName));
    if repeated.Some? {
      return Err(DuplicateDeletionPlan(repeated.value));
    }
    var unknown := FirstUnknown(sorted, set job | job in jobs :: job.name);
    if unknown.Some? {
      return Err(UnknownDeletionPlan(unknown.value));
    }
    ByJobIsOrderBlind(sorted, plans);
    var configured := ConfiguredLimit(jobs);
    if configured.Err? {
      return Err(configured.error);
    }
    var checked := CheckEveryJob(jobs, ByJob(sorted));
    if checked.Err? {
      return Err(checked.error);
    }
    var (perJob, total) := checked.value;
    if limit.Some? && total > limit.value {
      return Err(AggregateDeletionLimit(total, limit.value));
    }
    var effective :=
      if limit.Some? && limit.value < configured.value then limit.value else configured.value;
    return Ok(Preflight(perJob, total, configured.value, limit, effective,
                        if effective >= total then effective - total else 0));
  }

  /** The loop over the jobs, with its running total checked for overflow. */
  method CheckEveryJob(jobs: seq<Job>, plans: map<string, nat>)
    returns (r: Result<(seq<JobPreflight>, nat), BatchError>)
    requires ConfiguredTotal(jobs) <= USIZE_MAX
    ensures r.Err? <==> FirstProblem(jobs, plans).Some?
    ensures r.Err? ==> r.error == FirstProblem(jobs, plans).value
    ensures r.Ok? ==> AllWithinLimits(jobs, plans)
                      && r.value == (PerJob(jobs, plans), Planned(jobs, plans))
  {
    var total: nat := 0;
    var perJob := [];
    for i := 0 to |jobs|
      invariant FirstProblem(jobs[..i], plans).None?
      invariant perJob == PerJob(jobs[..i], plans) && total == Planned(jobs[..i], plans)
    {
      var job := jobs[i];
      assert jobs[..i + 1][..i] == jobs[..i];
      var problem := Problem(job, plans);
      if problem.Some? {
        FirstProblemStays(jobs, i + 1, plans);
        return Err(problem.value);
      }
      PlannedFitsConfigured(jobs[..i + 1], plans);
      ConfiguredGrows(jobs, i + 1);
      if total + plans[job.name] > USIZE_MAX {
        assert false;
      }
      total := total + plans[job.name];
      perJob := perJob + [JobPreflight(job.name, plans[job.name], JobLimit(job))];
    }
    assert jobs[..|jobs|] == jobs;
    return Ok((perJob, total));
  }

  lemma {:induction false} FirstProblemStays(jobs: seq<Job>, n: nat, plans: map<string, nat>)
    requires n <= |jobs| && FirstProblem(jobs[..n], plans).Some?
    ensures FirstProblem(jobs, plans) == FirstProblem(jobs[..n], plans)
    decreases |jobs|
  {
    if n < |jobs| {
      assert jobs[..|jobs| - 1][..n] == jobs[..n];
      FirstProblemStays(jobs[..|jobs| - 1], n, plans);
    } else {
      assert jobs[..n] == jobs;
    }
  }

  // ---- What acceptance means ----

  ghost function Counts(plans: seq<Plan>): nat {
    if plans == [] then 0 else Counts(plans[..|plans| - 1]) + plans[|plans| - 1].count
  }

  /** Exactly one plan for each job and none for another, each within its job's limit, all of them
      together within the aggregate limit, and job limits that add up to a `usize`. */
  ghost predicate IsSafe(jobs: seq<Job>, plans: seq<Plan>, limit: Option<nat>) {
    && Repeated(PlanKeys(plans)) == {}
    && Members(PlanKeys(plans)) == KnownNames(jobs)
    && ConfiguredTotal(jobs) <= USIZE_MAX
    && (forall job <- jobs, plan <- plans | plan.name == job.name ::
          plan.count <= if job.delete then job.maxDelete else 0)
    && (limit.Some? ==> Counts(plans) <= limit.value)
  }

  lemma {:induction false} CountsWithoutOne(plans: seq<Plan>, i: nat)
    requires i < |plans|
    ensures Counts(plans) == Counts(plans[..i] + plans[i + 1..]) + plans[i].count
  {
    var n := |plans| - 1;
    if i == n {
      assert plans[..i] + plans[i + 1..] == plans[..n];
    } else {
      CountsWithoutOne(plans[..n], i);
      var rest := plans[..i] + plans[i + 1..];
      assert rest[..n - 1] == plans[..n][..i] + plans[..n][i + 1..];
    }
  }

  lemma {:induction false} CountsAreOrderBlind(plans: seq<Plan>, reordered: seq<Plan>)
    requires multiset(plans) == multiset(reordered)
    ensures Counts(plans) == Counts(reordered) && |plans| == |reordered|
  {
    if plans == [] {
      assert |multiset(plans)| == |multiset(reordered)|;
    } else {
      var i := FirstElsewhere(plans, reordered);
      CountsAreOrderBlind(plans[1..], reordered[..i] + reordered[i + 1..]);
      CountsWithoutOne(plans, 0);
      assert plans[..0] + plans[1..] == plans[1..];
      CountsWithoutOne(reordered, i);
    }
  }

  /** Sorted plans of exactly the jobs' names line up with the jobs. */
  lemma PlansLineUp(jobs: seq<Job>, sorted: seq<Plan>)
    requires ByName(jobs) && StrictlySorted(PlanKeys(sorted))
    requires Members(PlanKeys(sorted)) == KnownNames(jobs)
    ensures |sorted| == |jobs|
    ensures forall i | 0 <= i < |jobs| :: sorted[i].name == jobs[i].name
  {
    var planNames, jobNames := PlanKeys(sorted), Names(jobs, JobName);
    assert forall i | 0 <= i < |sorted| :: planNames[i] == PlanName(sorted[i]);
    assert forall i | 0 <= i < |jobs| :: jobNames[i] == JobName(jobs[i]);
    assert forall n :: n in jobNames <==> n in KnownNames(jobs);
    EnumerationIsUnique(planNames, KnownNames(jobs));
    EnumerationIsUnique(jobNames, KnownNames(jobs));
  }

  lemma {:induction false} CountsArePlanned(jobs: seq<Job>, sorted: seq<Plan>,
                                            plans: map<string, nat>)
    requires AllWithinLimits(jobs, plans) && |sorted| == |jobs|
    requires forall i | 0 <= i < |jobs| :: sorted[i] == Plan(jobs[i].name, plans[jobs[i].name])
    ensures Counts(sorted) == Planned(jobs, plans)
  {
    if jobs != [] {
      CountsArePlanned(jobs[..|jobs| - 1], sorted[..|jobs| - 1], plans);
    }
  }

  lemma {:induction false} PerJobCoversJobs(jobs: seq<Job>, plans: map<string, nat>)
    requires AllWithinLimits(jobs, plans)
    ensures |PerJob(jobs, plans)| == |jobs|
    ensures forall i | 0 <= i < |jobs| ::
      PerJob(jobs, plans)[i] == JobPreflight(jobs[i].name, plans[jobs[i].name], JobLimit(jobs[i]))
  {
    if jobs != [] {
      PerJobCoversJobs(jobs[..|jobs| - 1], plans);
    }
  }

  /** One plan for every job, and every count within its limit, told on the plans and on the map. */
  lemma SafePlansFitTheMap(jobs: seq<Job>, plans: seq<Plan>)
    requires Repeated(PlanKeys(plans)) == {}
    requires Members(PlanKeys(plans)) <= KnownNames(jobs)
    ensures AllWithinLimits(jobs, ByJob(plans)) <==>
      && Members(PlanKeys(plans)) == KnownNames(jobs)
      && (forall job <- jobs, plan <- plans | plan.name == job.name :: plan.count <= JobLimit(job))
  {
    hide Repeated;
    var names := PlanKeys(plans);
    assert forall i | 0 <= i < |plans| :: names[i] == PlanName(plans[i]);
    forall plan: Plan
      ensures plan in plans <==>
        plan.name in ByJob(plans) && ByJob(plans)[plan.name] == plan.count
    {
      ByJobHoldsPlans(plans, plan.name, plan.count);
    }
    if AllWithinLimits(jobs, ByJob(plans)) {
      forall job <- jobs ensures job.name in names {
        assert WithinLimit(job, ByJob(plans));
        var plan := Plan(job.name, ByJob(plans)[job.name]);
        var i :| 0 <= i < |plans| && plans[i] == plan;
        assert names[i] == job.name;
      }
      forall job <- jobs, plan <- plans | plan.name == job.name
        ensures plan.count <= JobLimit(job)
      {
        assert WithinLimit(job, ByJob(plans));
      }
    } else {
      var k :| 0 <= k < |jobs| && !WithinLimit(jobs[k], ByJob(plans));
      var job := jobs[k];
      assert job in jobs && job.name in KnownNames(jobs);
      if job.name in names {
        var i :| 0 <= i < |names| && names[i] == job.name;
        assert plans[i] in plans;
      }
    }
  }

  lemma PlannedIsCounts(jobs: seq<Job>, plans: seq<Plan>)
    requires ByName(jobs) && Repeated(PlanKeys(plans)) == {}
    requires Members(PlanKeys(plans)) == KnownNames(jobs)
    requires AllWithinLimits(jobs, ByJob(plans))
    ensures Planned(jobs, ByJob(plans)) == Counts(plans) && |plans| == |jobs|
    ensures forall i | 0 <= i < |jobs| :: Plan(jobs[i].name, ByJob(plans)[jobs[i].name]) in plans
  {
    hide Repeated;
    var sorted := Sort(plans, PlanAtMost);
    SortedPlanNames(plans);
    NamesStrictlySorted(PlanKeys(sorted));
    PlansLineUp(jobs, sorted);
    ByJobIsOrderBlind(sorted, plans);
    forall i | 0 <= i < |jobs|
      ensures sorted[i] == Plan(jobs[i].name, ByJob(plans)[jobs[i].name])
    {
      ByJobHoldsPlans(sorted, sorted[i].name, sorted[i].count);
    }
    CountsArePlanned(jobs, sorted, ByJob(plans));
    CountsAreOrderBlind(sorted, plans);
    forall i | 0 <= i < |jobs| ensures Plan(jobs[i].name, ByJob(plans)[jobs[i].name]) in plans {
      ByJobHoldsPlans(plans, jobs[i].name, ByJob(plans)[jobs[i].name]);
    }
  }

  /** Preflight succeeds exactly on safe plans, and then its numbers are exact: plans cover each job
      once, the total is the sum of all plans, the effective limit is the smaller of the two limits,
      and what remains is the difference. */
  lemma PreflightIsExact(jobs: seq<Job>, plans: seq<Plan>, limit: Option<nat>)
    requires ByName(jobs)
    ensures var r := PreflightResult(jobs, plans, limit);
      && (r.Ok? <==> IsSafe(jobs, plans, limit))
      && (r.Ok? ==>
            var p := r.value;
            && p.totalPlanned == Counts(plans) && p.totalPlanned <= p.effectiveLimit
            && p.configuredLimit == ConfiguredTotal(jobs) && p.requestedLimit == limit
            && (limit.None? || limit.value >= p.configuredLimit ==> p.effectiveLimit == p.configuredLimit)
            && (limit.Some? && limit.value < p.configuredLimit ==> p.effectiveLimit == limit.value)
            && p.remaining == p.effectiveLimit - p.totalPlanned
            && |p.perJob| == |jobs| == |plans|
            && forall i | 0 <= i < |jobs| ::
                 && p.perJob[i].name == jobs[i].name
                 && Plan(jobs[i].name, p.perJob[i].planned) in plans
                 && p.perJob[i].planned <= p.perJob[i].maximum
                 && p.perJob[i].maximum == if jobs[i].delete then jobs[i].maxDelete else 0)
  {
    hide Repeated, Unknown;
    var byJob := ByJob(plans);
    var names := PlanKeys(plans);
    if Repeated(names) == {} {
      UnknownMeans(names, KnownNames(jobs));
      if Unknown(names, KnownNames(jobs)) == {} {
        SafePlansFitTheMap(jobs, plans);
        if AllWithinLimits(jobs, byJob) {
          PlannedIsCounts(jobs, plans);
          PlannedFitsConfigured(jobs, byJob);
          PerJobCoversJobs(jobs, byJob);
          assert forall i | 0 <= i < |jobs| :: WithinLimit(jobs[i], byJob);
        }
      }
    }
  }

  lemma UnknownMeans(names: seq<string>, known: set<string>)
    ensures Unknown(names, known) == {} <==> Members(names) <= known
  {
    assert Unknown(names, known) == {} ==> forall n <- Members(names) :: n !in Unknown(names, known);
  }

  // ---- What is refused ----

  ghost predicate PlannedTwice(plans: seq<Plan>, name: string) {
    exists i, j :: 0 <= i < j < |plans| && plans[i].name == name && plans[j].name == name
  }

  ghost predicate PlannedForNoJob(jobs: seq<Job>, plans: seq<Plan>, name: string) {
    (exists plan <- plans :: plan.name == name) && forall job <- jobs :: job.name != name
  }

  /** What an error says of one job and its plan. */
  ghost predicate BlamesJob(job: Job, plans: seq<Plan>, error: BatchError) {
    match error
    case MissingDeletionPlan(name) => name == job.name && forall plan <- plans :: plan.name != name
    case DeletionDisabled(name, planned) =>
      name == job.name && Plan(name, planned) in plans && !job.delete && planned > 0
    case JobDeletionLimit(name, planned, maximum) =>
      name == job.name && Plan(name, planned) in plans && job.delete && maximum == job.maxDelete && planned > maximum
    case _ => false
  }

  /** The error is about this job, and nothing is wrong with any job before it. */
  ghost predicate BlamesFirst(jobs: seq<Job>, k: nat, plans: seq<Plan>, error: BatchError)
    requires k < |jobs|
  {
    BlamesJob(jobs[k], plans, error) && forall i, other | 0 <= i < k :: !BlamesJob(jobs[i], plans, other)
  }

  /** What each error says of the jobs and plans. */
  ghost predicate Blames(jobs: seq<Job>, plans: seq<Plan>, limit: Option<nat>, error: BatchError) {
    match error
    case DuplicateDeletionPlan(name) =>
      PlannedTwice(plans, name) && forall other | PlannedTwice(plans, other) :: AtMost(name, other)
    case UnknownDeletionPlan(name) =>
      PlannedForNoJob(jobs, plans, name) && forall other | PlannedForNoJob(jobs, plans, other) :: AtMost(name, other)
    case DeletionCountOverflow => ConfiguredTotal(jobs) > 0xFFFF_FFFF_FFFF_FFFF
    case AggregateDeletionLimit(planned, maximum) =>
      planned == Counts(plans) && limit == Some(maximum) && planned > maximum
    case _ => exists k | 0 <= k < |jobs| :: BlamesFirst(jobs, k, plans, error)
  }

  /** The order in which the errors are looked for. */
  function TurnOfError(error: BatchError): nat {
    match error
    case DuplicateDeletionPlan(_) => 0
    case UnknownDeletionPlan(_) => 1
    case DeletionCountOverflow => 2
    case AggregateDeletionLimit(_, _) => 4
    case _ => 3
  }

  lemma DuplicateMeans(jobs: seq<Job>, plans: seq<Plan>, limit: Option<nat>, name: string)
    ensures Blames(jobs, plans, limit, DuplicateDeletionPlan(name)) <==>
      Repeated(PlanKeys(plans)) != {} && name == Least(Repeated(PlanKeys(plans)))
  {
    hide Repeated, AtMost, PlannedTwice;
    var repeated := Repeated(PlanKeys(plans));
    forall n ensures n in repeated <==> PlannedTwice(plans, n) { TwiceMeans(plans, n); }
    LeastMeans(repeated, name);
  }

  lemma TwiceMeans(plans: seq<Plan>, n: string)
    ensures n in Repeated(PlanKeys(plans)) <==> PlannedTwice(plans, n)
  {
    hide Repeated;
    var names := PlanKeys(plans);
    assert forall i | 0 <= i < |plans| :: names[i] == PlanName(plans[i]);
    RepeatedMeans(names, n);
    if PlannedTwice(plans, n) {
      var i, j :| 0 <= i < j < |plans| && plans[i].name == n && plans[j].name == n;
      assert names[i] == n && names[j] == n;
    }
    if OccursTwice(names, n) {
      var i, j :| 0 <= i < j < |names| && names[i] == n && names[j] == n;
      assert plans[i].name == n && plans[j].name == n;
    }
  }

  lemma NoJobMeans(jobs: seq<Job>, plans: seq<Plan>, limit: Option<nat>, name: string)
    ensures Blames(jobs, plans, limit, UnknownDeletionPlan(name)) <==>
      var unknown := Unknown(PlanKeys(plans), KnownNames(jobs));
      unknown != {} && name == Least(unknown)
  {
    hide AtMost, PlannedForNoJob;
    var names := PlanKeys(plans);
    forall n ensures n in Unknown(names, KnownNames(jobs)) <==> PlannedForNoJob(jobs, plans, n) {
      StrayMeans(jobs, plans, n);
    }
    LeastMeans(Unknown(names, KnownNames(jobs)), name);
  }

  lemma StrayMeans(jobs: seq<Job>, plans: seq<Plan>, n: string)
    ensures n in Unknown(PlanKeys(plans), KnownNames(jobs)) <==> PlannedForNoJob(jobs, plans, n)
  {
    var names := PlanKeys(plans);
    assert forall i | 0 <= i < |plans| :: names[i] == PlanName(plans[i]);
    if n in names {
      var i :| 0 <= i < |names| && names[i] == n;
      assert plans[i] in plans && plans[i].name == n;
    }
    if plan :| plan in plans && plan.name == n {
      var i :| 0 <= i < |plans| && plans[i] == plan;
      assert names[i] == n;
    }
  }

  lemma ProblemMeans(job: Job, plans: seq<Plan>, error: BatchError)
    requires Repeated(PlanKeys(plans)) == {}
    ensures Problem(job, ByJob(plans)) == Some(error) <==> BlamesJob(job, plans, error)
  {
    var byJob := ByJob(plans);
    MapHoldsPlan(job, plans);
    hide Repeated, ByJob, PlanKeys;
    assert forall plan <- plans :: plan == Plan(plan.name, plan.count);
    if job.name in byJob {
      assert Plan(job.name, byJob[job.name]).name == job.name;
    }
  }

  lemma MapHoldsPlan(job: Job, plans: seq<Plan>)
    requires Repeated(PlanKeys(plans)) == {}
    ensures forall count ::
      (job.name in ByJob(plans) && ByJob(plans)[job.name] == count) <==> Plan(job.name, count) in plans
  {
    hide *;
    forall count ensures
      (job.name in ByJob(plans) && ByJob(plans)[job.name] == count) <==> Plan(job.name, count) in plans
    {
      ByJobHoldsPlans(plans, job.name, count);
    }
  }

  lemma WithinLimitMeans(job: Job, plans: seq<Plan>)
    requires Repeated(PlanKeys(plans)) == {}
    ensures WithinLimit(job, ByJob(plans)) <==> forall error :: !BlamesJob(job, plans, error)
  {
    hide Repeated, ByJob, PlanKeys, BlamesJob, WithinLimit;
    forall error ensures Problem(job, ByJob(plans)) == Some(error) <==> BlamesJob(job, plans, error) {
      ProblemMeans(job, plans, error);
    }
    if Problem(job, ByJob(plans)).Some? { assert BlamesJob(job, plans, Problem(job, ByJob(plans)).value); }
  }

  lemma {:induction false} FirstProblemMeans(jobs: seq<Job>, plans: seq<Plan>, error: BatchError)
    requires Repeated(PlanKeys(plans)) == {}
    ensures FirstProblem(jobs, ByJob(plans)) == Some(error) <==>
      exists k | 0 <= k < |jobs| :: BlamesFirst(jobs, k, plans, error)
  {
    hide Repeated, ByJob, PlanKeys, Problem, BlamesJob, WithinLimit;
    if jobs != [] {
      var n := |jobs| - 1;
      FirstProblemMeans(jobs[..n], plans, error);
      ProblemMeans(jobs[n], plans, error);
      forall k | 0 <= k < n
        ensures WithinLimit(jobs[k], ByJob(plans)) <==> forall other :: !BlamesJob(jobs[k], plans, other)
        ensures BlamesFirst(jobs[..n], k, plans, error) <==> BlamesFirst(jobs, k, plans, error)
      {
        WithinLimitMeans(jobs[k], plans);
        assert forall i | 0 <= i <= k :: jobs[..n][i] == jobs[i];
      }
      if FirstProblem(jobs[..n], ByJob(plans)).None? {
        assert forall k | 0 <= k < n :: WithinLimit(jobs[..n][k], ByJob(plans));
        assert BlamesJob(jobs[n], plans, error) <==> BlamesFirst(jobs, n, plans, error);
      }
    }
  }

  lemma {:induction false} ProblemsAreOfJobs(jobs: seq<Job>, plans: map<string, nat>)
    requires FirstProblem(jobs, plans).Some?
    ensures TurnOfError(FirstProblem(jobs, plans).value) == 3
    ensures var e := FirstProblem(jobs, plans).value;
      e.MissingDeletionPlan? || e.DeletionDisabled? || e.JobDeletionLimit?
  {
    if jobs != [] && FirstProblem(jobs[..|jobs| - 1], plans).Some? {
      ProblemsAreOfJobs(jobs[..|jobs| - 1], plans);
    }
  }

  /** What each error says, in the terms the preflight is told in. */
  lemma BlamesMeans(jobs: seq<Job>, plans: seq<Plan>, limit: Option<nat>, error: BatchError)
    ensures error.DuplicateDeletionPlan? ==>
      (Blames(jobs, plans, limit, error) <==>
         Repeated(PlanKeys(plans)) != {} && error.name == Least(Repeated(PlanKeys(plans))))
    ensures error.UnknownDeletionPlan? ==>
      (Blames(jobs, plans, limit, error) <==>
         Unknown(PlanKeys(plans), KnownNames(jobs)) != {}
         && error.name == Least(Unknown(PlanKeys(plans), KnownNames(jobs))))
    ensures error.DeletionCountOverflow? ==>
      (Blames(jobs, plans, limit, error) <==> ConfiguredTotal(jobs) > USIZE_MAX)
    ensures error.AggregateDeletionLimit? ==>
      (Blames(jobs, plans, limit, error) <==>
         error.planned == Counts(plans) && limit == Some(error.maximum) && error.planned > error.maximum)
    ensures Repeated(PlanKeys(plans)) == {} && TurnOfError(error) == 3 ==>
      (Blames(jobs, plans, limit, error) <==> FirstProblem(jobs, ByJob(plans)) == Some(error))
  {
    if error.DuplicateDeletionPlan? { DuplicateMeans(jobs, plans, limit, error.name); }
    if error.UnknownDeletionPlan? { NoJobMeans(jobs, plans, limit, error.name); }
    if Repeated(PlanKeys(plans)) == {} { FirstProblemMeans(jobs, plans, error); }
    hide Repeated, Unknown, PlanKeys, ByJob, FirstProblem, BlamesFirst;
  }

  /** A preflight fails with the first thing wrong with the jobs and plans, in their terms. */
  lemma PreflightNamesTheProblem(jobs: seq<Job>, plans: seq<Plan>, limit: Option<nat>, error: BatchError)
    requires ByName(jobs)
    ensures PreflightResult(jobs, plans, limit) == Err(error) <==>
      && Blames(jobs, plans, limit, error)
      && forall other | Blames(jobs, plans, limit, other) :: TurnOfError(error) <= TurnOfError(other)
  {
    hide Repeated, Unknown, PlanKeys, ByJob, FirstProblem, Planned, ConfiguredTotal, Counts, ByName;
    hide Blames, PerJob;
    var r := PreflightResult(jobs, plans, limit);
    BlamesMeans(jobs, plans, limit, error);
    if Repeated(PlanKeys(plans)) == {} && Unknown(PlanKeys(plans), KnownNames(jobs)) == {} {
      if FirstProblem(jobs, ByJob(plans)).Some? {
        ProblemsAreOfJobs(jobs, ByJob(plans));
      } else {
        UnknownMeans(PlanKeys(plans), KnownNames(jobs));
        SafePlansFitTheMap(jobs, plans);
        PlannedIsCounts(jobs, plans);
      }
    }
    if r.Err? {
      forall other | Blames(jobs, plans, limit, other) ensures TurnOfError(r.error) <= TurnOfError(other) {
        BlamesMeans(jobs, plans, limit, other);
      }
      BlamesMeans(jobs, plans, limit, r.error);
    }
  }
}
