/** The hashing diagnostic of a source tree: hash every file, take the failing ones out of the run,
    add up the rest. */
module Diagnostics {
  import opened Inventory
  import opened Ordered
  import opened Strings
  import opened Wrappers
  import Collisions
  import ScopedScan
  import SourceWalk
  import WalkOutcome

  const U64_MAX: nat := 0xFFFF_FFFF_FFFF_FFFF

  /** What hashing one file answers; `detail` names the reason and the error. */
  datatype Hashing = Digest(digest: nat) | Failing(detail: string) | Interrupted

  datatype DiagnosticError = Cancelled | ByteCountOverflow | MissingDigest

  datatype Failure = Failure(relative: string, detail: string)

  datatype Report = Report(entries: nat, files: nat, directories: nat, bytes: nat, hashedFiles: nat)

  // ---- Hashing ----

  predicate NeedsHash(entry: LocalEntry) {
    entry.kind.File? && entry.digest.None?
  }

  predicate Fails(entries: map<string, LocalEntry>, hash: string -> Hashing, k: string) {
    k in entries && NeedsHash(entries[k]) && hash(k).Failing?
  }

  function Hashed(entry: LocalEntry, hashing: Hashing): LocalEntry {
    if NeedsHash(entry) && hashing.Digest? then entry.(digest := Some(hashing.digest)) else entry
  }

  ghost function AllHashed(entries: map<string, LocalEntry>, hash: string -> Hashing): map<string, LocalEntry> {
    map k | k in entries :: Hashed(entries[k], hash(k))
  }

  /** The failing files in the order of their paths. */
  function FailuresOf(keys: seq<string>, entries: map<string, LocalEntry>, hash: string -> Hashing): seq<Failure> {
    if keys == [] then [] else
      var n := |keys| - 1;
      FailuresOf(keys[..n], entries, hash)
        + if Fails(entries, hash, keys[n]) then [Failure(keys[n], hash(keys[n]).detail)] else []
  }

  /** The entries when those seen so far are hashed. */
  ghost function HashedSoFar(entries: map<string, LocalEntry>, seen: seq<string>, hash: string -> Hashing)
    : map<string, LocalEntry>
  {
    map k | k in entries :: if k in seen then Hashed(entries[k], hash(k)) else entries[k]
  }

  predicate Interrupts(entries: map<string, LocalEntry>, hash: string -> Hashing, cancelled: string -> bool,
                       k: string)
  {
    k in entries && (cancelled(k) || (NeedsHash(entries[k]) && hash(k).Interrupted?))
  }

  /** Hash in path order; a failing file is noted and left without a digest. `cancelled` answers the
      checks made before each entry. */
  method PopulateDeferring(inventory: LocalInventory, hash: string -> Hashing, cancelled: string -> bool)
    returns (r: Result<seq<Failure>, DiagnosticError>)
    modifies inventory
    ensures inventory.skipped == old(inventory.skipped)
    ensures r.Err? <==> exists k :: Interrupts(old(inventory.entries), hash, cancelled, k)
    ensures r.Err? ==> r.error == Cancelled
    ensures r.Ok? ==> inventory.entries == AllHashed(old(inventory.entries), hash)
    ensures r.Ok? ==>
      r.value == FailuresOf(SortedKeys(old(inventory.entries.Keys)), old(inventory.entries), hash)
  {
    var keys := OrderedKeys(inventory.entries);
    ghost var entries := inventory.entries;
    var failed := [];
    hide Less, SortedKeys, StrictlySorted, Hashed, AllHashed, HashedSoFar, FailuresOf, Interrupts, Populated;
    NothingHashed(entries, hash, cancelled);
    assert keys[..0] == [];
    for i := 0 to |keys|
      invariant inventory.skipped == old(inventory.skipped)
      invariant Populated(entries, keys[..i], hash, cancelled, inventory.entries, failed)
    {
      var k := keys[i];
      assert k in keys;
      OneMoreHashed(keys, i, entries, hash, cancelled, inventory.entries, failed);
      if cancelled(k) {
        return Err(Cancelled);
      }
      var entry := inventory.entries[k];
      if !NeedsHash(entry) {
        continue;
      }
      match hash(k)
      case Digest(digest) => inventory.entries := inventory.entries[k := entry.(digest := Some(digest))];
      case Interrupted => return Err(Cancelled);
      case Failing(detail) => failed := failed + [Failure(k, detail)];
    }
    assert keys[..|keys|] == keys;
    EverythingHashed(keys, entries, hash, cancelled, inventory.entries, failed);
    return Ok(failed);
  }

  /** Where the loop stands after some keys: they are hashed or noted, and none of them cancelled it. */
  ghost predicate Populated(entries: map<string, LocalEntry>, seen: seq<string>, hash: string -> Hashing,
                            cancelled: string -> bool, current: map<string, LocalEntry>, failed: seq<Failure>)
  {
    && current == HashedSoFar(entries, seen, hash) && failed == FailuresOf(seen, entries, hash)
    && (forall k <- seen :: !Interrupts(entries, hash, cancelled, k))
  }

  lemma NothingHashed(entries: map<string, LocalEntry>, hash: string -> Hashing, cancelled: string -> bool)
    ensures Populated(entries, [], hash, cancelled, entries, [])
  {
  }

  lemma EverythingHashed(keys: seq<string>, entries: map<string, LocalEntry>, hash: string -> Hashing,
                         cancelled: string -> bool, current: map<string, LocalEntry>, failed: seq<Failure>)
    requires Populated(entries, keys, hash, cancelled, current, failed)
    requires forall k :: k in keys <==> k in entries.Keys
    ensures current == AllHashed(entries, hash) && failed == FailuresOf(keys, entries, hash)
    ensures !exists k :: Interrupts(entries, hash, cancelled, k)
  {
    hide FailuresOf;
    assert forall k <- entries :: k in keys;
  }

  /** What becomes of the next key, in each of the loop's cases. */
  lemma OneMoreHashed(keys: seq<string>, i: nat, entries: map<string, LocalEntry>, hash: string -> Hashing,
                      cancelled: string -> bool, current: map<string, LocalEntry>, failed: seq<Failure>)
    requires StrictlySorted(keys) && i < |keys| && keys[i] in entries
    requires Populated(entries, keys[..i], hash, cancelled, current, failed)
    ensures var k, seen := keys[i], keys[..i + 1];
      && k in current && current[k] == entries[k]
      && (cancelled(k) || (NeedsHash(entries[k]) && hash(k).Interrupted?)
          <==> Interrupts(entries, hash, cancelled, k))
      && (!Interrupts(entries, hash, cancelled, k) ==>
            if !NeedsHash(entries[k]) then Populated(entries, seen, hash, cancelled, current, failed)
            else match hash(k)
                 case Digest(digest) =>
                   Populated(entries, seen, hash, cancelled,
                             current[k := entries[k].(digest := Some(digest))], failed)
                 case Failing(detail) =>
                   Populated(entries, seen, hash, cancelled, current, failed + [Failure(k, detail)])
                 case Interrupted => true)
  {
    hide Less;
    NotSeenBefore(keys, i);
    assert keys[..i + 1] == keys[..i] + [keys[i]];
    assert keys[..i + 1][..i] == keys[..i];
  }

  // ---- Withholding what failed ----

  ghost predicate UnderFailure(entries: map<string, LocalEntry>, hash: string -> Hashing, p: string) {
    exists k <- entries :: Fails(entries, hash, k) && AtOrBeneath(k, p)
  }

  /** What remains when every failing file is taken out with what lies beneath it. */
  ghost function Remaining(entries: map<string, LocalEntry>, hash: string -> Hashing): map<string, LocalEntry> {
    map p | p in entries && !UnderFailure(entries, hash, p) :: Hashed(entries[p], hash(p))
  }

  function DeferralOf(f: Failure): SkippedEntry {
    SkippedEntry(f.relative, Deferred(f.detail))
  }

  function Deferrals(failed: seq<Failure>): seq<SkippedEntry> {
    seq(|failed|, i requires 0 <= i < |failed| => DeferralOf(failed[i]))
  }

  /** The noted failures are the failing files, each once. */
  lemma {:induction false} FailuresAre(keys: seq<string>, entries: map<string, LocalEntry>, hash: string -> Hashing)
    requires StrictlySorted(keys)
    ensures forall f :: f in FailuresOf(keys, entries, hash)
              <==> f.relative in keys && Fails(entries, hash, f.relative) && f.detail == hash(f.relative).detail
    ensures forall f <- FailuresOf(keys, entries, hash) :: multiset(FailuresOf(keys, entries, hash))[f] == 1
  {
    if keys != [] {
      var n := |keys| - 1;
      var front := FailuresOf(keys[..n], entries, hash);
      FailuresAre(keys[..n], entries, hash);
      NotSeenBefore(keys, n);
      assert keys == keys[..n] + [keys[n]];
      if Fails(entries, hash, keys[n]) {
        var last := Failure(keys[n], hash(keys[n]).detail);
        assert last !in front;
        assert multiset(front)[last] == 0;
        assert FailuresOf(keys, entries, hash) == front + [last];
      }
    }
  }

  ghost predicate OutsideAll(failed: seq<Failure>, p: string) {
    forall f <- failed :: !AtOrBeneath(f.relative, p)
  }

  /** Take every noted file out, one after another. */
  method WithholdAll(inventory: LocalInventory, failed: seq<Failure>)
    requires inventory.Valid()
    modifies inventory
    ensures inventory.Valid()
    ensures forall p :: p in inventory.entries <==> p in old(inventory.entries) && OutsideAll(failed, p)
    ensures forall p <- inventory.entries :: inventory.entries[p] == old(inventory.entries)[p]
    ensures multiset(inventory.skipped) == multiset(old(inventory.skipped)) + multiset(Deferrals(failed))
  {
    for i := 0 to |failed|
      invariant inventory.Valid()
      invariant forall p :: p in inventory.entries <==> p in old(inventory.entries) && OutsideAll(failed[..i], p)
      invariant forall p <- inventory.entries :: inventory.entries[p] == old(inventory.entries)[p]
      invariant multiset(inventory.skipped) == multiset(old(inventory.skipped)) + multiset(Deferrals(failed[..i]))
    {
      assert failed[..i + 1] == failed[..i] + [failed[i]];
      assert Deferrals(failed[..i + 1]) == Deferrals(failed[..i]) + [DeferralOf(failed[i])];
      inventory.Withhold(failed[i].relative, Deferred(failed[i].detail));
    }
    assert failed[..|failed|] == failed;
  }

  // ---- Adding up ----

  ghost function FilesIn(entries: map<string, LocalEntry>): set<string> {
    set k | k in entries && entries[k].kind.File?
  }

  ghost function HashedIn(entries: map<string, LocalEntry>): set<string> {
    set k | k in entries && entries[k].kind.File? && entries[k].digest.Some?
  }

  function BytesOf(keys: seq<string>, entries: map<string, LocalEntry>): nat {
    if keys == [] then 0 else
      var n := |keys| - 1;
      BytesOf(keys[..n], entries)
        + if keys[n] in entries && entries[keys[n]].kind.File? then entries[keys[n]].size else 0
  }

  lemma {:induction false} BytesGrow(keys: seq<string>, entries: map<string, LocalEntry>, i: nat)
    requires i <= |keys|
    ensures BytesOf(keys[..i], entries) <= BytesOf(keys, entries)
    decreases |keys|
  {
    if i < |keys| {
      BytesGrow(keys[..|keys| - 1], entries, i);
      assert keys[..|keys| - 1][..i] == keys[..i];
    } else {
      assert keys[..i] == keys;
    }
  }

  ghost function DirectoriesIn(entries: map<string, LocalEntry>): set<string> {
    set k | k in entries && entries[k].kind.Directory?
  }

  ghost function ReportOf(entries: map<string, LocalEntry>): Report {
    Report(|entries|, |FilesIn(entries)|, |DirectoriesIn(entries)|,
           BytesOf(SortedKeys(entries.Keys), entries), |HashedIn(entries)|)
  }

  /** How many of the paths seen are files, folders and hashed files. */
  ghost predicate Counted(seen: seq<string>, entries: map<string, LocalEntry>, files: nat, directories: nat,
                          hashed: nat)
  {
    var keys := set k | k in seen;
    && files == |keys * FilesIn(entries)| && directories == |keys * DirectoriesIn(entries)|
    && hashed == |keys * HashedIn(entries)|
  }

  lemma OneMoreOf(seen: set<string>, k: string, wanted: set<string>)
    requires k !in seen
    ensures |(seen + {k}) * wanted| == |seen * wanted| + if k in wanted then 1 else 0
  {
    assert (seen + {k}) * wanted == if k in wanted then seen * wanted + {k} else seen * wanted;
  }

  lemma OneMoreCounted(seen: seq<string>, k: string, entries: map<string, LocalEntry>, files: nat,
                       directories: nat, hashed: nat)
    requires k !in seen && k in entries && Counted(seen, entries, files, directories, hashed)
    ensures Counted(seen + [k], entries,
                    files + if entries[k].kind.File? then 1 else 0,
                    directories + if entries[k].kind.File? then 0 else 1,
                    hashed + if entries[k].kind.File? && entries[k].digest.Some? then 1 else 0)
  {
    var keys := set j | j in seen;
    assert (set j | j in seen + [k]) == keys + {k};
    OneMoreOf(keys, k, FilesIn(entries));
    OneMoreOf(keys, k, DirectoriesIn(entries));
    OneMoreOf(keys, k, HashedIn(entries));
  }

  lemma EverythingCounted(seen: seq<string>, entries: map<string, LocalEntry>, files: nat, directories: nat,
                          hashed: nat)
    requires Counted(seen, entries, files, directories, hashed) && forall k :: k in seen <==> k in entries.Keys
    ensures files == |FilesIn(entries)| && directories == |DirectoriesIn(entries)| && hashed == |HashedIn(entries)|
  {
    var keys := set k | k in seen;
    assert keys * FilesIn(entries) == FilesIn(entries);
    assert keys * DirectoriesIn(entries) == DirectoriesIn(entries);
    assert keys * HashedIn(entries) == HashedIn(entries);
  }

  lemma OneMoreSummed(keys: seq<string>, i: nat, entries: map<string, LocalEntry>)
    requires StrictlySorted(keys) && i < |keys| && keys[i] in entries
    ensures keys[i] !in keys[..i] && keys[..i + 1] == keys[..i] + [keys[i]]
    ensures BytesOf(keys[..i + 1], entries)
         == BytesOf(keys[..i], entries) + if entries[keys[i]].kind.File? then entries[keys[i]].size else 0
    ensures BytesOf(keys[..i + 1], entries) <= BytesOf(keys, entries)
  {
    NotSeenBefore(keys, i);
    assert keys[..i + 1][..i] == keys[..i];
    BytesGrow(keys, entries, i + 1);
  }

  method AddUp(entries: map<string, LocalEntry>) returns (r: Result<Report, DiagnosticError>)
    ensures r == if BytesOf(SortedKeys(entries.Keys), entries) > U64_MAX then Err(ByteCountOverflow)
                 else Ok(ReportOf(entries))
  {
    hide Less, SortedKeys, StrictlySorted, BytesOf, Counted;
    var keys := OrderedKeys(entries);
    var files, directories, bytes, hashed := 0, 0, 0, 0;
    NothingCounted(entries);
    assert keys[..0] == [];
    for i := 0 to |keys|
      invariant Counted(keys[..i], entries, files, directories, hashed)
      invariant bytes == BytesOf(keys[..i], entries) <= U64_MAX
    {
      var k := keys[i];
      assert k in keys;
      var entry := entries[k];
      OneMoreSummed(keys, i, entries);
      OneMoreCounted(keys[..i], k, entries, files, directories, hashed);
      match entry.kind
      case Directory => directories := directories + 1;
      case File =>
        files := files + 1;
        if bytes + entry.size > U64_MAX {
          return Err(ByteCountOverflow);
        }
        bytes := bytes + entry.size;
        if entry.digest.Some? {
          hashed := hashed + 1;
        }
    }
    assert keys[..|keys|] == keys;
    EverythingCounted(keys, entries, files, directories, hashed);
    return Ok(Report(|entries|, files, directories, bytes, hashed));
  }

  lemma NothingCounted(entries: map<string, LocalEntry>)
    ensures BytesOf([], entries) == 0 && Counted([], entries, 0, 0, 0)
  {
  }

  // ---- The diagnostic ----

  /** When the run is cancelled: at the first check, before some entry, at the last check. */
  datatype Cancellation = Cancellation(first: bool, before: string -> bool, last: bool)

  ghost predicate IsCancelled(entries: map<string, LocalEntry>, hashContent: bool, hash: string -> Hashing,
                              c: Cancellation)
  {
    c.first || c.last || (hashContent && exists k :: Interrupts(entries, hash, c.before, k))
  }

  ghost function Left(entries: map<string, LocalEntry>, hashContent: bool, hash: string -> Hashing)
    : map<string, LocalEntry>
  {
    if hashContent then Remaining(entries, hash) else entries
  }

  ghost function DeferralsOf(entries: map<string, LocalEntry>, hash: string -> Hashing): seq<SkippedEntry> {
    Deferrals(FailuresOf(SortedKeys(entries.Keys), entries, hash))
  }

  /** How the skips stand after a hashing diagnostic. */
  ghost predicate SkipsAfter(entries: map<string, LocalEntry>, skipped: seq<SkippedEntry>,
                           hash: string -> Hashing, after: seq<SkippedEntry>)
  {
    multiset(after) == multiset(skipped) + multiset(DeferralsOf(entries, hash))
  }

  /** Whatever happens while hashing, the report is about what remains; the guard on missing digests
      never fires. */
  method FinishDiagnostic(inventory: LocalInventory, hashContent: bool, hash: string -> Hashing, c: Cancellation)
    returns (r: Result<Report, DiagnosticError>)
    requires inventory.Valid()
    modifies inventory
    ensures inventory.Valid()
    ensures IsCancelled(old(inventory.entries), hashContent, hash, c) ==> r == Err(Cancelled)
    ensures !IsCancelled(old(inventory.entries), hashContent, hash, c) ==>
      && inventory.entries == Left(old(inventory.entries), hashContent, hash)
      && (if hashContent
          then SkipsAfter(old(inventory.entries), old(inventory.skipped), hash, inventory.skipped)
          else inventory.skipped == old(inventory.skipped))
      && r == (if BytesOf(SortedKeys(inventory.entries.Keys), inventory.entries) > U64_MAX
               then Err(ByteCountOverflow) else Ok(ReportOf(inventory.entries)))
  {
    hide Less, SortedKeys, StrictlySorted, BytesOf, FailuresOf, Remaining, AllHashed, Interrupts;
    ghost var entries := inventory.entries;
    if c.first {
      return Err(Cancelled);
    }
    if hashContent {
      var failed := PopulateDeferring(inventory, hash, c.before);
      if failed.Err? {
        return Err(failed.error);
      }
      WithholdAll(inventory, failed.value);
      WithheldIsRemaining(entries, hash, inventory.entries);
    }
    if c.last {
      return Err(Cancelled);
    }
    r := AddUp(inventory.entries);
    if hashContent {
      RemainingAreHashed(entries, hash, c.before);
    }
    if r.Err? {
      return;
    }
    return if hashContent && r.value.hashedFiles != r.value.files then Err(MissingDigest) else r;
  }

  lemma WithheldIsRemaining(entries: map<string, LocalEntry>, hash: string -> Hashing, left: map<string, LocalEntry>)
    requires var failed := FailuresOf(SortedKeys(entries.Keys), entries, hash);
      && (forall p :: p in left <==> p in AllHashed(entries, hash) && OutsideAll(failed, p))
      && (forall p <- left :: left[p] == AllHashed(entries, hash)[p])
    ensures left == Remaining(entries, hash)
  {
    hide SortedKeys, FailuresOf, OutsideAll, UnderFailure, Hashed;
    forall p
      ensures OutsideAll(FailuresOf(SortedKeys(entries.Keys), entries, hash), p) <==> !UnderFailure(entries, hash, p)
    {
      OutsideMeansNotUnder(entries, hash, p);
    }
  }

  lemma OutsideMeansNotUnder(entries: map<string, LocalEntry>, hash: string -> Hashing, p: string)
    ensures OutsideAll(FailuresOf(SortedKeys(entries.Keys), entries, hash), p) <==> !UnderFailure(entries, hash, p)
  {
    hide SortedKeys, FailuresOf, Less, AtOrBeneath;
    var failed := FailuresOf(SortedKeys(entries.Keys), entries, hash);
    FailuresAre(SortedKeys(entries.Keys), entries, hash);
    if k :| k in entries && Fails(entries, hash, k) && AtOrBeneath(k, p) {
      assert Failure(k, hash(k).detail) in failed;
    }
    if f :| f in failed && AtOrBeneath(f.relative, p) {
      assert Fails(entries, hash, f.relative);
    }
  }

  lemma RemainingAreHashed(entries: map<string, LocalEntry>, hash: string -> Hashing, cancelled: string -> bool)
    requires !exists k :: Interrupts(entries, hash, cancelled, k)
    ensures HashedIn(Remaining(entries, hash)) == FilesIn(Remaining(entries, hash))
  {
    forall k <- FilesIn(Remaining(entries, hash)) ensures k in HashedIn(Remaining(entries, hash)) {
      assert !Interrupts(entries, hash, cancelled, k);
      assert Fails(entries, hash, k) ==> UnderFailure(entries, hash, k);
    }
  }

  // ---- Every file is accounted for ----

  /** Nothing lies beneath a file. */
  ghost predicate FilesAreBare(entries: map<string, LocalEntry>) {
    forall p, q | p in entries && Beneath(q, p) && q in entries :: !entries[q].kind.File?
  }

  lemma DeferralsCount(failed: seq<Failure>, f: Failure)
    ensures multiset(Deferrals(failed))[DeferralOf(f)] == multiset(failed)[f]
    decreases |failed|
  {
    if failed != [] {
      var n := |failed| - 1;
      DeferralsCount(failed[..n], f);
      assert failed == failed[..n] + [failed[n]];
      assert Deferrals(failed) == Deferrals(failed[..n]) + [DeferralOf(failed[n])];
    }
  }

  /** In what the diagnostic leaves, each original file is accounted for exactly once. A file without a digest
      that cannot be hashed is one skip that names why, and no entry. Any other remains as it was with its own
      digest or the one hashed, is counted, and no skip names it. */
  lemma EachFileIsAccountedOnce(entries: map<string, LocalEntry>, skipped: seq<SkippedEntry>,
                                hash: string -> Hashing, cancelled: string -> bool,
                                after: seq<SkippedEntry>, k: string)
    requires FilesAreBare(entries) && WalkOutcome.Disjoint(entries, skipped) && k in FilesIn(entries)
    requires !exists j :: Interrupts(entries, hash, cancelled, j)
    requires SkipsAfter(entries, skipped, hash, after)
    ensures if entries[k].digest.None? && hash(k).Failing? then
        && k !in Remaining(entries, hash)
        && multiset(after)[SkippedEntry(k, Deferred(hash(k).detail))] == 1
        && forall skip <- after | skip.relative == k :: skip.reason == Deferred(hash(k).detail)
      else
        && k in Remaining(entries, hash) && k in HashedIn(Remaining(entries, hash))
        && (entries[k].digest.None? ==> hash(k).Digest?)
        && Remaining(entries, hash)[k]
             == entries[k].(digest := if entries[k].digest.None? then Some(hash(k).digest) else entries[k].digest)
        && forall skip <- after :: skip.relative != k
  {
    hide SortedKeys, FailuresOf, Less, Deferrals;
    DeferralsAreFailures(entries, hash, k);
    if Fails(entries, hash, k) {
      assert UnderFailure(entries, hash, k);
      assert SkippedEntry(k, Deferred(hash(k).detail)) !in skipped;
    } else {
      OnlyItselfIsWithheld(entries, hash, k);
      assert !Interrupts(entries, hash, cancelled, k);
    }
    forall skip <- after | skip.relative == k
      ensures Fails(entries, hash, k) && skip.reason == Deferred(hash(k).detail)
    {
      assert skip in multiset(after) && skip !in skipped;
      assert skip in multiset(DeferralsOf(entries, hash));
    }
  }

  /** Among the new deferrals, a failing file occurs once and no other file at all. */
  lemma DeferralsAreFailures(entries: map<string, LocalEntry>, hash: string -> Hashing, k: string)
    ensures Fails(entries, hash, k) ==>
      multiset(DeferralsOf(entries, hash))[SkippedEntry(k, Deferred(hash(k).detail))] == 1
    ensures forall skip <- DeferralsOf(entries, hash) | skip.relative == k ::
      Fails(entries, hash, k) && skip.reason == Deferred(hash(k).detail)
  {
    hide SortedKeys, FailuresOf, Less;
    var failed := FailuresOf(SortedKeys(entries.Keys), entries, hash);
    FailuresAre(SortedKeys(entries.Keys), entries, hash);
    if Fails(entries, hash, k) {
      var f := Failure(k, hash(k).detail);
      assert f in failed;
      DeferralsCount(failed, f);
    }
    forall skip <- DeferralsOf(entries, hash) | skip.relative == k
      ensures Fails(entries, hash, k) && skip.reason == Deferred(hash(k).detail)
    {
      var i :| 0 <= i < |failed| && DeferralOf(failed[i]) == skip;
      assert failed[i] in failed;
    }
  }

  /** A file that is neither left nor deferred. */
  ghost predicate Unaccounted(entries: map<string, LocalEntry>, hash: string -> Hashing, p: string) {
    p in FilesIn(entries) && p !in Remaining(entries, hash) && !Fails(entries, hash, p)
  }

  /** For any inventory: no hashing whatever leaves a file unaccounted for, exactly when no file lies
      beneath a file that is still to be hashed. */
  lemma AccountedExactlyWhen(entries: map<string, LocalEntry>)
    ensures (forall hash: string -> Hashing, p :: !Unaccounted(entries, hash, p))
       <==> (forall p, q | p in FilesIn(entries) && Beneath(q, p) && q in entries :: !NeedsHash(entries[q]))
  {
    hide Less, Beneath;
    forall p, q | p in FilesIn(entries) && Beneath(q, p) && q in entries && NeedsHash(entries[q])
      ensures exists hash: string -> Hashing, x :: Unaccounted(entries, hash, x)
    {
      BeneathIsLonger(q, p);
      var hash := k => if k == q then Failing("unreadable") else Digest(0);
      assert Fails(entries, hash, q) && UnderFailure(entries, hash, p);
      assert Unaccounted(entries, hash, p);
    }
  }

  lemma BeneathIsLonger(upper: string, lower: string)
    requires Beneath(upper, lower)
    ensures upper != lower
  {
  }

  /** One inventory that meets no such condition, and the file it loses. */
  lemma FileBeneathAFileIsLost()
    ensures var file := LocalEntry(File, 1, None);
            var hash := k => if k == "a" then Failing("unreadable") else Digest(0);
      Unaccounted(map["a" := file, "a/b" := file], hash, "a/b")
  {
    var file := LocalEntry(File, 1, None);
    var entries := map["a" := file, "a/b" := file];
    var hash := k => if k == "a" then Failing("unreadable") else Digest(0);
    assert "a/b"[..2] == "a" + "/" && Beneath("a", "a/b");
    assert Fails(entries, hash, "a") && AtOrBeneath("a", "a/b") && UnderFailure(entries, hash, "a/b");
  }

  /** Folders stay, and every file taken out is one deferral. */
  lemma NothingElseIsLost(entries: map<string, LocalEntry>, hash: string -> Hashing)
    requires FilesAreBare(entries)
    ensures DirectoriesIn(Remaining(entries, hash)) == DirectoriesIn(entries)
    ensures forall k <- DirectoriesIn(entries) ::
      k in Remaining(entries, hash) && Remaining(entries, hash)[k] == entries[k]
    ensures |FilesIn(entries)| == |FilesIn(Remaining(entries, hash))| + |DeferralsOf(entries, hash)|
  {
    hide SortedKeys, FailuresOf, Less, Fails, Remaining, StrictlySorted;
    var failing := set k | k in entries && Fails(entries, hash, k);
    var keys := SortedKeys(entries.Keys);
    RemainingSplits(entries, hash, failing);
    FailuresCounted(keys, entries, hash);
    assert (set k | k in keys && Fails(entries, hash, k)) == failing;
    FoldersStay(entries, hash);
  }

  lemma FoldersStay(entries: map<string, LocalEntry>, hash: string -> Hashing)
    requires FilesAreBare(entries)
    ensures forall k <- DirectoriesIn(entries) ::
      k in Remaining(entries, hash) && Remaining(entries, hash)[k] == entries[k]
  {
    forall k <- DirectoriesIn(entries) ensures !UnderFailure(entries, hash, k) {
      OnlyItselfIsWithheld(entries, hash, k);
    }
  }

  lemma RemainingSplits(entries: map<string, LocalEntry>, hash: string -> Hashing, failing: set<string>)
    requires FilesAreBare(entries) && failing == set k | k in entries && Fails(entries, hash, k)
    ensures DirectoriesIn(Remaining(entries, hash)) == DirectoriesIn(entries)
    ensures FilesIn(entries) == FilesIn(Remaining(entries, hash)) + failing
    ensures FilesIn(Remaining(entries, hash)) !! failing
  {
    hide UnderFailure, FilesAreBare;
    forall p <- entries ensures UnderFailure(entries, hash, p) <==> Fails(entries, hash, p) {
      OnlyItselfIsWithheld(entries, hash, p);
    }
    hide Fails;
    forall p <- failing ensures p in FilesIn(entries) {
      FailingIsAFile(entries, hash, p);
    }
    var left := Remaining(entries, hash);
    assert forall p :: p in left <==> p in entries && p !in failing;
    assert forall p <- left :: left[p].kind == entries[p].kind;
  }

  lemma FailingIsAFile(entries: map<string, LocalEntry>, hash: string -> Hashing, p: string)
    requires Fails(entries, hash, p)
    ensures p in FilesIn(entries)
  {
  }

  /** With nothing beneath a file, withholding takes the file alone. */
  lemma OnlyItselfIsWithheld(entries: map<string, LocalEntry>, hash: string -> Hashing, p: string)
    requires FilesAreBare(entries) && p in entries
    ensures UnderFailure(entries, hash, p) <==> Fails(entries, hash, p)
  {
    hide Beneath;
    if k :| k in entries && Fails(entries, hash, k) && AtOrBeneath(k, p) {
      assert k == p || Beneath(k, p);
    }
  }

  lemma {:induction false} FailuresCounted(keys: seq<string>, entries: map<string, LocalEntry>,
                                           hash: string -> Hashing)
    requires StrictlySorted(keys)
    ensures |FailuresOf(keys, entries, hash)| == |set k | k in keys && Fails(entries, hash, k)|
  {
    if keys != [] {
      var n := |keys| - 1;
      FailuresCounted(keys[..n], entries, hash);
      NotSeenBefore(keys, n);
      OneMoreFailing(keys[..n], keys[n], entries, hash);
      assert keys == keys[..n] + [keys[n]];
    }
  }

  lemma OneMoreFailing(keys: seq<string>, last: string, entries: map<string, LocalEntry>, hash: string -> Hashing)
    requires last !in keys
    ensures |set k | k in keys + [last] && Fails(entries, hash, k)|
         == |set k | k in keys && Fails(entries, hash, k)| + if Fails(entries, hash, last) then 1 else 0
  {
    hide Fails;
    var before := set k | k in keys && Fails(entries, hash, k);
    assert (set k | k in keys + [last] && Fails(entries, hash, k))
        == if Fails(entries, hash, last) then before + {last} else before;
  }

  /** A scan leaves nothing beneath a file and skips no entry, so all of this applies to what a scan
      hands over. */
  lemma ScanLeavesFilesBare(c: SourceWalk.Context, root: SourceWalk.Node, budget: nat, fold: string -> string,
                            r: ScopedScan.ScopedScan)
    requires root.Folder? && SourceWalk.WellNamed(root) && Collisions.FoldContract(fold)
    requires ScopedScan.IsScan(c, root, budget, fold, r)
    ensures FilesAreBare(r.entries) && WalkOutcome.Disjoint(r.entries, r.skipped)
    ensures Sorted(r.skipped, SkipAtMost)
  {
    hide ScopedScan.Walked, Less;
    ScopedScan.WalkedIsClosedAndDisjoint(c, root, budget);
    ScopedScan.ScanIsSafe(c, root, budget, fold, r);
  }
}
