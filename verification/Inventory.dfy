/** The inventory of a source tree: entries by relative path and the paths a run does not carry. */
module Inventory {
  import opened Strings
  import opened Ordered
  import opened Wrappers

  datatype EntryKind = File | Directory

  /** What the walk records of one entry; the digest is filled in later. */
  datatype LocalEntry = LocalEntry(kind: EntryKind, size: nat, digest: Option<nat>)

  datatype SkipReason =
    | WindowsAttributes
    | LinkOrReparsePoint
    | DehydratedPlaceholder
    | LocalCaseCollision(other: string)
    | Deferred(detail: string)

  datatype SkippedEntry = SkippedEntry(relative: string, reason: SkipReason)

  /** The entries with a path and everything beneath it taken out. */
  ghost function WithoutSubtree<V>(entries: map<string, V>, relative: string): map<string, V> {
    map k | k in entries && !AtOrBeneath(relative, k) :: entries[k]
  }

  /** The keys beneath a path: an ordered scan from `relative/` while the prefix holds. */
  method KeysBeneath<V>(entries: map<string, V>, relative: string) returns (beneath: seq<string>)
    ensures forall k :: k in beneath <==> k in entries && Beneath(relative, k)
  {
    var prefix := relative + "/";
    var keys := OrderedKeys(entries);
    var start := LowerBound(keys, prefix);
    var stop := start;
    while stop < |keys| && prefix <= keys[stop]
      invariant start <= stop <= |keys|
      invariant forall i | start <= i < stop :: prefix <= keys[i]
    {
      stop := stop + 1;
    }
    PrefixRun(keys, prefix, start, stop);
    return keys[start..stop];
  }

  /** The keys from the first not below the prefix to the last that has it are all that have it. */
  lemma PrefixRun(keys: seq<string>, prefix: string, start: nat, stop: nat)
    requires StrictlySorted(keys) && start <= stop <= |keys|
    requires forall i | 0 <= i < start :: Less(keys[i], prefix)
    requires forall i | start <= i < |keys| :: AtMost(prefix, keys[i])
    requires forall i | start <= i < stop :: prefix <= keys[i]
    requires stop < |keys| ==> !(prefix <= keys[stop])
    ensures forall k :: k in keys[start..stop] <==> k in keys && prefix <= k
  {
    hide Less;
    forall i | 0 <= i < |keys| && prefix <= keys[i] ensures start <= i < stop {
      PrefixNotBelow(prefix, keys[i]);
      if stop <= i {
        PrefixedStringsAreContiguous(prefix, keys[stop], keys[i]);
      }
    }
    forall k ensures k in keys[start..stop] <==> k in keys && prefix <= k {
      if k in keys && prefix <= k {
        var i :| 0 <= i < |keys| && keys[i] == k;
        assert keys[start..stop][i - start] == k;
      }
    }
  }

  lemma PrefixNotBelow(prefix: string, s: string)
    requires prefix <= s
    ensures !Less(s, prefix)
  {
    if prefix != s {
      PrefixSortsFirst(prefix, s);
      LessIsAsymmetric(prefix, s);
    }
  }

  /** Take out a path and everything beneath it, the way every withholding in the source does. */
  method RemoveSubtree<V>(entries: map<string, V>, relative: string) returns (rest: map<string, V>)
    ensures rest == WithoutSubtree(entries, relative)
  {
    var beneath := KeysBeneath(entries, relative);
    rest := entries;
    for i := 0 to |beneath|
      invariant forall k :: k in rest <==> k in entries && k !in beneath[..i]
      invariant forall k <- rest :: rest[k] == entries[k]
    {
      rest := rest - {beneath[i]};
      assert beneath[..i + 1] == beneath[..i] + [beneath[i]];
    }
    assert beneath[..|beneath|] == beneath;
    rest := rest - {relative};
  }

  predicate SkipAtMost(left: SkippedEntry, right: SkippedEntry) {
    AtMost(left.relative, right.relative)
  }

  class LocalInventory {
    var entries: map<string, LocalEntry>
    var skipped: seq<SkippedEntry>

    constructor (entries: map<string, LocalEntry>, skipped: seq<SkippedEntry>)
      ensures this.entries == entries && this.skipped == skipped
    {
      this.entries, this.skipped := entries, skipped;
    }

    ghost predicate Valid()
      reads this
    {
      Sorted(skipped, SkipAtMost)
    }

    /** Keep a path out of the run and remember that it is there: exactly the path and its
        descendants leave the entries, and the path joins the skips where it sorts. */
    method Withhold(relative: string, reason: SkipReason)
      requires Valid()
      modifies this
      ensures Valid()
      ensures entries == WithoutSubtree(old(entries), relative)
      ensures multiset(skipped) == multiset(old(skipped)) + multiset{SkippedEntry(relative, reason)}
    {
      entries := RemoveSubtree(entries, relative);
      var at := 0;
      while at < |skipped| && AtMost(skipped[at].relative, relative)
        invariant at <= |skipped|
        invariant forall i | 0 <= i < at :: AtMost(skipped[i].relative, relative)
      {
        at := at + 1;
      }
      InsertionKeepsOrder(skipped, at, SkippedEntry(relative, reason));
      assert skipped == skipped[..at] + skipped[at..];
      skipped := skipped[..at] + [SkippedEntry(relative, reason)] + skipped[at..];
    }
  }

  /** Inserting after every entry at most as great, and before the first greater, keeps the order. */
  lemma InsertionKeepsOrder(skipped: seq<SkippedEntry>, at: nat, entry: SkippedEntry)
    requires Sorted(skipped, SkipAtMost) && at <= |skipped|
    requires forall i | 0 <= i < at :: SkipAtMost(skipped[i], entry)
    requires at < |skipped| ==> !SkipAtMost(skipped[at], entry)
    ensures Sorted(skipped[..at] + [entry] + skipped[at..], SkipAtMost)
  {
    hide Less;
    AtMostIsTotalPreorder();
    if at < |skipped| {
      forall i | at <= i < |skipped| ensures SkipAtMost(entry, skipped[i]) {
        assert SkipAtMost(entry, skipped[at]);
        assert i > at ==> SkipAtMost(skipped[at], skipped[i]);
      }
    }
  }
}
