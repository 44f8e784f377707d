/** Spellings that fold to one name: which entries have to leave the inventory, and the
    pass that takes them out. */
module Collisions {
  import opened Strings
  import opened Ordered
  import opened Inventory
  import opened Wrappers

  // ---- The folding of names ----

  predicate Distributes(fold: string -> string, a: string, b: string) {
    fold(a + "/" + b) == fold(a) + "/" + fold(b)
  }

  /** What the pass needs of the folding: it leaves slashes alone, and no text moves across one. */
  ghost predicate FoldContract(fold: string -> string) {
    && (forall a, b :: Distributes(fold, a, b))
    && (forall name | Slashless(name) :: Slashless(fold(name)))
  }

  predicate Ascii(s: string) {
    forall c <- s :: c < 128 as char
  }

  function LowerAscii(s: string): (r: string)
    ensures |r| == |s|
  {
    seq(|s|, i requires 0 <= i < |s| =>
      if 'A' <= s[i] <= 'Z' then (s[i] as int + 32) as char else s[i])
  }

  /** The folding itself: the Unicode tables are consulted only for text that is not ASCII. */
  function PortableFold(unicode: string -> string, s: string): string {
    if Ascii(s) then LowerAscii(s) else unicode(s)
  }

  /** The shortcut is sound: tables that leave slashes alone, and lower an ASCII path component the
      ASCII way, make a folding that meets the contract. */
  lemma PortableFoldMeetsContract(unicode: string -> string)
    requires FoldContract(unicode)
    requires forall s | Ascii(s) && Slashless(s) :: unicode(s) == LowerAscii(s)
    ensures FoldContract(s => PortableFold(unicode, s))
  {
    forall s ensures PortableFold(unicode, s) == unicode(s) {
      AsciiAgrees(unicode, s);
    }
    var fold := s => PortableFold(unicode, s);
    forall a, b ensures Distributes(fold, a, b) {
      assert Distributes(unicode, a, b);
    }
  }

  lemma {:induction false} AsciiAgrees(unicode: string -> string, s: string)
    requires FoldContract(unicode)
    requires forall s | Ascii(s) && Slashless(s) :: unicode(s) == LowerAscii(s)
    ensures PortableFold(unicode, s) == unicode(s)
    decreases |s|
  {
    var first := FirstComponent(s);
    if Ascii(s) && first != s {
      var rest := s[|first| + 1..];
      assert s == first + "/" + rest;
      AsciiLowersInParts(first, rest);
      hide Ascii, LowerAscii;
      AsciiAgrees(unicode, rest);
      assert Distributes(unicode, first, rest);
    }
  }

  lemma AsciiLowersInParts(a: string, b: string)
    requires Ascii(a + "/" + b)
    ensures Ascii(a) && Ascii(b) && LowerAscii(a + "/" + b) == LowerAscii(a) + "/" + LowerAscii(b)
  {
    var s := a + "/" + b;
    forall i | 0 <= i < |a| ensures a[i] < 128 as char {
      assert s[i] in s;
    }
    forall i | 0 <= i < |b| ensures b[i] < 128 as char {
      assert s[|a| + 1 + i] == b[i] && s[|a| + 1 + i] in s;
    }
  }

  lemma FoldKeepsBeneath(fold: string -> string, a: string, q: string)
    requires FoldContract(fold) && Beneath(a, q)
    ensures Beneath(fold(a), fold(q))
  {
    var rest := q[|a| + 1..];
    assert q == a + "/" + rest;
    assert Distributes(fold, a, rest);
  }

  /** A prefix of a folded path is the fold of a prefix of the path. */
  lemma {:induction false} FoldedAncestor(fold: string -> string, g: string, q: string)
    returns (a: string)
    requires FoldContract(fold) && Beneath(g, fold(q))
    ensures Beneath(a, q) && fold(a) == g
    decreases |q|
  {
    var first := FirstComponent(q);
    assert '/' in fold(q) by { assert fold(q)[|g|] == '/'; }
    assert first != q;
    var rest := q[|first| + 1..];
    assert q == first + "/" + rest;
    assert Distributes(fold, first, rest);
    var head, tail := fold(first), fold(rest);
    assert fold(q) == head + "/" + tail;
    if |g| == |head| {
      assert g == fold(q)[..|g|] == head;
      a := first;
    } else {
      ShortPrefixHasNoSlash(head, tail, g);
      var g' := g[|head| + 1..];
      assert g == head + "/" + g';
      assert Beneath(g', tail) by {
        assert fold(q)[|head| + 1..] == tail;
        assert (g + "/")[|head| + 1..] == g' + "/";
      }
      var a' := FoldedAncestor(fold, g', rest);
      a := first + "/" + a';
      assert Distributes(fold, first, a');
      assert q == first + "/" + rest && a' + "/" <= rest;
    }
  }

  lemma ShortPrefixHasNoSlash(head: string, tail: string, g: string)
    requires Beneath(g, head + "/" + tail) && |g| != |head|
    ensures Slashless(head) ==> |g| > |head| && g[|head|] == '/' && g[..|head|] == head
  {
    var whole := head + "/" + tail;
    assert whole[|g|] == '/' && g == whole[..|g|];
    if |g| < |head| {
      assert whole[|g|] in head;
    } else {
      assert g[|head|] == whole[|head|];
    }
  }

  // ---- Which entries collide ----

  ghost function SkipPaths(skipped: seq<SkippedEntry>): set<string> {
    set skip | skip in skipped :: skip.relative
  }

  /** An entry with the fold of a different entry or skip. */
  ghost predicate Collides(entries: set<string>, skips: set<string>, fold: string -> string,
                           q: string) {
    q in entries && exists r :: r in entries + skips && r != q && fold(r) == fold(q)
  }

  /** The entry, or a folder above it, collides. */
  ghost predicate Doomed(entries: set<string>, skips: set<string>, fold: string -> string,
                         p: string) {
    exists q :: AtOrBeneath(q, p) && Collides(entries, skips, fold, q)
  }

  /** A colliding entry with no colliding folder above it. */
  ghost predicate IsTop(entries: set<string>, skips: set<string>, fold: string -> string,
                        q: string) {
    && Collides(entries, skips, fold, q)
    && forall a | Beneath(a, q) :: !Collides(entries, skips, fold, a)
  }

  ghost function Survivors(entries: map<string, LocalEntry>, skips: set<string>,
                           fold: string -> string): map<string, LocalEntry> {
    map p | p in entries && !Doomed(entries.Keys, skips, fold, p) :: entries[p]
  }

  ghost predicate Closed(entries: set<string>) {
    forall p, q | p in entries && Beneath(q, p) :: q in entries
  }

  /** The last skip with a fold: a later one replaces an earlier one. */
  function LastSkipped(skipped: seq<SkippedEntry>, fold: string -> string, f: string): Option<string> {
    if skipped == [] then None
    else
      var last := skipped[|skipped| - 1];
      if fold(last.relative) == f then Some(last.relative)
      else LastSkipped(skipped[..|skipped| - 1], fold, f)
  }

  lemma {:induction false} LastSkippedIsSkipped(skipped: seq<SkippedEntry>, fold: string -> string, f: string)
    ensures var last := LastSkipped(skipped, fold, f);
      && (last.Some? ==> last.value in SkipPaths(skipped) && fold(last.value) == f)
      && (last.None? ==> forall skip <- SkipPaths(skipped) :: fold(skip) != f)
  {
    if skipped != [] {
      var n := |skipped| - 1;
      LastSkippedIsSkipped(skipped[..n], fold, f);
      assert skipped == skipped[..n] + [skipped[n]];
    }
  }

  /** The entries spelled like this one under folding. */
  ghost function Alike(entries: set<string>, fold: string -> string, q: string): set<string> {
    set k | k in entries && fold(k) == fold(q)
  }

  /** The next entry of equal fold in order, or the first of them after the last. */
  ghost function NextAlike(entries: set<string>, fold: string -> string, q: string): string
    requires q in entries
  {
    var later := set k | k in Alike(entries, fold, q) && Less(q, k);
    if later != {} then Least(later)
    else
      assert q in Alike(entries, fold, q);
      Least(Alike(entries, fold, q))
  }

  /** The path an entry is reported to collide with. */
  ghost function RivalOf(entries: set<string>, skipped: seq<SkippedEntry>, fold: string -> string,
                         q: string): string
    requires q in entries
  {
    var skip := LastSkipped(skipped, fold, fold(q));
    if skip.Some? then skip.value else NextAlike(entries, fold, q)
  }

  /** One report for every top colliding spelling and no other, each naming its rival. */
  ghost predicate Reports(entries: set<string>, skipped: seq<SkippedEntry>, fold: string -> string,
                          reports: seq<SkippedEntry>) {
    && (forall q :: q in SkipPaths(reports) <==> IsTop(entries, SkipPaths(skipped), fold, q))
    && (forall i, j | 0 <= i < j < |reports| :: reports[i].relative != reports[j].relative)
    && (forall report <- reports ::
          && report.relative in entries
          && report.reason == LocalCaseCollision(RivalOf(entries, skipped, fold, report.relative)))
  }

  /** A rival is a different path of equal fold. */
  lemma RivalCollides(entries: set<string>, skipped: seq<SkippedEntry>, fold: string -> string, q: string)
    requires entries !! SkipPaths(skipped) && Collides(entries, SkipPaths(skipped), fold, q)
    ensures var rival := RivalOf(entries, skipped, fold, q);
      rival in entries + SkipPaths(skipped) && rival != q && fold(rival) == fold(q)
  {
    hide Less;
    LastSkippedIsSkipped(skipped, fold, fold(q));
    if LastSkipped(skipped, fold, fold(q)).None? {
      var r :| r in entries + SkipPaths(skipped) && r != q && fold(r) == fold(q);
      assert r in Alike(entries, fold, q);
      NextAlikeDiffers(entries, fold, q, r);
    }
  }

  lemma NextAlikeDiffers(entries: set<string>, fold: string -> string, q: string, r: string)
    requires q in entries && r in Alike(entries, fold, q) && r != q
    ensures NextAlike(entries, fold, q) in Alike(entries, fold, q) && NextAlike(entries, fold, q) != q
  {
    var alike := Alike(entries, fold, q);
    var later := set k | k in alike && Less(q, k);
    LessIsTotal(q, r);
    if later != {} {
      LessIsAsymmetric(q, Least(later));
    } else {
      assert r !in later;
      assert AtMost(Least(alike), r);
      LessIsAsymmetric(r, q);
      hide Less;
      assert Least(alike) == q ==> AtMost(q, r);
    }
  }

  // ---- What the pass guarantees ----

  /** A doomed entry has a top colliding spelling at or above it. */
  lemma {:induction false} DoomHasATop(entries: set<string>, skips: set<string>,
                                       fold: string -> string, q: string) returns (top: string)
    requires Collides(entries, skips, fold, q)
    ensures AtOrBeneath(top, q) && IsTop(entries, skips, fold, top)
    decreases |q|
  {
    if a :| Beneath(a, q) && Collides(entries, skips, fold, a) {
      top := DoomHasATop(entries, skips, fold, a);
      if top != a { BeneathIsTransitive(top, a, q); }
    } else {
      top := q;
    }
  }

  /** No two remaining entries share a fold. */
  lemma SurvivorsHaveOwnFolds(entries: map<string, LocalEntry>, skips: set<string>,
                              fold: string -> string, p: string, q: string)
    requires p in Survivors(entries, skips, fold) && q in Survivors(entries, skips, fold)
    requires fold(p) == fold(q)
    ensures p == q
  {
    assert AtOrBeneath(p, p) && !Collides(entries.Keys, skips, fold, p);
    assert q in entries.Keys + skips;
  }

  /** No remaining entry, and no folder above one, has the fold of any skipped path: neither of
      those the walk skipped nor of those the pass itself dropped. */
  lemma SurvivorsAreUnshielded(entries: map<string, LocalEntry>, skips: set<string>,
                               fold: string -> string, p: string, q: string, skip: string)
    requires Closed(entries.Keys) && entries.Keys !! skips
    requires p in Survivors(entries, skips, fold) && AtOrBeneath(q, p)
    requires skip in skips || IsTop(entries.Keys, skips, fold, skip)
    ensures fold(q) != fold(skip)
  {
    assert q in entries.Keys;
    assert !Collides(entries.Keys, skips, fold, q);
    assert q != skip && skip in entries.Keys + skips;
  }

  /** What remains is still closed under parents. */
  lemma SurvivorsAreClosed(entries: map<string, LocalEntry>, skips: set<string>,
                           fold: string -> string)
    requires Closed(entries.Keys)
    ensures Closed(Survivors(entries, skips, fold).Keys)
  {
    forall p, q | p in Survivors(entries, skips, fold) && Beneath(q, p)
      ensures q in Survivors(entries, skips, fold)
    {
      forall a | AtOrBeneath(a, q) ensures !Collides(entries.Keys, skips, fold, a) {
        if a != q { BeneathIsTransitive(a, q, p); }
        assert AtOrBeneath(a, p);
      }
    }
  }

  /** Fewer paths collide less: what survives among all still survives among some. */
  lemma SurvivorsShrinkWithRivals(all: map<string, LocalEntry>, allSkips: set<string>,
                                  some: map<string, LocalEntry>, someSkips: set<string>,
                                  fold: string -> string, p: string)
    requires some.Keys <= all.Keys && someSkips <= allSkips
    requires p in Survivors(all, allSkips, fold) && p in some
    ensures p in Survivors(some, someSkips, fold)
  {
    forall q | AtOrBeneath(q, p) ensures !Collides(some.Keys, someSkips, fold, q) {
      assert !Collides(all.Keys, allSkips, fold, q);
    }
  }

  // ---- Folds ----

  ghost predicate CollidingFold(entries: set<string>, skips: set<string>, fold: string -> string,
                                f: string) {
    exists k :: k in entries && fold(k) == f && Collides(entries, skips, fold, k)
  }

  ghost predicate TopFold(entries: set<string>, skips: set<string>, fold: string -> string,
                          f: string) {
    && CollidingFold(entries, skips, fold, f)
    && forall g | Beneath(g, f) :: !CollidingFold(entries, skips, fold, g)
  }

  /** Entries of one fold collide together. */
  lemma CollidesByFold(entries: set<string>, skips: set<string>, fold: string -> string, k: string)
    requires k in entries
    ensures Collides(entries, skips, fold, k) <==> CollidingFold(entries, skips, fold, fold(k))
  {
    if CollidingFold(entries, skips, fold, fold(k)) {
      var other :| other in entries && fold(other) == fold(k) && Collides(entries, skips, fold, other);
      var r :| r in entries + skips && r != other && fold(r) == fold(other);
      assert other in entries + skips;
      assert k == other || other != k;
    }
  }

  /** On closed entries, the top spellings are those of the top folds. */
  lemma TopByFold(entries: set<string>, skips: set<string>, fold: string -> string, q: string)
    requires FoldContract(fold) && Closed(entries) && q in entries
    ensures IsTop(entries, skips, fold, q) <==> TopFold(entries, skips, fold, fold(q))
  {
    CollidesByFold(entries, skips, fold, q);
    if Collides(entries, skips, fold, q) {
      if a :| Beneath(a, q) && Collides(entries, skips, fold, a) {
        FoldKeepsBeneath(fold, a, q);
        CollidesByFold(entries, skips, fold, a);
      }
      if g :| Beneath(g, fold(q)) && CollidingFold(entries, skips, fold, g) {
        var a := FoldedAncestor(fold, g, q);
        CollidesByFold(entries, skips, fold, a);
      }
    }
  }

  lemma {:induction false} TopmostFold(entries: set<string>, skips: set<string>,
                                       fold: string -> string, g: string) returns (top: string)
    requires CollidingFold(entries, skips, fold, g)
    ensures AtOrBeneath(top, g) && TopFold(entries, skips, fold, top)
    decreases |g|
  {
    if h :| Beneath(h, g) && CollidingFold(entries, skips, fold, h) {
      top := TopmostFold(entries, skips, fold, h);
      if top != h { BeneathIsTransitive(top, h, g); }
    } else {
      top := g;
    }
  }

  /** Whether the set holds a path above this folded one. */
  predicate FoldHasAncestorIn(f: string, folds: set<string>) {
    exists i | 0 <= i < |f| && f[i] == '/' :: f[..i] in folds
  }

  /** The texts before the slashes of a path are exactly the paths above it. */
  lemma AncestorsAreCuts(f: string, folds: set<string>)
    ensures FoldHasAncestorIn(f, folds) <==> exists g :: g in folds && Beneath(g, f)
  {
    if FoldHasAncestorIn(f, folds) {
      var i :| 0 <= i < |f| && f[i] == '/' && f[..i] in folds;
      assert f[..i] + "/" == f[..i + 1];
      assert Beneath(f[..i], f);
    }
    if g :| g in folds && Beneath(g, f) {
      assert f[|g|] == '/' && f[..|g|] == g;
    }
  }

  // ---- The pass ----

  /** The keys with one fold, in order. */
  function Spellings(keys: seq<string>, fold: string -> string, f: string): seq<string> {
    if keys == [] then []
    else
      var last := keys[|keys| - 1];
      Spellings(keys[..|keys| - 1], fold, f) + if fold(last) == f then [last] else []
  }

  lemma {:induction false} SpellingsAre(keys: seq<string>, fold: string -> string, f: string)
    ensures forall k :: k in Spellings(keys, fold, f) <==> k in keys && fold(k) == f
    ensures StrictlySorted(keys) ==> StrictlySorted(Spellings(keys, fold, f))
  {
    if keys != [] {
      var n := |keys| - 1;
      SpellingsAre(keys[..n], fold, f);
      assert keys == keys[..n] + [keys[n]];
      if StrictlySorted(keys) {
        assert forall i | 0 <= i < n :: keys[..n][i] == keys[i];
        forall k <- Spellings(keys[..n], fold, f) ensures Less(k, keys[n]) {
          var i :| 0 <= i < n && keys[..n][i] == k;
        }
      }
    }
  }

  /** Entries grouped by fold. */
  method GroupByFold(keys: seq<string>, fold: string -> string)
    returns (byFold: map<string, seq<string>>)
    ensures forall f :: f in byFold <==> exists k :: k in keys && fold(k) == f
    ensures forall f <- byFold :: byFold[f] == Spellings(keys, fold, f)
  {
    byFold := map[];
    for i := 0 to |keys|
      invariant forall f ::
        f !in byFold <==> Spellings(keys[..i], fold, f) == []
      invariant forall f <- byFold :: byFold[f] == Spellings(keys[..i], fold, f)
    {
      var key := keys[i];
      var f := fold(key);
      assert keys[..i + 1][..i] == keys[..i];
      byFold := byFold[f := (if f in byFold then byFold[f] else []) + [key]];
    }
    assert keys[..|keys|] == keys;
    forall f ensures f in byFold <==> exists k :: k in keys && fold(k) == f {
      SpellingsAre(keys, fold, f);
      if f in byFold {
        assert Spellings(keys, fold, f)[0] in Spellings(keys, fold, f);
      }
    }
  }

  /** One skipped spelling for every fold that has one; a later one replaces an earlier one. */
  method SkippedByFold(skipped: seq<SkippedEntry>, fold: string -> string)
    returns (byFold: map<string, string>)
    ensures IsSkippedIndex(skipped, fold, byFold)
  {
    byFold := map[];
    for i := 0 to |skipped|
      invariant IsSkippedIndex(skipped[..i], fold, byFold)
    {
      assert skipped[..i + 1][..i] == skipped[..i];
      byFold := byFold[fold(skipped[i].relative) := skipped[i].relative];
    }
    assert skipped[..|skipped|] == skipped;
  }

  ghost predicate IsSkippedIndex(skipped: seq<SkippedEntry>, fold: string -> string,
                                 byFold: map<string, string>) {
    forall f :: LastSkipped(skipped, fold, f) == if f in byFold then Some(byFold[f]) else None
  }

  /** A colliding spelling and the different path it collides with. */
  type Pair = (string, string)

  ghost predicate IsPair(entries: set<string>, skipped: seq<SkippedEntry>, fold: string -> string,
                         pair: Pair) {
    pair.0 in entries && pair.1 == RivalOf(entries, skipped, fold, pair.0)
  }

  ghost function Firsts(pairs: seq<Pair>): set<string> {
    set pair | pair in pairs :: pair.0
  }

  ghost predicate FirstsDiffer(pairs: seq<Pair>) {
    forall i, j | 0 <= i < j < |pairs| :: pairs[i].0 != pairs[j].0
  }

  /** What a spelling is reported to collide with: the skipped spelling, or the next entry. */
  function Rival(spellings: seq<string>, skippedSpelling: Option<string>, index: nat): string
    requires index < |spellings|
  {
    if skippedSpelling.Some? then skippedSpelling.value
    else spellings[(index + 1) % |spellings|]
  }

  /** What the rotation through the spellings finds is the rival. */
  lemma RotationFindsRival(entries: map<string, LocalEntry>, skipped: seq<SkippedEntry>,
                           fold: string -> string, f: string, spellings: seq<string>, index: nat)
    requires spellings == Spellings(SortedKeys(entries.Keys), fold, f) && index < |spellings|
    ensures IsPair(entries.Keys, skipped, fold,
                   (spellings[index], Rival(spellings, LastSkipped(skipped, fold, f), index)))
  {
    hide Less, SortedKeys, Spellings, LastSkipped, NextAlike;
    SpellingsAre(SortedKeys(entries.Keys), fold, f);
    var q := spellings[index];
    assert q in spellings && q in entries.Keys && fold(q) == f;
    forall k ensures k in Alike(entries.Keys, fold, q) <==> k in spellings {
    }
    RotationIsNextAlike(entries.Keys, fold, spellings, index);
  }

  lemma RotationIsNextAlike(entries: set<string>, fold: string -> string, spellings: seq<string>, index: nat)
    requires StrictlySorted(spellings) && index < |spellings| && spellings[index] in entries
    requires forall k :: k in Alike(entries, fold, spellings[index]) <==> k in spellings
    ensures spellings[(index + 1) % |spellings|] == NextAlike(entries, fold, spellings[index])
  {
    hide Less, StrictlySorted, Alike, Least, IsLeast;
    var q := spellings[index];
    var alike := Alike(entries, fold, q);
    var later := set k | k in alike && Less(q, k);
    LaterSpellings(spellings, index, later);
    if index + 1 < |spellings| {
      LeastIsUnique(later, spellings[index + 1]);
      assert (index + 1) % |spellings| == index + 1;
    } else {
      FirstSpelling(spellings, alike);
      LeastIsUnique(alike, spellings[0]);
      assert (index + 1) % |spellings| == 0;
    }
  }

  lemma LaterSpellings(spellings: seq<string>, index: nat, later: set<string>)
    requires StrictlySorted(spellings) && index < |spellings|
    requires forall k :: k in later <==> k in spellings && Less(spellings[index], k)
    ensures if index + 1 < |spellings| then IsLeast(spellings[index + 1], later) else later == {}
  {
    forall k <- later ensures index + 1 < |spellings| && AtMost(spellings[index + 1], k) {
      var i :| 0 <= i < |spellings| && spellings[i] == k;
      NotBefore(spellings, i, index);
    }
    hide Less;
    if index + 1 < |spellings| {
      assert spellings[index + 1] in spellings;
    }
  }

  lemma FirstSpelling(spellings: seq<string>, alike: set<string>)
    requires StrictlySorted(spellings) && spellings != [] && forall k :: k in alike <==> k in spellings
    ensures IsLeast(spellings[0], alike)
  {
    hide Less;
    assert spellings[0] in spellings;
  }

  lemma NotBefore(keys: seq<string>, i: nat, j: nat)
    requires StrictlySorted(keys) && i < |keys| && j < |keys|
    ensures Less(keys[j], keys[i]) <==> j < i
  {
    LessIsTotal(keys[i], keys[j]);
    if i < j { LessIsAsymmetric(keys[i], keys[j]); }
    if i == j && Less(keys[i], keys[j]) { LessIsAsymmetric(keys[i], keys[j]); }
  }

  /** The pairs of one dropped fold: every spelling with its rival. */
  method PairUp(spellings: seq<string>, skippedSpelling: Option<string>) returns (pairs: seq<Pair>)
    ensures |pairs| == |spellings|
    ensures forall i | 0 <= i < |pairs| ::
      pairs[i] == (spellings[i], Rival(spellings, skippedSpelling, i))
  {
    pairs := [];
    for index := 0 to |spellings|
      invariant |pairs| == index
      invariant forall i | 0 <= i < index ::
        pairs[i] == (spellings[i], Rival(spellings, skippedSpelling, i))
    {
      pairs := pairs + [(spellings[index], Rival(spellings, skippedSpelling, index))];
    }
  }

  /** The pairs found so far: every entry whose fold was dropped, once, with its rival. */
  ghost predicate PairsOf(entries: set<string>, skipped: seq<SkippedEntry>, fold: string -> string,
                          folds: set<string>, pairs: seq<Pair>) {
    && (forall q :: q in Firsts(pairs) <==> q in entries && fold(q) in folds)
    && FirstsDiffer(pairs)
    && (forall pair <- pairs :: IsPair(entries, skipped, fold, pair))
  }

  lemma PairsOfOneFold(entries: map<string, LocalEntry>, skipped: seq<SkippedEntry>, fold: string -> string,
                       f: string, spellings: seq<string>, pairs: seq<Pair>)
    requires spellings == Spellings(SortedKeys(entries.Keys), fold, f) && |pairs| == |spellings|
    requires forall i | 0 <= i < |pairs| ::
      pairs[i] == (spellings[i], Rival(spellings, LastSkipped(skipped, fold, f), i))
    ensures PairsOf(entries.Keys, skipped, fold, {f}, pairs)
  {
    hide Less, Rival, SortedKeys, Spellings, LastSkipped, IsPair;
    SpellingsAre(SortedKeys(entries.Keys), fold, f);
    PairsListSpellings(spellings, pairs);
    hide StrictlySorted;
    forall pair <- pairs ensures IsPair(entries.Keys, skipped, fold, pair) {
      var i :| 0 <= i < |pairs| && pairs[i] == pair;
      RotationFindsRival(entries, skipped, fold, f, spellings, i);
    }
  }

  lemma PairsListSpellings(spellings: seq<string>, pairs: seq<Pair>)
    requires StrictlySorted(spellings) && |pairs| == |spellings|
    requires forall i | 0 <= i < |pairs| :: pairs[i].0 == spellings[i]
    ensures forall q :: q in Firsts(pairs) <==> q in spellings
    ensures FirstsDiffer(pairs)
  {
    hide Less;
    forall q | q in spellings ensures q in Firsts(pairs) {
      var i :| 0 <= i < |spellings| && spellings[i] == q;
      assert pairs[i] in pairs;
    }
    forall i, j | 0 <= i < j < |pairs| ensures pairs[i].0 != pairs[j].0 {
      LessIsAsymmetric(spellings[i], spellings[j]);
    }
  }

  lemma PairsConcat(entries: set<string>, skipped: seq<SkippedEntry>, fold: string -> string,
                    folds: set<string>, pairs: seq<Pair>, f: string, more: seq<Pair>)
    requires PairsOf(entries, skipped, fold, folds, pairs) && f !in folds
    requires PairsOf(entries, skipped, fold, {f}, more)
    ensures PairsOf(entries, skipped, fold, folds + {f}, pairs + more)
  {
    hide IsPair;
    var all := pairs + more;
    assert Firsts(all) == Firsts(pairs) + Firsts(more);
    forall i, j | 0 <= i < |pairs| && 0 <= j < |more| ensures pairs[i].0 != more[j].0 {
      assert pairs[i] in pairs && more[j] in more;
      assert pairs[i].0 in Firsts(pairs) && more[j].0 in Firsts(more);
    }
  }

  /** What the loop over the folds tests is whether the fold collides. */
  lemma TestIsCollidingFold(entries: map<string, LocalEntry>, skips: set<string>,
                            fold: string -> string, f: string, spellings: seq<string>,
                            skippedSpelling: Option<string>)
    requires entries.Keys !! skips
    requires spellings == Spellings(SortedKeys(entries.Keys), fold, f) && spellings != []
    requires if skippedSpelling.Some?
             then skippedSpelling.value in skips && fold(skippedSpelling.value) == f
             else forall skip <- skips :: fold(skip) != f
    ensures (|spellings| >= 2 || skippedSpelling.Some?)
        <==> CollidingFold(entries.Keys, skips, fold, f)
  {
    hide Less, SortedKeys, Spellings;
    SpellingsAre(SortedKeys(entries.Keys), fold, f);
    var first := spellings[0];
    assert first in spellings && first in entries.Keys && fold(first) == f;
    CollidesByFold(entries.Keys, skips, fold, first);
    if |spellings| >= 2 {
      LessIsAsymmetric(spellings[0], spellings[1]);
      assert spellings[1] in spellings && spellings[1] in entries.Keys + skips;
    } else if skippedSpelling.Some? {
      assert skippedSpelling.value in entries.Keys + skips;
    } else {
      forall r | r in entries.Keys + skips && fold(r) == f ensures r == first {
        assert r in spellings;
      }
    }
  }

  /** Walking the folds in order, an ancestor fold comes first: the folds dropped so far hold an
      ancestor exactly when some ancestor collides. */
  lemma DroppedSeesAncestors(entries: map<string, LocalEntry>, skips: set<string>,
                             fold: string -> string, folds: seq<string>, i: nat,
                             dropped: set<string>)
    requires StrictlySorted(folds) && i < |folds|
    requires forall k <- entries :: fold(k) in folds
    requires forall f :: f in dropped <==> f in folds[..i] && TopFold(entries.Keys, skips, fold, f)
    requires CollidingFold(entries.Keys, skips, fold, folds[i])
    ensures FoldHasAncestorIn(folds[i], dropped)
        <==> !TopFold(entries.Keys, skips, fold, folds[i])
  {
    var f := folds[i];
    AncestorsAreCuts(f, dropped);
    hide FoldHasAncestorIn;
    if g :| Beneath(g, f) && CollidingFold(entries.Keys, skips, fold, g) {
      var top := TopmostFold(entries.Keys, skips, fold, g);
      if top != g { BeneathIsTransitive(top, g, f); }
      assert Beneath(top, f) && top in folds;
      var j :| 0 <= j < |folds| && folds[j] == top;
      PrefixSortsFirst(top, f);
      EarlierInOrder(folds, j, i);
      assert folds[..i][j] == top;
    }
  }

  lemma EarlierInOrder(keys: seq<string>, j: nat, i: nat)
    requires StrictlySorted(keys) && j < |keys| && i < |keys| && Less(keys[j], keys[i])
    ensures j < i
  {
    LessIsAsymmetric(keys[j], keys[i]);
  }

  /** The folds dropped so far: the top ones among those already walked. */
  ghost predicate IsDropped(entries: set<string>, skips: set<string>, fold: string -> string,
                            walked: seq<string>, dropped: set<string>) {
    forall f :: f in dropped <==> f in walked && TopFold(entries, skips, fold, f)
  }

  /** The two indexes the pass builds: entries by fold, and one skipped spelling by fold. */
  ghost predicate Indexed(entries: map<string, LocalEntry>, skipped: seq<SkippedEntry>,
                          fold: string -> string, byFold: map<string, seq<string>>,
                          skippedByFold: map<string, string>) {
    && (forall f :: f in byFold <==> exists k :: k in entries && fold(k) == f)
    && (forall f <- byFold :: byFold[f] == Spellings(SortedKeys(entries.Keys), fold, f))
    && IsSkippedIndex(skipped, fold, skippedByFold)
  }

  /** One fold of the loop: its pairs if it is a top fold, nothing otherwise. */
  method ConsiderFold(ghost entries: map<string, LocalEntry>, ghost skipped: seq<SkippedEntry>,
                      ghost fold: string -> string, byFold: map<string, seq<string>>,
                      skippedByFold: map<string, string>, folds: seq<string>, i: nat,
                      dropped: set<string>) returns (more: Option<seq<Pair>>)
    requires Indexed(entries, skipped, fold, byFold, skippedByFold)
    requires entries.Keys !! SkipPaths(skipped)
    requires folds == SortedKeys(byFold.Keys) && i < |folds|
    requires IsDropped(entries.Keys, SkipPaths(skipped), fold, folds[..i], dropped)
    ensures more.Some? <==> TopFold(entries.Keys, SkipPaths(skipped), fold, folds[i])
    ensures more.Some? ==> PairsOf(entries.Keys, skipped, fold, {folds[i]}, more.value)
  {
    hide TopFold, CollidingFold, PairsOf, Less, Rival;
    var f := folds[i];
    assert f in folds && f in byFold;
    ghost var skips := SkipPaths(skipped);
    var spellings := byFold[f];
    var skippedSpelling :=
      if f in skippedByFold && skippedByFold[f] !in spellings then Some(skippedByFold[f]) else None;
    SpellingsAre(SortedKeys(entries.Keys), fold, f);
    SkippedIsNoSpelling(entries, skipped, fold, f, skippedByFold, spellings);
    TestIsCollidingFold(entries, skips, fold, f, spellings, skippedSpelling);
    if |spellings| < 2 && skippedSpelling.None? {
      TopFoldCollides(entries.Keys, skips, fold, f);
      return None;
    }
    DroppedSeesAncestors(entries, skips, fold, folds, i, dropped);
    if FoldHasAncestorIn(f, dropped) {
      return None;
    }
    var pairs := PairUp(spellings, skippedSpelling);
    PairsOfOneFold(entries, skipped, fold, f, spellings, pairs);
    return Some(pairs);
  }

  /** The loop over the folds in order. */
  method DropFolds(ghost entries: map<string, LocalEntry>, ghost skipped: seq<SkippedEntry>,
                   ghost fold: string -> string, byFold: map<string, seq<string>>,
                   skippedByFold: map<string, string>) returns (pairs: seq<Pair>, ghost top: set<string>)
    requires Indexed(entries, skipped, fold, byFold, skippedByFold)
    requires entries.Keys !! SkipPaths(skipped)
    ensures forall f :: f in top <==> TopFold(entries.Keys, SkipPaths(skipped), fold, f)
    ensures PairsOf(entries.Keys, skipped, fold, top, pairs)
  {
    hide PairsOf, TopFold, Less, SortedKeys, IsDropped, Indexed, StrictlySorted, SkipPaths;
    ghost var skips := SkipPaths(skipped);
    var folds := OrderedKeys(byFold);
    assert folds[..0] == [];
    var dropped: set<string> := {};
    pairs := [];
    NoPairs(entries.Keys, skipped, fold);
    for i := 0 to |folds|
      invariant IsDropped(entries.Keys, skips, fold, folds[..i], dropped)
      invariant PairsOf(entries.Keys, skipped, fold, dropped, pairs)
    {
      var more := ConsiderFold(entries, skipped, fold, byFold, skippedByFold, folds, i, dropped);
      assert folds[..i + 1] == folds[..i] + [folds[i]];
      NotSeenBefore(folds, i);
      OneMoreDropped(entries.Keys, skips, fold, folds[..i], dropped, folds[i]);
      if more.Some? {
        PairsConcat(entries.Keys, skipped, fold, dropped, pairs, folds[i], more.value);
        dropped := dropped + {folds[i]};
        pairs := pairs + more.value;
      }
    }
    assert folds[..|folds|] == folds;
    top := dropped;
    AllAreDropped(entries, skipped, fold, byFold, skippedByFold, folds, dropped);
  }

  lemma NoPairs(entries: set<string>, skipped: seq<SkippedEntry>, fold: string -> string)
    ensures PairsOf(entries, skipped, fold, {}, [])
    ensures IsDropped(entries, SkipPaths(skipped), fold, [], {})
  {
  }

  lemma OneMoreDropped(entries: set<string>, skips: set<string>, fold: string -> string,
                       walked: seq<string>, dropped: set<string>, f: string)
    requires IsDropped(entries, skips, fold, walked, dropped) && f !in walked
    ensures f !in dropped
    ensures IsDropped(entries, skips, fold, walked + [f],
                      if TopFold(entries, skips, fold, f) then dropped + {f} else dropped)
  {
    hide TopFold;
  }

  lemma AllAreDropped(entries: map<string, LocalEntry>, skipped: seq<SkippedEntry>, fold: string -> string,
                      byFold: map<string, seq<string>>, skippedByFold: map<string, string>,
                      folds: seq<string>, dropped: set<string>)
    requires Indexed(entries, skipped, fold, byFold, skippedByFold) && folds == SortedKeys(byFold.Keys)
    requires IsDropped(entries.Keys, SkipPaths(skipped), fold, folds, dropped)
    ensures forall f :: f in dropped <==> TopFold(entries.Keys, SkipPaths(skipped), fold, f)
  {
    hide TopFold;
    forall f ensures TopFold(entries.Keys, SkipPaths(skipped), fold, f) ==> f in folds {
      TopFoldCollides(entries.Keys, SkipPaths(skipped), fold, f);
    }
  }

  lemma TopFoldCollides(entries: set<string>, skips: set<string>, fold: string -> string, f: string)
    ensures TopFold(entries, skips, fold, f) ==> CollidingFold(entries, skips, fold, f)
    ensures TopFold(entries, skips, fold, f) ==> exists k :: k in entries && fold(k) == f
  {
  }

  /** The first half of the pass: the top colliding spellings, each with a rival. */
  method FindColliding(entries: map<string, LocalEntry>, skipped: seq<SkippedEntry>,
                       fold: string -> string) returns (pairs: seq<Pair>)
    requires FoldContract(fold) && Closed(entries.Keys)
    requires entries.Keys !! SkipPaths(skipped)
    ensures forall q :: q in Firsts(pairs) <==> IsTop(entries.Keys, SkipPaths(skipped), fold, q)
    ensures FirstsDiffer(pairs)
    ensures forall pair <- pairs :: IsPair(entries.Keys, skipped, fold, pair)
  {
    var keys := OrderedKeys(entries);
    var byFold := GroupByFold(keys, fold);
    var skippedByFold := SkippedByFold(skipped, fold);
    assert forall k :: k in keys <==> k in entries;
    ghost var top;
    pairs, top := DropFolds(entries, skipped, fold, byFold, skippedByFold);
    forall q ensures q in Firsts(pairs) <==> IsTop(entries.Keys, SkipPaths(skipped), fold, q) {
      if q in entries.Keys {
        TopByFold(entries.Keys, SkipPaths(skipped), fold, q);
      }
    }
  }

  /** The skipped spelling found by fold is the last one, and never one of the entries. */
  lemma SkippedIsNoSpelling(entries: map<string, LocalEntry>, skipped: seq<SkippedEntry>,
                            fold: string -> string, f: string, skippedByFold: map<string, string>,
                            spellings: seq<string>)
    requires entries.Keys !! SkipPaths(skipped)
    requires forall k <- spellings :: k in entries
    requires IsSkippedIndex(skipped, fold, skippedByFold)
    ensures LastSkipped(skipped, fold, f)
         == (if f in skippedByFold && skippedByFold[f] !in spellings then Some(skippedByFold[f]) else None)
    ensures f in skippedByFold ==> skippedByFold[f] in SkipPaths(skipped) && fold(skippedByFold[f]) == f
    ensures f !in skippedByFold ==> forall skip <- SkipPaths(skipped) :: fold(skip) != f
    ensures f in skippedByFold ==> skippedByFold[f] !in spellings
  {
    hide LastSkipped;
    LastSkippedIsSkipped(skipped, fold, f);
  }
}
