/** Strings as the source's ordered maps compare them, and `/`-separated paths.

    Rust compares strings by their UTF-8 bytes, which orders them exactly as comparing their
    characters by code point does. */
module Strings {

  /** Strict lexicographic order. */
  predicate Less(a: string, b: string) {
    b != [] && (a == [] || a[0] < b[0] || (a[0] == b[0] && Less(a[1..], b[1..])))
  }

  predicate AtMost(a: string, b: string) {
    a == b || Less(a, b)
  }

  /** The first difference decides, and a proper prefix sorts first. */
  lemma {:induction false} LessMeans(a: string, b: string)
    ensures Less(a, b) <==>
      exists i | 0 <= i <= |a| && i < |b| :: a[..i] == b[..i] && (i == |a| || a[i] < b[i])
  {
    if a != [] && b != [] && a[0] == b[0] {
      LessMeans(a[1..], b[1..]);
      var c, d := a[1..], b[1..];
      if i :| 0 <= i <= |c| && i < |d| && c[..i] == d[..i] && (i == |c| || c[i] < d[i]) {
        assert a[..i + 1] == [a[0]] + a[1..][..i] && b[..i + 1] == [b[0]] + b[1..][..i];
      }
      if i :| 0 < i <= |a| && i < |b| && a[..i] == b[..i] && (i == |a| || a[i] < b[i]) {
        assert a[1..][..i - 1] == a[..i][1..] && b[1..][..i - 1] == b[..i][1..];
      }
    } else if b != [] {
      assert a[..0] == b[..0];
      assert forall i | 0 < i <= |a| && i < |b| :: a[..i][0] == a[0] && b[..i][0] == b[0];
    }
  }

  lemma {:induction false} LessIsTotal(a: string, b: string)
    ensures Less(a, b) || a == b || Less(b, a)
  {
    if a == [] || b == [] || a[0] != b[0] {
    } else {
      LessIsTotal(a[1..], b[1..]);
      assert a == [a[0]] + a[1..] && b == [b[0]] + b[1..];
    }
  }

  lemma {:induction false} LessIsAsymmetric(a: string, b: string)
    requires Less(a, b)
    ensures a != b && !Less(b, a)
  {
    if a != [] && a[0] == b[0] {
      LessIsAsymmetric(a[1..], b[1..]);
    }
  }

  lemma {:induction false} LessIsTransitive(a: string, b: string, c: string)
    requires Less(a, b) && Less(b, c)
    ensures Less(a, c)
  {
    if a != [] && a[0] == b[0] && b[0] == c[0] {
      LessIsTransitive(a[1..], b[1..], c[1..]);
    }
  }

  /** A proper prefix sorts first: ancestors come before descendants. */
  lemma {:induction false} PrefixSortsFirst(p: string, s: string)
    requires p < s
    ensures Less(p, s)
  {
    if p != [] {
      PrefixSortsFirst(p[1..], s[1..]);
    }
  }

  /** The strings with a given prefix form one contiguous run of the order, starting at the prefix.
      This is what lets an ordered range scan stop at the first key without the prefix. */
  lemma {:induction false} PrefixedStringsAreContiguous(p: string, a: string, b: string)
    requires AtMost(p, a) && AtMost(a, b) && p <= b
    ensures p <= a
  {
    if p == [] {
    } else if a == b || p == a {
    } else if b[0] < a[0] {
      LessIsAsymmetric(a, b);
    } else {
      PrefixedStringsAreContiguous(p[1..], a[1..], b[1..]);
    }
  }

  // ---- Paths ----

  /** `lower` lies strictly beneath `upper`. */
  predicate Beneath(upper: string, lower: string) {
    upper + "/" <= lower
  }

  predicate AtOrBeneath(upper: string, lower: string) {
    upper == lower || Beneath(upper, lower)
  }

  lemma BeneathIsTransitive(a: string, b: string, c: string)
    requires Beneath(a, b) && AtOrBeneath(b, c)
    ensures Beneath(a, c)
  {
    if Beneath(b, c) {
      assert (a + "/") == b[..|a| + 1] == c[..|a| + 1];
    }
  }

  /** Two folders above one path are equal or nested. */
  lemma AncestorsAreNested(a: string, b: string, c: string)
    requires AtOrBeneath(a, c) && AtOrBeneath(b, c)
    ensures AtOrBeneath(a, b) || AtOrBeneath(b, a)
  {
    if a != c && b != c {
      assert c[|a|] == '/' && c[|b|] == '/';
      assert c[..|a|] == a && c[..|b|] == b;
      if |a| < |b| {
        assert a + "/" == c[..|a| + 1] == b[..|a| + 1];
      } else if |b| < |a| {
        assert b + "/" == c[..|b| + 1] == a[..|b| + 1];
      }
    }
  }

  /** Text without a slash, the shape of one path component. */
  predicate Slashless(s: string) {
    '/' !in s
  }

  /** The text before the first slash, or all of it. */
  function FirstComponent(s: string): (r: string)
    ensures r <= s && Slashless(r)
    ensures r == s || Beneath(r, s)
  {
    if s == [] || s[0] == '/' then
      assert s != [] ==> [] + "/" <= s;
      []
    else [s[0]] + FirstComponent(s[1..])
  }

  /** Rust's `split('/')`. */
  function Split(s: string): (parts: seq<string>)
    ensures |parts| >= 1
    ensures forall p <- parts :: Slashless(p)
    decreases |s|
  {
    var first := FirstComponent(s);
    if first == s then [s] else [first] + Split(s[|first| + 1..])
  }

  lemma FirstComponentOfJoin(a: string, b: string)
    requires Slashless(a)
    ensures FirstComponent(a + "/" + b) == a && FirstComponent(a) == a
  {
    if a != [] {
      FirstComponentOfJoin(a[1..], b);
      assert (a + "/" + b)[1..] == a[1..] + "/" + b;
      assert a == [a[0]] + a[1..];
    }
  }

  /** Joining two texts with a slash concatenates their components. */
  lemma {:induction false} SplitOfJoin(a: string, b: string)
    ensures Split(a + "/" + b) == Split(a) + Split(b)
    decreases |a|
  {
    var first := FirstComponent(a);
    var whole := a + "/" + b;
    if first == a {
      FirstComponentOfJoin(a, b);
      assert whole[|a| + 1..] == b;
    } else {
      var rest := a[|first| + 1..];
      assert a == first + "/" + rest;
      FirstComponentOfJoin(first, rest);
      FirstComponentOfJoin(first, rest + "/" + b);
      assert whole == first + "/" + (rest + "/" + b);
      assert whole[|first| + 1..] == rest + "/" + b;
      SplitOfJoin(rest, b);
    }
  }

  lemma {:induction false} SplitOfComponent(a: string)
    requires Slashless(a)
    ensures Split(a) == [a]
  {
    FirstComponentOfJoin(a, []);
  }

  /** Rust's `join("/")`. */
  function Joined(parts: seq<string>): (s: string)
    requires parts != []
  {
    if |parts| == 1 then parts[0] else parts[0] + "/" + Joined(parts[1..])
  }

  lemma {:induction false} JoinedOfSplit(s: string)
    ensures Joined(Split(s)) == s
    decreases |s|
  {
    hide FirstComponent;
    var first := FirstComponent(s);
    if first == s {
      assert Joined([s]) == s;
    } else {
      var rest := s[|first| + 1..];
      JoinedOfSplit(rest);
      JoinedOfOneMore(first, Split(rest));
      hide Joined;
      assert Split(s) == [first] + Split(rest);
    }
  }

  lemma JoinedOfOneMore(first: string, parts: seq<string>)
    requires parts != []
    ensures Joined([first] + parts) == first + "/" + Joined(parts)
  {
    assert ([first] + parts)[1..] == parts;
  }

  /** The string prefix test `upper + "/"` is exactly the strict prefix test on components. */
  lemma {:induction false} BeneathIsComponentPrefix(upper: string, lower: string)
    ensures Beneath(upper, lower) <==> Split(upper) < Split(lower)
  {
    if Beneath(upper, lower) {
      var rest := lower[|upper| + 1..];
      assert lower == upper + "/" + rest;
      SplitOfJoin(upper, rest);
    }
    if Split(upper) < Split(lower) {
      ComponentPrefixIsBeneath(Split(upper), Split(lower));
      JoinedOfSplit(upper);
      JoinedOfSplit(lower);
    }
  }

  lemma {:induction false} ComponentPrefixIsBeneath(a: seq<string>, b: seq<string>)
    requires a != [] && a < b
    ensures Beneath(Joined(a), Joined(b))
  {
    if |a| == 1 {
    } else {
      ComponentPrefixIsBeneath(a[1..], b[1..]);
      assert Joined(a) + "/" == a[0] + "/" + (Joined(a[1..]) + "/");
    }
  }
}
