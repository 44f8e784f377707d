/** Remote roots and the relative paths mapped beneath them. */
module RemotePath {
  import opened Strings
  import opened Wrappers

  const DSM_MANAGED_NAMES: set<string> := {
    "#recycle", "#snapshot", "@eaDir", "@tmp", "@sharebin", "@apphome", "@appdata", "@appstore",
    "@apptemp", "@appconf", ".SynologyWorkingDirectory"
  }

  const RESERVED_STEMS: set<string> := {
    "CON", "PRN", "AUX", "NUL",
    "COM1", "COM2", "COM3", "COM4", "COM5", "COM6", "COM7", "COM8", "COM9",
    "LPT1", "LPT2", "LPT3", "LPT4", "LPT5", "LPT6", "LPT7", "LPT8", "LPT9"
  }

  const MAX_PATH_CHARS := 247
  const MAX_COMPONENT_CHARS := 255
  const MAX_COMPONENT_BYTES := 255

  datatype Issue =
    | PathTooLong
    | ComponentTooLong
    | ComponentTooManyBytes(bytes: nat)
    | StartsWithTilde
    | HasControlCharacter
    | HasUnsupportedCharacter
    | EndsWithDotOrSpace
    | ReservedName

  datatype PathError =
    | NoLeadingSlash
    | DsmRoot
    | TrailingSlash
    | Backslash
    | ControlCharacter
    | EmptyComponent
    | DotComponent
    | ManagedDirectory
    | NotPortable(issue: Issue)
    | NotNormalized
    | UnsafeComponent
    | Escape

  /** Unicode category Cc. */
  predicate IsControl(c: char) {
    c <= '\U{1F}' || '\U{7F}' <= c <= '\U{9F}'
  }

  predicate HasControl(s: string) {
    exists c <- s :: IsControl(c)
  }

  /** Bytes of one character in UTF-8. */
  function Utf8Width(c: char): nat {
    if c < '\U{80}' then 1 else if c < '\U{800}' then 2 else if c < '\U{10000}' then 3 else 4
  }

  function Utf8Length(s: string): nat {
    if s == [] then 0 else Utf8Width(s[0]) + Utf8Length(s[1..])
  }

  function AsciiUpper(c: char): char {
    if 'a' <= c <= 'z' then ((c as int) - 32) as char else c
  }

  function AsciiUppercase(s: string): string {
    seq(|s|, i requires 0 <= i < |s| => AsciiUpper(s[i]))
  }

  /** The text before the first dot, or all of it. */
  function Stem(component: string): string {
    if component == [] || component[0] == '.' then [] else [component[0]] + Stem(component[1..])
  }

  predicate IsDsmManagedName(name: string) {
    name in DSM_MANAGED_NAMES
  }

  predicate IsDsmManaged(relative: string) {
    exists part <- Split(relative) :: IsDsmManagedName(part)
  }

  function ComponentIssue(component: string): Option<Issue> {
    if |component| > MAX_COMPONENT_CHARS then Some(ComponentTooLong)
    else if Utf8Length(component) > MAX_COMPONENT_BYTES then
      Some(ComponentTooManyBytes(Utf8Length(component)))
    else if component != [] && component[0] == '~' then Some(StartsWithTilde)
    else if HasControl(component) then Some(HasControlCharacter)
    else if exists c <- component :: c in {'*', ':', '?', '"', '<', '>', '|'} then
      Some(HasUnsupportedCharacter)
    else if component != [] && component[|component| - 1] in {'.', ' '} then Some(EndsWithDotOrSpace)
    else if AsciiUppercase(Stem(component)) in RESERVED_STEMS then Some(ReservedName)
    else None
  }

  /** The issue of the first component that has one. */
  function FirstIssue(parts: seq<string>): (r: Option<Issue>)
    ensures r.None? <==> forall p <- parts :: ComponentIssue(p).None?
  {
    if parts == [] then None
    else if ComponentIssue(parts[0]).Some? then ComponentIssue(parts[0])
    else FirstIssue(parts[1..])
  }

  function DrivePathIssue(path: string): Option<Issue> {
    if |path| > MAX_PATH_CHARS then Some(PathTooLong) else FirstIssue(Split(path))
  }

  function ValidateRelative(value: string): Result<(), PathError> {
    if value == [] then Ok(())
    else if value[0] == '/' || value[|value| - 1] == '/' || '\\' in value then Err(NotNormalized)
    else if HasControl(value) then Err(ControlCharacter)
    else if exists part <- Split(value) :: part in {"", ".", ".."} then Err(UnsafeComponent)
    else Ok(())
  }

  datatype RemoteRoot = RemoteRoot(path: string)

  function Parse(value: string): Result<RemoteRoot, PathError> {
    if value == [] || value[0] != '/' then Err(NoLeadingSlash)
    else if value == "/" then Err(DsmRoot)
    else if value[|value| - 1] == '/' then Err(TrailingSlash)
    else if '\\' in value then Err(Backslash)
    else if HasControl(value) then Err(ControlCharacter)
    else
      var components := Split(value[1..]);
      if "" in components then Err(EmptyComponent)
      else if "." in components || ".." in components then Err(DotComponent)
      else if exists part <- components :: IsDsmManagedName(part) then Err(ManagedDirectory)
      else if DrivePathIssue(value[1..]).Some? then Err(NotPortable(DrivePathIssue(value[1..]).value))
      else Ok(RemoteRoot(value))
  }

  predicate IsParsed(root: RemoteRoot) {
    Parse(root.path) == Ok(root)
  }

  function Join(root: RemoteRoot, relative: string): Result<string, PathError>
    requires root.path != []
  {
    var valid := ValidateRelative(relative);
    if valid.Err? then Err(valid.error)
    else
      var joined := if relative == [] then root.path else root.path + "/" + relative;
      var issue := DrivePathIssue(joined[1..]);
      if issue.Some? then Err(NotPortable(issue.value)) else Ok(joined)
  }

  function Relative(root: RemoteRoot, remote: string): Result<string, PathError> {
    if remote == root.path then Ok([])
    else if !(root.path + "/" <= remote) then Err(Escape)
    else
      var relative := remote[|root.path| + 1..];
      var valid := ValidateRelative(relative);
      if valid.Err? then Err(valid.error) else Ok(relative)
  }

  predicate ContainsChild(root: RemoteRoot, remote: string) {
    root.path + "/" <= remote
  }

  // ---- Validity, component by component ----

  predicate PlainComponent(part: string) {
    part !in {"", ".", ".."}
  }

  /** The text a slash-separated path may hold anywhere. */
  predicate CleanText(s: string) {
    '\\' !in s && !HasControl(s)
  }

  lemma CleanTextOfJoin(a: string, b: string)
    ensures CleanText(a + "/" + b) <==> CleanText(a) && CleanText(b)
  {
    var whole := a + "/" + b;
    forall c | c in a || c in b ensures c in whole {
      if c in a { var i :| 0 <= i < |a| && a[i] == c; assert whole[i] == c; }
      else { var i :| 0 <= i < |b| && b[i] == c; assert whole[|a| + 1 + i] == c; }
    }
    assert forall c <- whole :: c in a || c in b || c == '/';
  }

  /** A slash at either end shows as an empty component there. */
  lemma EdgeSlashes(s: string)
    requires s != []
    ensures s[0] == '/' ==> "" in Split(s)
    ensures s[|s| - 1] == '/' ==> "" in Split(s)
  {
    hide Split;
    if s[0] == '/' {
      SlashSplits([], s[1..], s);
    }
    if s[|s| - 1] == '/' {
      SlashSplits(s[..|s| - 1], [], s);
    }
  }

  lemma SlashSplits(a: string, b: string, s: string)
    requires s == a + "/" + b
    ensures Split(s) == Split(a) + Split(b)
    ensures a == [] || b == [] ==> "" in Split(s)
  {
    SplitOfJoin(a, b);
    SplitOfComponent([]);
    assert a == [] ==> Split(s)[0] == "";
    assert b == [] ==> Split(s)[|Split(s)| - 1] == "";
  }

  /** The two ways the code looks for an unsafe component agree. */
  lemma UnsafeParts(parts: seq<string>)
    ensures (exists part <- parts :: part in {"", ".", ".."})
       <==> !forall part <- parts :: PlainComponent(part)
    ensures "" in parts || "." in parts || ".." in parts
       <==> !forall part <- parts :: PlainComponent(part)
  {
    if part :| part in parts && !PlainComponent(part) {
      assert part == "" || part == "." || part == "..";
    }
    assert !PlainComponent("") && !PlainComponent(".") && !PlainComponent("..");
  }

  /** A non-empty relative path is valid exactly when its text is clean and every component plain. */
  lemma ValidateRelativeMeans(value: string)
    requires value != []
    ensures ValidateRelative(value).Ok? <==>
      CleanText(value) && forall part <- Split(value) :: PlainComponent(part)
  {
    hide Split, HasControl;
    EdgeSlashes(value);
    UnsafeParts(Split(value));
    hide PlainComponent;
  }

  lemma ValidateRelativeOfJoin(a: string, b: string)
    requires a != [] && b != []
    ensures ValidateRelative(a + "/" + b).Ok? <==> ValidateRelative(a).Ok? && ValidateRelative(b).Ok?
  {
    ValidateRelativeMeans(a);
    ValidateRelativeMeans(b);
    ValidateRelativeMeans(a + "/" + b);
    SplitOfJoin(a, b);
    CleanTextOfJoin(a, b);
  }

  /** Shortening a path at a slash removes no portability it had. */
  lemma DrivePathIssueOfJoin(a: string, b: string)
    ensures DrivePathIssue(a + "/" + b).None? ==> DrivePathIssue(a).None?
  {
    SplitOfJoin(a, b);
  }

  /** A parsed root, told by its components. */
  lemma ParseMeans(value: string)
    ensures Parse(value).Ok? <==>
      && value != [] && value[0] == '/'
      && CleanText(value)
      && (forall part <- Split(value[1..]) :: PlainComponent(part) && !IsDsmManagedName(part))
      && DrivePathIssue(value[1..]).None?
    ensures Parse(value).Ok? ==> Parse(value).value.path == value
  {
    hide Split, HasControl, DrivePathIssue, IsDsmManagedName;
    SplitOfComponent([]);
    if value != [] && value[0] == '/' {
      UnsafeParts(Split(value[1..]));
      hide PlainComponent;
      if value == "/" {
        assert "" in Split(value[1..]);
      } else {
        EdgeSlashes(value[1..]);
      }
    }
  }

  // ---- The algebra ----

  function Compose(r1: string, r2: string): string {
    if r1 == [] then r2 else if r2 == [] then r1 else r1 + "/" + r2
  }

  /** Joining and taking relative again gives the relative path back. */
  lemma RelativeOfJoin(root: RemoteRoot, relative: string)
    requires root.path != [] && Join(root, relative).Ok?
    ensures Relative(root, Join(root, relative).value) == Ok(relative)
  {
    if relative != [] {
      assert (root.path + "/" + relative)[|root.path| + 1..] == relative;
    }
  }

  /** The other round trip, for every remote path that has a relative one: joining gives the path
      back exactly when it is not the root followed by a lone slash and Drive clients can hold it. */
  lemma JoinOfRelative(root: RemoteRoot, remote: string)
    requires root.path != [] && Relative(root, remote).Ok?
    ensures remote != [] && (Join(root, Relative(root, remote).value) == Ok(remote)
        <==> remote != root.path + "/" && DrivePathIssue(remote[1..]).None?)
  {
    hide DrivePathIssue, Split, HasControl;
    if remote != root.path {
      var relative := remote[|root.path| + 1..];
      assert remote == root.path + "/" + relative;
    }
  }

  /** The first exception: the root followed by a lone slash maps to the empty relative path. */
  lemma LoneSlashMapsToRoot()
    ensures var root := RemoteRoot("/a");
      IsParsed(root) && Relative(root, "/a/") == Ok("") && Join(root, "") == Ok("/a")
  {
    ShortRootParses();
    assert "/a"[1..] == "a" && "/a/"[3..] == "";
  }

  lemma ShortRootParses()
    ensures IsParsed(RemoteRoot("/a")) && DrivePathIssue("a").None?
  {
    SplitOfComponent("a");
    ParseMeans("/a");
    assert "/a"[1..] == "a";
    assert Stem("a") == "a";
    assert AsciiUppercase("a") == "A";
    assert ComponentIssue("a").None?;
  }

  /** The second exception: a listing may hold a name that Drive clients cannot; `relative` maps it,
      no join accepts it. */
  lemma UnportableNameIsMapped()
    ensures var root := RemoteRoot("/a");
      IsParsed(root) && Relative(root, "/a/~") == Ok("~") && Join(root, "~").Err? && "/a/~" != root.path + "/"
  {
    ShortRootParses();
    TildeIsUnportable();
    SplitOfComponent("~");
    assert "/a/~"[3..] == "~" && "/a" + "/" + "~" == "/a/~" && "/a/~"[1..] == "a/~";
    hide DrivePathIssue, Split, IsParsed;
  }

  lemma TildeIsUnportable()
    ensures DrivePathIssue("a/~").Some?
  {
    SplitOfComponent("~");
    SplitOfComponent("a");
    SplitOfJoin("a", "~");
    assert "a" + "/" + "~" == "a/~";
    assert Split("a/~") == ["a", "~"];
    hide Split;
    assert ComponentIssue("~").Some?;
    assert "~" in Split("a/~");
  }

  /** An accepted join means every folder on the way is accepted too. */
  lemma AncestorsAreAccepted(root: RemoteRoot, ancestor: string, relative: string)
    requires root.path != [] && Join(root, relative).Ok?
    requires ancestor == [] || Beneath(ancestor, relative)
    ensures Join(root, ancestor).Ok?
  {
    hide DrivePathIssue, Split, HasControl;
    if relative != [] {
      var tail := root.path[1..];
      assert (root.path + "/" + relative)[1..] == tail + "/" + relative;
      if ancestor == [] {
        DrivePathIssueOfJoin(tail, relative);
      } else {
        var rest := relative[|ancestor| + 1..];
        assert relative == ancestor + "/" + rest;
        assert rest != [] by { assert relative[|relative| - 1] != '/'; }
        ValidateRelativeOfJoin(ancestor, rest);
        assert tail + "/" + relative == (tail + "/" + ancestor) + "/" + rest;
        DrivePathIssueOfJoin(tail + "/" + ancestor, rest);
        assert (root.path + "/" + ancestor)[1..] == tail + "/" + ancestor;
      }
    }
  }

  /** A joined path is itself a root exactly when the join is accepted and the relative path names
      no DSM-managed folder. */
  lemma ParseOfJoin(root: RemoteRoot, relative: string)
    requires IsParsed(root)
    ensures var joined := if relative == [] then root.path else root.path + "/" + relative;
      (ValidateRelative(relative).Ok? && Parse(joined).Ok?)
        <==> Join(root, relative).Ok? && !IsDsmManaged(relative)
    ensures Join(root, relative).Ok? ==>
      (Parse(Join(root, relative).value).Ok? <==> !IsDsmManaged(relative))
  {
    hide DrivePathIssue, HasControl, Parse, CleanText, Split;
    ParseMeans(root.path);
    if relative == [] {
      SplitOfComponent([]);
    } else {
      hide PlainComponent, IsDsmManagedName, ValidateRelative;
      var tail, joined := root.path[1..], root.path + "/" + relative;
      assert joined[1..] == tail + "/" + relative;
      ParseMeans(joined);
      SplitOfJoin(tail, relative);
      CleanTextOfJoin(root.path, relative);
      ValidateRelativeMeans(relative);
    }
  }

  /** Joining below a joined root is joining the composed path. */
  lemma JoinComposes(root: RemoteRoot, r1: string, r2: string)
    requires IsParsed(root) && Join(root, r1).Ok? && !IsDsmManaged(r1)
    ensures Parse(Join(root, r1).value).Ok?
    ensures var nested := Parse(Join(root, r1).value).value;
      && nested.path != []
      && (Join(nested, r2).Ok? <==> Join(root, Compose(r1, r2)).Ok?)
      && (Join(nested, r2).Ok? ==> Join(nested, r2) == Join(root, Compose(r1, r2)))
  {
    hide DrivePathIssue, HasControl, Split, CleanText, PlainComponent, IsDsmManagedName, IsDsmManaged;
    ParseOfJoin(root, r1);
    ParseMeans(root.path);
    ParseMeans(Join(root, r1).value);
    hide Parse;
    if r1 != [] && r2 != [] {
      ValidateRelativeOfJoin(r1, r2);
      assert root.path + "/" + (r1 + "/" + r2) == (root.path + "/" + r1) + "/" + r2;
    }
  }

  // ---- Overlap ----

  /** Everything a run may write below a root. */
  ghost predicate Writes(root: RemoteRoot, remote: string)
    requires root.path != []
  {
    exists relative :: Join(root, relative) == Ok(remote)
  }

  predicate RootsOverlap(left: RemoteRoot, right: RemoteRoot) {
    left.path == right.path || ContainsChild(left, right.path) || ContainsChild(right, left.path)
  }

  /** Two parsed roots pass as independent exactly when no remote path can be written below both. */
  lemma OverlapIsSharedWrite(left: RemoteRoot, right: RemoteRoot)
    requires IsParsed(left) && IsParsed(right)
    ensures RootsOverlap(left, right)
        <==> exists remote :: Writes(left, remote) && Writes(right, remote)
  {
    hide Split, DrivePathIssue, HasControl, ValidateRelative;
    ParseMeans(left.path);
    ParseMeans(right.path);
    if RootsOverlap(left, right) {
      if AtOrBeneath(left.path, right.path) {
        OuterWritesInnerRoot(left, right);
      } else {
        OuterWritesInnerRoot(right, left);
      }
    }
    if exists remote :: Writes(left, remote) && Writes(right, remote) {
      var remote :| Writes(left, remote) && Writes(right, remote);
      var r1 :| Join(left, r1) == Ok(remote);
      var r2 :| Join(right, r2) == Ok(remote);
      AncestorsAreNested(left.path, right.path, remote);
    }
  }

  lemma OuterWritesInnerRoot(outer: RemoteRoot, inner: RemoteRoot)
    requires IsParsed(outer) && IsParsed(inner)
    requires AtOrBeneath(outer.path, inner.path)
    ensures inner.path != [] && outer.path != []
    ensures Writes(outer, inner.path) && Writes(inner, inner.path)
  {
    hide Split, DrivePathIssue, HasControl;
    ParseMeans(outer.path);
    ParseMeans(inner.path);
    assert Join(inner, []) == Ok(inner.path);
    if outer.path == inner.path {
      assert Join(outer, []) == Ok(inner.path);
    } else {
      var relative := inner.path[|outer.path| + 1..];
      var tail := outer.path[1..];
      assert inner.path == outer.path + "/" + relative;
      assert inner.path[1..] == tail + "/" + relative;
      SplitOfJoin(tail, relative);
      CleanTextOfJoin(outer.path, relative);
      assert relative != [] by { assert inner.path[|inner.path| - 1] != '/'; }
      ValidateRelativeMeans(relative);
      assert Join(outer, relative) == Ok(inner.path);
    }
  }

  /** On components: independent roots are those neither of which is a prefix of the other. */
  lemma OverlapIsComponentPrefix(left: RemoteRoot, right: RemoteRoot)
    ensures RootsOverlap(left, right)
        <==> Split(left.path) <= Split(right.path) || Split(right.path) <= Split(left.path)
  {
    BeneathIsComponentPrefix(left.path, right.path);
    BeneathIsComponentPrefix(right.path, left.path);
    JoinedOfSplit(left.path);
    JoinedOfSplit(right.path);
    var l, r := Split(left.path), Split(right.path);
    assert l <= r <==> l < r || l == r;
    assert r <= l <==> r < l || l == r;
  }
}
