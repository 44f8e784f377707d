/** Which names and paths Drive clients can hold, told in lengths and characters, and what is reported of
    the others. */
module Portability {
  import opened Strings
  import opened Wrappers
  import opened RemotePath

  // ---- Bytes ----

  /** How many characters reach a code point. */
  function Reaching(s: string, limit: char): nat {
    if s == [] then 0 else (if s[0] >= limit then 1 else 0) + Reaching(s[1..], limit)
  }

  /** Bytes in UTF-8: one a character, and one more for each of three code points it reaches. */
  function Bytes(s: string): nat {
    |s| + Reaching(s, '\U{80}') + Reaching(s, '\U{800}') + Reaching(s, '\U{10000}')
  }

  lemma {:induction false} Utf8LengthMeans(s: string)
    ensures Utf8Length(s) == Bytes(s)
  {
    if s != [] { Utf8LengthMeans(s[1..]); }
  }

  // ---- Names Windows reserves ----

  predicate SameLetter(c: char, capital: char) {
    c == capital || ('A' <= capital <= 'Z' && c as int == capital as int + 32)
  }

  /** The text is the word in any ASCII case. */
  predicate Spells(text: string, word: string) {
    |text| == |word| && forall i | 0 <= i < |word| :: SameLetter(text[i], word[i])
  }

  /** A device name, or a numbered port from one to nine. */
  predicate IsDevice(text: string) {
    || Spells(text, "CON") || Spells(text, "PRN") || Spells(text, "AUX") || Spells(text, "NUL")
    || (|text| == 4 && (Spells(text[..3], "COM") || Spells(text[..3], "LPT")) && '1' <= text[3] <= '9')
  }

  /** Up to its first dot, or to its end without one, the name is reserved. */
  predicate StartsWithDevice(name: string) {
    exists n | 0 <= n <= |name| ::
      '.' !in name[..n] && (n == |name| || name[n] == '.') && IsDevice(name[..n])
  }

  lemma LettersAgree(c: char, capital: char)
    requires !('a' <= capital <= 'z')
    ensures AsciiUpper(c) == capital <==> SameLetter(c, capital)
  {
  }

  lemma UppercaseSpells(text: string, word: string)
    requires forall c <- word :: !('a' <= c <= 'z')
    ensures AsciiUppercase(text) == word <==> Spells(text, word)
  {
    forall i | 0 <= i < |word| && |text| == |word|
      ensures AsciiUppercase(text)[i] == word[i] <==> SameLetter(text[i], word[i])
    {
      assert word[i] in word;
      LettersAgree(text[i], word[i]);
    }
    if Spells(text, word) { assert AsciiUppercase(text) == word; }
  }

  lemma StemEndsAtTheFirstDot(name: string)
    ensures var n := |Stem(name)|;
      n <= |name| && Stem(name) == name[..n] && '.' !in name[..n] && (n == |name| || name[n] == '.')
  {
    if name != [] && name[0] != '.' {
      StemEndsAtTheFirstDot(name[1..]);
      var n := |Stem(name)|;
      assert name[..n] == [name[0]] + name[1..][..n - 1];
    }
  }

  lemma DotWithin(name: string, m: nat, n: nat)
    ensures m < n <= |name| && name[m] == '.' ==> '.' in name[..n]
  {
    if m < n <= |name| { assert name[..n][m] == name[m]; }
  }

  lemma FirstDotIsOne(name: string, m: nat, n: nat)
    requires m <= |name| && '.' !in name[..m] && (m == |name| || name[m] == '.')
    requires n <= |name| && '.' !in name[..n] && (n == |name| || name[n] == '.')
    ensures m == n
  {
    DotWithin(name, m, n);
    DotWithin(name, n, m);
  }

  lemma StartsWithDeviceByStem(name: string)
    ensures StartsWithDevice(name) <==> IsDevice(Stem(name))
  {
    hide IsDevice;
    StemEndsAtTheFirstDot(name);
    if n :| 0 <= n <= |name| && '.' !in name[..n] && (n == |name| || name[n] == '.') && IsDevice(name[..n]) {
      FirstDotIsOne(name, |Stem(name)|, n);
    }
  }

  /** A reserved word of four letters is a port and its digit. */
  lemma ReservedWords(word: string)
    ensures word in RESERVED_STEMS <==>
      || word == "CON" || word == "PRN" || word == "AUX" || word == "NUL"
      || (|word| == 4 && (word[..3] == "COM" || word[..3] == "LPT") && '1' <= word[3] <= '9')
  {
    assert "COM" + "1" == "COM1" && "COM" + "2" == "COM2" && "COM" + "3" == "COM3";
    assert "COM" + "4" == "COM4" && "COM" + "5" == "COM5" && "COM" + "6" == "COM6";
    assert "COM" + "7" == "COM7" && "COM" + "8" == "COM8" && "COM" + "9" == "COM9";
    assert "LPT" + "1" == "LPT1" && "LPT" + "2" == "LPT2" && "LPT" + "3" == "LPT3";
    assert "LPT" + "4" == "LPT4" && "LPT" + "5" == "LPT5" && "LPT" + "6" == "LPT6";
    assert "LPT" + "7" == "LPT7" && "LPT" + "8" == "LPT8" && "LPT" + "9" == "LPT9";
    if |word| == 4 {
      assert word == word[..3] + [word[3]];
    }
  }

  lemma ReservedMeans(stem: string)
    ensures AsciiUppercase(stem) in RESERVED_STEMS <==> IsDevice(stem)
  {
    var word := AsciiUppercase(stem);
    ReservedWords(word);
    UppercaseSpells(stem, "CON");
    UppercaseSpells(stem, "PRN");
    UppercaseSpells(stem, "AUX");
    UppercaseSpells(stem, "NUL");
    if |stem| == 4 {
      assert word[..3] == AsciiUppercase(stem[..3]);
      UppercaseSpells(stem[..3], "COM");
      UppercaseSpells(stem[..3], "LPT");
      hide Spells;
      assert '1' <= word[3] <= '9' <==> '1' <= stem[3] <= '9';
    }
  }

  // ---- Names and paths ----

  /** What each issue says of a name. */
  predicate Breaks(name: string, issue: Issue) {
    match issue
    case PathTooLong => false
    case ComponentTooLong => |name| > 255
    case ComponentTooManyBytes(bytes) => bytes == Bytes(name) && bytes > 255
    case StartsWithTilde => "~" <= name
    case HasControlCharacter => exists c <- name :: c < ' ' || '\U{7F}' <= c <= '\U{9F}'
    case HasUnsupportedCharacter => exists c <- name :: c in "*:?\"<>|"
    case EndsWithDotOrSpace => name != [] && (name[|name| - 1] == '.' || name[|name| - 1] == ' ')
    case ReservedName => StartsWithDevice(name)
  }

  /** The order in which the issues are looked for. */
  function Turn(issue: Issue): nat {
    match issue
    case PathTooLong => 0
    case ComponentTooLong => 1
    case ComponentTooManyBytes(_) => 2
    case StartsWithTilde => 3
    case HasControlCharacter => 4
    case HasUnsupportedCharacter => 5
    case EndsWithDotOrSpace => 6
    case ReservedName => 7
  }

  /** The issue is the first the name has. */
  ghost predicate BreaksFirst(name: string, issue: Issue) {
    Breaks(name, issue) && forall other | Breaks(name, other) :: Turn(issue) <= Turn(other)
  }

  lemma HasControlMeans(s: string)
    ensures HasControl(s) <==> exists c <- s :: c < ' ' || '\U{7F}' <= c <= '\U{9F}'
  {
    assert forall c :: IsControl(c) <==> c < ' ' || '\U{7F}' <= c <= '\U{9F}';
  }

  lemma UnsupportedMeans(s: string)
    ensures (exists c <- s :: c in {'*', ':', '?', '"', '<', '>', '|'}) <==> exists c <- s :: c in "*:?\"<>|"
  {
    forall c: char ensures c in {'*', ':', '?', '"', '<', '>', '|'} <==> c in "*:?\"<>|" {
      var marks := "*:?\"<>|";
      assert marks[0] == '*' && marks[1] == ':' && marks[2] == '?' && marks[3] == '"';
      assert marks[4] == '<' && marks[5] == '>' && marks[6] == '|';
    }
  }

  lemma ComponentIssueMeans(name: string, issue: Issue)
    ensures ComponentIssue(name) == Some(issue) <==> BreaksFirst(name, issue)
    ensures ComponentIssue(name).None? <==> forall other :: !Breaks(name, other)
  {
    hide Bytes, HasControl, StartsWithDevice, AsciiUppercase, Utf8Length;
    Utf8LengthMeans(name);
    HasControlMeans(name);
    UnsupportedMeans(name);
    StartsWithDeviceByStem(name);
    ReservedMeans(Stem(name));
    if ComponentIssue(name).Some? { assert Breaks(name, ComponentIssue(name).value); }
  }

  /** A path is held by Drive clients exactly when it and every component keep these rules. */
  lemma PortableMeans(path: string)
    ensures DrivePathIssue(path).None? <==>
      && |path| <= 247
      && forall name <- Split(path) ::
           && |name| <= 255 && Bytes(name) <= 255
           && !("~" <= name)
           && (forall c <- name :: ' ' <= c < '\U{7F}' || '\U{9F}' < c)
           && (forall c <- name :: c !in "*:?\"<>|")
           && (name == [] || (name[|name| - 1] != '.' && name[|name| - 1] != ' '))
           && !StartsWithDevice(name)
  {
    hide Bytes, StartsWithDevice, ComponentIssue;
    forall name <- Split(path)
      ensures ComponentIssue(name).None? <==>
           && |name| <= 255 && Bytes(name) <= 255
           && !("~" <= name)
           && (forall c <- name :: ' ' <= c < '\U{7F}' || '\U{9F}' < c)
           && (forall c <- name :: c !in "*:?\"<>|")
           && (name == [] || (name[|name| - 1] != '.' && name[|name| - 1] != ' '))
           && !StartsWithDevice(name)
    {
      ComponentIssueMeans(name, PathTooLong);
      NothingBroken(name);
    }
  }

  lemma NothingBroken(name: string)
    ensures (forall issue :: !Breaks(name, issue)) <==>
      && |name| <= 255 && Bytes(name) <= 255
      && !("~" <= name)
      && (forall c <- name :: ' ' <= c < '\U{7F}' || '\U{9F}' < c)
      && (forall c <- name :: c !in "*:?\"<>|")
      && (name == [] || (name[|name| - 1] != '.' && name[|name| - 1] != ' '))
      && !StartsWithDevice(name)
  {
    hide Bytes, StartsWithDevice;
    assert Bytes(name) > 255 ==> Breaks(name, ComponentTooManyBytes(Bytes(name)));
    assert Breaks(name, ComponentTooLong) <==> |name| > 255;
    assert Breaks(name, StartsWithTilde) <==> "~" <= name;
    assert Breaks(name, HasControlCharacter) <==> exists c <- name :: c < ' ' || '\U{7F}' <= c <= '\U{9F}';
    assert Breaks(name, HasUnsupportedCharacter) <==> exists c <- name :: c in "*:?\"<>|";
    assert Breaks(name, EndsWithDotOrSpace) <==>
      name != [] && (name[|name| - 1] == '.' || name[|name| - 1] == ' ');
    assert Breaks(name, ReservedName) <==> StartsWithDevice(name);
  }

  /** No component before this one breaks a rule, and it breaks none before this issue's. */
  ghost predicate IsFirstBroken(parts: seq<string>, k: nat, issue: Issue)
    requires k < |parts|
  {
    && BreaksFirst(parts[k], issue)
    && forall earlier, other | 0 <= earlier < k :: !Breaks(parts[earlier], other)
  }

  /** What is reported is the first rule broken by the first component that breaks any. */
  lemma ReportedIssue(path: string, issue: Issue)
    ensures |path| > 247 ==> (DrivePathIssue(path) == Some(issue) <==> issue == PathTooLong)
    ensures |path| <= 247 ==>
      (DrivePathIssue(path) == Some(issue) <==>
         exists k | 0 <= k < |Split(path)| :: IsFirstBroken(Split(path), k, issue))
  {
    FirstIssueMeans(Split(path), issue);
    assert |path| <= 247 ==> DrivePathIssue(path) == FirstIssue(Split(path));
    hide *;
  }

  lemma {:induction false} FirstIssueMeans(parts: seq<string>, issue: Issue)
    ensures FirstIssue(parts) == Some(issue) <==>
      exists k | 0 <= k < |parts| :: IsFirstBroken(parts, k, issue)
  {
    hide BreaksFirst, ComponentIssue, Breaks;
    if parts != [] {
      FirstIssueMeans(parts[1..], issue);
      ComponentIssueMeans(parts[0], issue);
      if k :| 0 <= k < |parts[1..]| && IsFirstBroken(parts[1..], k, issue) && ComponentIssue(parts[0]).None? {
        forall earlier, other | 0 <= earlier < k + 1 ensures !Breaks(parts[earlier], other) {
          assert earlier > 0 ==> parts[earlier] == parts[1..][earlier - 1];
        }
        assert IsFirstBroken(parts, k + 1, issue);
      }
      if k :| 0 <= k < |parts| && IsFirstBroken(parts, k, issue) {
        if k > 0 {
          assert IsFirstBroken(parts[1..], k - 1, issue);
        } else {
          assert BreaksFirst(parts[0], issue);
        }
      } else {
        assert BreaksFirst(parts[0], issue) ==> IsFirstBroken(parts, 0, issue);
      }
    }
  }

  // ---- Names DSM keeps for itself ----

  lemma ManagedNameMeans(name: string)
    ensures IsDsmManagedName(name) <==>
      || name == "#recycle" || name == "#snapshot" || name == "@eaDir" || name == "@tmp" || name == "@sharebin"
      || name == "@apphome" || name == "@appdata" || name == "@appstore" || name == "@apptemp" || name == "@appconf"
      || name == ".SynologyWorkingDirectory"
  {
  }

  // ---- Roots and joins ----

  /** The characters of a path are those of its components and the slashes. */
  lemma {:induction false} CharactersOfParts(s: string, c: char)
    requires c != '/'
    ensures c in s <==> exists part <- Split(s) :: c in part
    decreases |s|
  {
    var first := FirstComponent(s);
    if first == s {
      assert Split(s)[0] == s;
    } else {
      var rest := s[|first| + 1..];
      assert s == first + "/" + rest;
      CharactersOfParts(rest, c);
      assert Split(s) == [first] + Split(rest);
    }
  }

  lemma {:induction false} PartsAreNoLonger(s: string)
    ensures forall part <- Split(s) :: |part| <= |s|
    decreases |s|
  {
    var first := FirstComponent(s);
    if first != s { PartsAreNoLonger(s[|first| + 1..]); }
  }

  lemma RootText(value: string)
    requires "/" <= value
    ensures (forall c <- value :: (' ' <= c < '\U{7F}' || '\U{9F}' < c) && c !in "\\*:?\"<>|") <==>
      && CleanText(value)
      && forall name <- Split(value[1..]), c <- name :: (' ' <= c < '\U{7F}' || '\U{9F}' < c) && c !in "*:?\"<>|"
  {
    hide Split, HasControl;
    HasControlMeans(value);
    MarksAndBackslash();
    assert CleanText(value) <==>
      '\\' !in value && forall c <- value :: ' ' <= c < '\U{7F}' || '\U{9F}' < c;
    var tail := value[1..];
    assert value == ['/'] + tail;
    forall c <- value | c in "*:?\"<>|" ensures exists name <- Split(tail) :: c in name {
      assert c in tail;
      CharactersOfParts(tail, c);
    }
    forall name <- Split(tail), c <- name ensures c in value {
      if c != '/' { CharactersOfParts(tail, c); }
    }
    assert (forall name <- Split(tail), c <- name :: c !in "*:?\"<>|") <==> forall c <- value :: c !in "*:?\"<>|";
  }

  lemma MarksAndBackslash()
    ensures forall c: char :: c in "\\*:?\"<>|" <==> c == '\\' || c in "*:?\"<>|"
    ensures '/' !in "*:?\"<>|"
  {
    assert "\\*:?\"<>|" == "\\" + "*:?\"<>|";
  }

  /** Everything a root has to be. */
  lemma AcceptedRoot(value: string)
    ensures Parse(value).Ok? <==>
      && "/" <= value && |value| <= 248
      && (forall c <- value :: (' ' <= c < '\U{7F}' || '\U{9F}' < c) && c !in "\\*:?\"<>|")
      && forall name <- Split(value[1..]) ::
           && name != "" && name != "." && name != ".." && Bytes(name) <= 255
           && !("~" <= name) && name[|name| - 1] != '.' && name[|name| - 1] != ' '
           && !StartsWithDevice(name) && !IsDsmManagedName(name)
    ensures Parse(value).Ok? ==> Parse(value).value.path == value
  {
    hide Bytes, Split, CleanText, StartsWithDevice, IsDsmManagedName, DrivePathIssue, Parse;
    ParseMeans(value);
    assert "/" <= value <==> value != [] && value[0] == '/';
    if "/" <= value {
      RootText(value);
      PortableMeans(value[1..]);
      PartsAreNoLonger(value[1..]);
    }
  }

  /** What each refusal says of a root. */
  predicate Objects(value: string, error: PathError) {
    match error
    case NoLeadingSlash => !("/" <= value)
    case DsmRoot => value == "/"
    case TrailingSlash => value != [] && value[|value| - 1] == '/'
    case Backslash => '\\' in value
    case ControlCharacter => exists c <- value :: c < ' ' || '\U{7F}' <= c <= '\U{9F}'
    case EmptyComponent => value != [] && "" in Split(value[1..])
    case DotComponent => value != [] && ("." in Split(value[1..]) || ".." in Split(value[1..]))
    case ManagedDirectory => value != [] && IsDsmManaged(value[1..])
    case NotPortable(issue) => value != [] && DrivePathIssue(value[1..]) == Some(issue)
    case _ => false
  }

  function TurnOfRefusal(error: PathError): nat {
    match error
    case NoLeadingSlash => 0
    case DsmRoot => 1
    case TrailingSlash => 2
    case Backslash => 3
    case ControlCharacter => 4
    case EmptyComponent => 5
    case DotComponent => 6
    case ManagedDirectory => 7
    case _ => 8
  }

  /** A root is refused for the first of what is wrong with it. */
  lemma RefusedRoot(value: string, error: PathError)
    ensures Parse(value) == Err(error) <==>
      Objects(value, error) && forall other | Objects(value, other) :: TurnOfRefusal(error) <= TurnOfRefusal(other)
    ensures Parse(value).Ok? <==> forall other :: !Objects(value, other)
  {
    hide Split, HasControl, DrivePathIssue, IsDsmManagedName;
    HasControlMeans(value);
    if Parse(value).Err? { assert Objects(value, Parse(value).error); }
  }
}
