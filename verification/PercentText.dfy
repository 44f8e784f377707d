/** Percent-encoded log text in a fixed number of bytes: the escape form of section 2.1 of RFC 3986
    with a safe set of its own; a text that is too long is cut between escapes and ends in `~`. */
module PercentText {
  import opened Bytes
  import opened Wrappers

  const PERCENT: Byte := 0x25
  const TILDE: Byte := 0x7E

  /** ASCII letters and digits, and `.` `-` `_` `/` `:` `,`. */
  predicate Safe(b: Byte) {
    || 0x30 <= b <= 0x39 || 0x41 <= b <= 0x5A || 0x61 <= b <= 0x7A
    || b in {0x2E, 0x2D, 0x5F, 0x2F, 0x3A, 0x2C}
  }

  /** One upper-case hexadecimal digit. */
  function Hex(digit: int): Byte
    requires 0 <= digit < 16
  {
    if digit < 10 then 0x30 + digit else 0x41 + digit - 10
  }

  function HexValue(b: Byte): Option<int> {
    if 0x30 <= b <= 0x39 then Some(b - 0x30)
    else if 0x41 <= b <= 0x46 then Some(b - 0x41 + 10)
    else None
  }

  /** How one byte is written. */
  function Escape(b: Byte): (r: seq<Byte>)
    ensures |r| == 1 || |r| == 3
  {
    if Safe(b) then [b] else [PERCENT, Hex(b / 16), Hex(b % 16)]
  }

  function Encode(input: seq<Byte>): seq<Byte> {
    if input == [] then [] else Encode(input[..|input| - 1]) + Escape(input[|input| - 1])
  }

  /** The reader: undo every escape, or fail on text no encoder writes. */
  function Decode(text: seq<Byte>): Option<seq<Byte>> {
    if text == [] then Some([])
    else if text[0] != PERCENT then
      if !Safe(text[0]) then None
      else Prepend(text[0], Decode(text[1..]))
    else if |text| < 3 || HexValue(text[1]).None? || HexValue(text[2]).None? then None
    else Prepend(HexValue(text[1]).value * 16 + HexValue(text[2]).value, Decode(text[3..]))
  }

  function Prepend(b: Byte, rest: Option<seq<Byte>>): Option<seq<Byte>> {
    if rest.None? then None else Some([b] + rest.value)
  }

  // ---- Decoding is exact ----

  lemma DecodeOfEscape(b: Byte, rest: seq<Byte>)
    ensures Decode(Escape(b) + rest) == Prepend(b, Decode(rest))
  {
    var text := Escape(b) + rest;
    assert text[|Escape(b)|..] == rest;
  }

  lemma {:induction false} EncodeFromFront(b: Byte, input: seq<Byte>)
    ensures Encode([b] + input) == Escape(b) + Encode(input)
  {
    hide Escape;
    var whole := [b] + input;
    if input == [] {
      assert whole[..0] == [];
    } else {
      EncodeFromFront(b, input[..|input| - 1]);
      assert whole[..|whole| - 1] == [b] + input[..|input| - 1];
    }
  }

  /** Decoding gives back the bytes exactly. */
  lemma {:induction false} DecodeOfEncode(input: seq<Byte>)
    ensures Decode(Encode(input)) == Some(input)
  {
    if input != [] {
      var b, rest := input[0], input[1..];
      assert input == [b] + rest;
      EncodeFromFront(b, rest);
      DecodeOfEscape(b, Encode(rest));
      DecodeOfEncode(rest);
    }
  }

  // ---- What an encoding looks like ----

  /** A letter, a digit or one of six signs. */
  predicate StandsForItself(c: char) {
    'a' <= c <= 'z' || 'A' <= c <= 'Z' || '0' <= c <= '9' || c in "._-/:,"
  }

  lemma SafeMeans(b: Byte)
    ensures Safe(b) <==> StandsForItself(b as char)
  {
    var signs := "._-/:,";
    assert signs[0] == '.' && signs[1] == '_' && signs[2] == '-';
    assert signs[3] == '/' && signs[4] == ':' && signs[5] == ',';
  }

  /** Any other byte is written as a percent sign and two hexadecimal digits, the high half first. */
  lemma EscapeMeans(b: Byte)
    ensures if StandsForItself(b as char) then Escape(b) == [b]
            else |Escape(b)| == 3 && Escape(b)[0] as char == '%'
                 && Escape(b)[1] as char == "0123456789ABCDEF"[b / 16]
                 && Escape(b)[2] as char == "0123456789ABCDEF"[b % 16]
  {
    SafeMeans(b);
    HexIsADigit(b / 16);
    HexIsADigit(b % 16);
  }

  lemma HexIsADigit(digit: int)
    requires 0 <= digit < 16
    ensures Hex(digit) as char == "0123456789ABCDEF"[digit]
  {
    var digits := "0123456789ABCDEF";
    assert digits[0] == '0' && digits[1] == '1' && digits[2] == '2' && digits[3] == '3' && digits[4] == '4';
    assert digits[5] == '5' && digits[6] == '6' && digits[7] == '7' && digits[8] == '8' && digits[9] == '9';
    assert digits[10] == 'A' && digits[11] == 'B' && digits[12] == 'C' && digits[13] == 'D' && digits[14] == 'E';
  }

  /** How many bytes of a text do not stand for themselves. */
  function Others(input: seq<Byte>): nat {
    if input == [] then 0
    else Others(input[..|input| - 1]) + if StandsForItself(input[|input| - 1] as char) then 0 else 1
  }

  lemma {:induction false} OthersAreEscaped(input: seq<Byte>)
    ensures |Encode(input)| == |input| + 2 * Others(input)
    ensures Others(input) == 0 ==> Encode(input) == input
  {
    hide StandsForItself, Escape;
    if input != [] {
      var n := |input| - 1;
      OthersAreEscaped(input[..n]);
      EscapedWidth(input[n]);
      assert input == input[..n] + [input[n]];
    }
  }

  lemma EscapedWidth(b: Byte)
    ensures if StandsForItself(b as char) then Escape(b) == [b] else |Escape(b)| == 3
  {
    EscapeMeans(b);
    hide *;
  }

  lemma {:induction false} NoOthers(input: seq<Byte>)
    ensures Others(input) == 0 <==> forall b | b in input :: StandsForItself(b as char)
  {
    if input != [] {
      var n := |input| - 1;
      NoOthers(input[..n]);
      hide StandsForItself;
      assert input[n] in input;
      forall b | b in input ensures b in input[..n] || b == input[n] {
        var i :| 0 <= i < |input| && input[i] == b;
        assert i < n ==> input[..n][i] == b;
      }
      assert forall b | b in input[..n] :: b in input;
    }
  }

  /** Exactly the texts of letters, digits and the six signs stay as they are. */
  lemma PlainTextStays(input: seq<Byte>)
    ensures Encode(input) == input <==> forall b | b in input :: StandsForItself(b as char)
  {
    hide StandsForItself, Encode;
    OthersAreEscaped(input);
    NoOthers(input);
  }

  /** No encoding contains the truncation marker. */
  lemma {:induction false} EncodeHasNoMarker(input: seq<Byte>)
    ensures TILDE !in Encode(input)
  {
    if input != [] {
      EncodeHasNoMarker(input[..|input| - 1]);
    }
  }

  lemma {:induction false} EncodeGrows(input: seq<Byte>, j: nat, k: nat)
    requires j <= k <= |input|
    ensures k - j <= |Encode(input[..k])| - |Encode(input[..j])|
    decreases k
  {
    if j < k {
      EncodeGrows(input, j, k - 1);
      assert input[..k][..k - 1] == input[..k - 1];
    }
  }

  // ---- The bounded text ----

  /** How many leading bytes a text of `capacity` keeps when it must be truncated: the longest
      proper prefix whose encoding leaves room for the marker. */
  ghost predicate IsLongestFit(input: seq<Byte>, capacity: nat, kept: nat) {
    && kept < |input|
    && |Encode(input[..kept])| <= capacity - 1
    && NothingLongerFits(input, capacity, kept)
  }

  ghost predicate NothingLongerFits(input: seq<Byte>, capacity: nat, kept: nat) {
    forall k | kept < k < |input| :: |Encode(input[..k])| > capacity - 1
  }

  lemma EncodeOfOneMore(input: seq<Byte>, k: nat)
    requires k < |input|
    ensures Encode(input[..k + 1]) == Encode(input[..k]) + Escape(input[k])
  {
    assert input[..k + 1][..k] == input[..k];
  }

  /** An escape starts three bytes before the end exactly when the last byte was escaped: `%` is
      never written as itself. */
  lemma LastEscapeStartsWithPercent(input: seq<Byte>, k: nat)
    requires 0 < k <= |input|
    ensures var text := Encode(input[..k]);
      && |text| >= |Escape(input[k - 1])|
      && (|Escape(input[k - 1])| == 3 <==> |text| >= 3 && text[|text| - 3] == PERCENT)
  {
    EncodeOfOneMore(input, k - 1);
    var text := Encode(input[..k]);
    if Safe(input[k - 1]) && |text| >= 3 && text[|text| - 3] == PERCENT {
      // The `%` would open an escape that ends before `input[k - 1]`, one digit short.
      var before := Encode(input[..k - 1]);
      assert before[|before| - 2] == PERCENT;
      PercentIsFollowedByTwoDigits(input[..k - 1], |before| - 2);
    }
  }

  lemma {:induction false} PercentIsFollowedByTwoDigits(input: seq<Byte>, at: nat)
    requires at < |Encode(input)| && Encode(input)[at] == PERCENT
    ensures at + 2 < |Encode(input)|
  {
    var before := Encode(input[..|input| - 1]);
    if at < |before| {
      PercentIsFollowedByTwoDigits(input[..|input| - 1], at);
    }
  }

  /** The second half of `percent_encoded`: shorten the text, one input byte at a time, to make room
      for the marker, and put the marker there. */
  method MarkTruncated(bytes: array<Byte>, start: nat, ghost input: seq<Byte>, ghost next: nat)
    returns (length: nat)
    requires 1 <= bytes.Length && start <= bytes.Length && next < |input|
    requires bytes[..start] == Encode(input[..next])
    requires |Encode(input[..next + 1])| > bytes.Length
    modifies bytes
    ensures length <= bytes.Length
    ensures exists kept: nat :: IsLongestFit(input, bytes.Length, kept)
              && bytes[..length] == Encode(input[..kept]) + [TILDE]
  {
    hide Encode, Escape, NothingLongerFits;
    ghost var kept := next;
    NothingLongerYet(input, bytes.Length, next);
    length := start;
    while length > bytes.Length - 1
      invariant 0 <= kept <= next && length <= bytes.Length
      invariant bytes[..length] == Encode(input[..kept])
      invariant NothingLongerFits(input, bytes.Length, kept)
    {
      ghost var text := bytes[..length];
      DropsOneEscape(input, kept, text, bytes.Length);
      assert length >= 3 ==> text[length - 3] == bytes[length - 3];
      length := length - if length >= 3 && bytes[length - 3] == PERCENT then 3 else 1;
      kept := kept - 1;
      assert bytes[..length] == text[..length];
    }
    ghost var text := bytes[..length];
    bytes[length] := TILDE;
    length := length + 1;
    assert bytes[..length] == text + [TILDE];
    assert IsLongestFit(input, bytes.Length, kept);
  }

  lemma NothingLongerYet(input: seq<Byte>, capacity: nat, next: nat)
    requires next < |input| && |Encode(input[..next + 1])| > capacity
    ensures NothingLongerFits(input, capacity, next)
  {
    forall k | next < k < |input| ensures |Encode(input[..k])| > capacity - 1 {
      EncodeGrows(input, next + 1, k);
    }
  }

  /** One round of the truncation takes one whole escape off a text that leaves no room. */
  lemma DropsOneEscape(input: seq<Byte>, kept: nat, text: seq<Byte>, capacity: nat)
    requires kept < |input| && text == Encode(input[..kept]) && |text| > capacity - 1 && capacity >= 1
    requires NothingLongerFits(input, capacity, kept)
    ensures kept > 0 && |text| > 0
    ensures var fewer := |text| - if |text| >= 3 && text[|text| - 3] == PERCENT then 3 else 1;
      fewer >= 0 && text[..fewer] == Encode(input[..kept - 1])
    ensures NothingLongerFits(input, capacity, kept - 1)
  {
    assert kept > 0 by { assert text != []; }
    LastEscapeStartsWithPercent(input, kept);
    EncodeOfOneMore(input, kept - 1);
  }

  method WriteEscape(bytes: array<Byte>, at: nat, b: Byte)
    requires at + |Escape(b)| <= bytes.Length
    modifies bytes
    ensures bytes[..at + |Escape(b)|] == old(bytes[..at]) + Escape(b)
  {
    if Safe(b) {
      bytes[at] := b;
    } else {
      bytes[at] := PERCENT;
      bytes[at + 1] := Hex(b / 16);
      bytes[at + 2] := Hex(b % 16);
    }
  }

  /** `InlineAscii::percent_encoded` for a capacity of at least one byte. Without truncation the
      text is the whole encoding; otherwise it is the encoding of the longest proper prefix that
      leaves room, followed by the marker. */
  method PercentEncoded(input: seq<Byte>, capacity: nat) returns (bytes: array<Byte>, length: nat)
    requires 1 <= capacity <= 255
    ensures fresh(bytes) && bytes.Length == capacity && length <= capacity
    ensures |Encode(input)| <= capacity ==> bytes[..length] == Encode(input)
    ensures |Encode(input)| > capacity ==>
      exists kept: nat :: IsLongestFit(input, capacity, kept)
        && bytes[..length] == Encode(input[..kept]) + [TILDE]
  {
    bytes := new Byte[capacity](_ => 0);
    length := 0;
    var truncated := false;
    var next := 0;
    while next < |input|
      invariant 0 <= next <= |input| && length <= capacity
      invariant bytes[..length] == Encode(input[..next])
      invariant !truncated
    {
      var b := input[next];
      EncodeOfOneMore(input, next);
      var safe := Safe(b);
      var width := if safe then 1 else 3;
      if length + width > capacity {
        truncated := true;
        break;
      }
      WriteEscape(bytes, length, b);
      length := length + width;
      next := next + 1;
    }
    assert input[..|input|] == input;
    if truncated {
      EncodeGrows(input, next + 1, |input|);
      length := MarkTruncated(bytes, length, input, next);
    }
  }

  /** What a reader learns from any text the encoder may write: a final marker means truncation and
      nothing else does, and what precedes it decodes to a proper prefix of the input. */
  lemma TextIsUnambiguous(input: seq<Byte>, capacity: nat, text: seq<Byte>)
    requires capacity >= 1
    requires |Encode(input)| <= capacity ==> text == Encode(input)
    requires |Encode(input)| > capacity ==>
      exists kept: nat :: IsLongestFit(input, capacity, kept)
        && text == Encode(input[..kept]) + [TILDE]
    ensures |text| <= capacity
    ensures (text != [] && text[|text| - 1] == 0x7E) <==> |Encode(input)| > capacity
    ensures |Encode(input)| <= capacity ==> Decode(text) == Some(input)
    ensures |Encode(input)| > capacity ==>
      var decoded := Decode(text[..|text| - 1]);
      decoded.Some? && decoded.value < input && IsLongestFit(input, capacity, |decoded.value|)
  {
    if |Encode(input)| <= capacity {
      DecodeOfEncode(input);
      EncodeHasNoMarker(input);
    } else {
      var kept: nat :| IsLongestFit(input, capacity, kept)
        && text == Encode(input[..kept]) + [TILDE];
      assert text[..|text| - 1] == Encode(input[..kept]);
      DecodeOfEncode(input[..kept]);
    }
  }
}
