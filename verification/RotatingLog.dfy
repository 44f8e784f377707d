/** The rotating log file: one current file and numbered backups, `.1` the newest. */
module RotatingLog {
  import opened Bytes
  import opened Wrappers

  /** The bytes of one line, without the newline that ends it. */
  type Line = seq<Byte>

  const U64_MAX: nat := 0xFFFF_FFFF_FFFF_FFFF

  function Saturated(n: nat): nat {
    if n <= U64_MAX then n else U64_MAX
  }

  /** Bytes of a file that holds these lines, each with its newline. */
  function Size(file: seq<Line>): nat {
    if file == [] then 0 else Size(file[..|file| - 1]) + |file[|file| - 1]| + 1
  }

  lemma SizeOfOneMore(file: seq<Line>, line: Line)
    ensures Size(file + [line]) == Size(file) + |line| + 1
  {
    assert (file + [line])[..|file|] == file;
  }

  /** The backups `.1` to `.depth` exist and no other. */
  ghost predicate Contiguous(rotated: map<nat, seq<Line>>, depth: nat) {
    forall i: nat {:trigger i in rotated} :: i in rotated <==> 1 <= i <= depth
  }

  /** The lines of the backups `.depth` down to `.1`, oldest first. */
  ghost function Backlog(rotated: map<nat, seq<Line>>, depth: nat): seq<Line>
    requires forall i | 1 <= i <= depth :: i in rotated
  {
    if depth == 0 then [] else rotated[depth] + Backlog(rotated, depth - 1)
  }

  /** The file at one place, if it exists. */
  function Look(files: map<nat, seq<Line>>, i: nat): Option<seq<Line>> {
    if i in files then Some(files[i]) else None
  }

  /** One rotation: every backup moved up by one, the one at the last place gone, the current file
      at `.1` and nothing else touched. */
  ghost predicate IsShifted(before: map<nat, seq<Line>>, current: seq<Line>, backups: nat,
                            after: map<nat, seq<Line>>) {
    forall i: nat {:trigger Look(after, i)} ::
      Look(after, i) == if i == 1 then Some(current)
                        else if 2 <= i <= backups then Look(before, i - 1)
                        else Look(before, i)
  }

  /** Part of a rotation: the backups from `index` up have moved and `.index` is free. */
  ghost predicate IsMovedDownTo(before: map<nat, seq<Line>>, index: nat, backups: nat,
                                after: map<nat, seq<Line>>) {
    forall i: nat {:trigger Look(after, i)} ::
      Look(after, i) == if i == index then None
                        else if index < i <= backups then Look(before, i - 1)
                        else Look(before, i)
  }

  /** A rotation keeps the order of the lines and loses exactly the oldest backup of a full set. */
  lemma {:induction false} ShiftKeepsBacklog(before: map<nat, seq<Line>>, current: seq<Line>,
                                             backups: nat, depth: nat, after: map<nat, seq<Line>>)
    requires Contiguous(before, depth) && depth <= backups && backups > 0
    requires IsShifted(before, current, backups, after)
    ensures if depth < backups then
        && Contiguous(after, depth + 1)
        && Backlog(after, depth + 1) == Backlog(before, depth) + current
      else
        && Contiguous(after, depth)
        && before[depth] + Backlog(after, depth) == Backlog(before, depth) + current
  {
    var moved := if depth < backups then depth else depth - 1;
    ShiftedPlaces(before, current, backups, depth, after);
    hide IsShifted;
    BacklogMoves(before, after, current, moved);
  }

  lemma ShiftedPlaces(before: map<nat, seq<Line>>, current: seq<Line>, backups: nat, depth: nat,
                      after: map<nat, seq<Line>>)
    requires Contiguous(before, depth) && depth <= backups && backups > 0
    requires IsShifted(before, current, backups, after)
    ensures var moved := if depth < backups then depth else depth - 1;
      && Contiguous(after, moved + 1)
      && forall i | 1 <= i <= moved + 1 :: after[i] == if i == 1 then current else before[i - 1]
  {
    var moved := if depth < backups then depth else depth - 1;
    forall i: nat ensures i in after <==> 1 <= i <= moved + 1 {
      assert Look(after, i).Some? <==> i in after;
    }
    forall i | 1 <= i <= moved + 1
      ensures i in after && after[i] == if i == 1 then current else before[i - 1]
    {
      assert Look(after, i).Some?;
    }
  }

  lemma {:induction false} BacklogMoves(rotated: map<nat, seq<Line>>, after: map<nat, seq<Line>>,
                                        current: seq<Line>, n: nat)
    requires forall i | 1 <= i <= n :: i in rotated
    requires forall i | 1 <= i <= n + 1 ::
      i in after && after[i] == if i == 1 then current else rotated[i - 1]
    ensures Backlog(after, n + 1) == Backlog(rotated, n) + current
  {
    assert n + 1 in after;
    if n == 0 {
      assert Backlog(after, 0) == [];
    } else {
      BacklogMoves(rotated, after, current, n - 1);
      OldestFirst(after, n + 1);
      OldestFirst(rotated, n);
      hide Backlog;
      AppendIsAssociative(rotated[n], Backlog(rotated, n - 1), current);
    }
  }

  lemma OldestFirst(rotated: map<nat, seq<Line>>, depth: nat)
    requires depth > 0 && forall i | 1 <= i <= depth :: i in rotated
    ensures Backlog(rotated, depth) == rotated[depth] + Backlog(rotated, depth - 1)
  {
  }

  lemma AppendIsAssociative(a: seq<Line>, b: seq<Line>, c: seq<Line>)
    ensures (a + b) + c == a + (b + c)
  {
  }

  /** The file never exceeds the limit, unless one line alone does. */
  ghost predicate Bounded(file: seq<Line>, maxBytes: nat) {
    Saturated(Size(file)) <= maxBytes || |file| == 1
  }

  ghost predicate AllBounded(rotated: map<nat, seq<Line>>, depth: nat, maxBytes: nat)
    requires Contiguous(rotated, depth)
  {
    forall i | 1 <= i <= depth :: rotated[i] != [] && Bounded(rotated[i], maxBytes)
  }

  lemma ShiftKeepsBounds(before: map<nat, seq<Line>>, current: seq<Line>, backups: nat,
                         depth: nat, after: map<nat, seq<Line>>, maxBytes: nat)
    requires Contiguous(before, depth) && depth <= backups && backups > 0
    requires IsShifted(before, current, backups, after)
    requires AllBounded(before, depth, maxBytes) && current != [] && Bounded(current, maxBytes)
    requires Contiguous(after, if depth < backups then depth + 1 else depth)
    ensures AllBounded(after, if depth < backups then depth + 1 else depth, maxBytes)
  {
    forall i | 1 <= i <= (if depth < backups then depth + 1 else depth)
      ensures after[i] != [] && Bounded(after[i], maxBytes)
    {
      assert Look(after, i).Some?;
    }
  }

  /** The line does not fit beside what the file holds. */
  ghost predicate Overflows(file: seq<Line>, line: Line, maxBytes: nat) {
    file != [] && Saturated(Size(file) + |line| + 1) > maxBytes
  }

  lemma AppendedFits(file: seq<Line>, line: Line, maxBytes: nat)
    requires !Overflows(file, line, maxBytes)
    ensures Bounded(file + [line], maxBytes)
    ensures Saturated(Saturated(Size(file)) + Saturated(|line| + 1)) == Saturated(Size(file + [line]))
  {
    SizeOfOneMore(file, line);
    hide Size;
    if file == [] {
      assert file + [line] == [line];
    }
  }

  lemma EmptyFits(maxBytes: nat)
    ensures Bounded([], maxBytes) && Saturated(Size([])) == 0
  {
  }

  // ---- The bytes on disk ----

  /** The bytes of a file: its lines, each ended by a newline. */
  function Text(file: seq<Line>): seq<Byte> {
    if file == [] then [] else Text(file[..|file| - 1]) + file[|file| - 1] + [0x0A]
  }

  lemma {:induction false} SizeIsTextLength(file: seq<Line>)
    ensures Size(file) == |Text(file)|
  {
    if file != [] { SizeIsTextLength(file[..|file| - 1]); }
  }

  /** Under a limit below the counter's end, a line overflows exactly when the file is not empty and its bytes
      would outgrow the limit; and a file within its bounds has no more bytes than the limit, or one line. */
  lemma OverflowMeans(file: seq<Line>, line: Line, maxBytes: nat)
    requires maxBytes < 0xFFFF_FFFF_FFFF_FFFF
    ensures Overflows(file, line, maxBytes) <==> file != [] && |Text(file + [line])| > maxBytes
    ensures Bounded(file, maxBytes) <==> |Text(file)| <= maxBytes || |file| == 1
  {
    SizeOfOneMore(file, line);
    SizeIsTextLength(file);
    SizeIsTextLength(file + [line]);
    hide Size, Text;
  }

  class RotatingFile {
    const maxBytes: nat
    const backups: nat
    var current: seq<Line>
    var rotated: map<nat, seq<Line>>
    var length: nat
    ghost var written: seq<Line>    // every line ever written
    ghost var discarded: seq<Line>  // the oldest of them, no longer in any file
    ghost var depth: nat            // how many backups exist

    /** What the files still hold, oldest line first. */
    ghost function Retained(): seq<Line>
      reads this
      requires Contiguous(rotated, depth)
    {
      Backlog(rotated, depth) + current
    }

    ghost predicate Valid()
      reads this
    {
      && Contiguous(rotated, depth) && depth <= backups
      && length == Saturated(Size(current))
      && Bounded(current, maxBytes)
      && AllBounded(rotated, depth, maxBytes)
      && discarded + Retained() == written
      && (depth < backups ==> discarded == [])
    }

    constructor Empty(maxBytes: nat, backups: nat)
      ensures Valid() && this.maxBytes == maxBytes && this.backups == backups
      ensures current == [] && rotated == map[] && written == []
    {
      this.maxBytes, this.backups := maxBytes, backups;
      current, rotated, length := [], map[], 0;
      written, discarded, depth := [], [], 0;
    }

    /** Move every file up by one and start an empty current file; with no backups, truncate. */
    method Rotate()
      modifies `current, `rotated, `length
      ensures current == [] && length == 0
      ensures if backups == 0 then rotated == old(rotated)
              else IsShifted(old(rotated), old(current), backups, rotated)
    {
      if backups == 0 {
        current, length := [], 0;
        return;
      }
      ghost var before := rotated;
      if backups in rotated {
        rotated := rotated - {backups};
      }
      for index := backups downto 1
        invariant 1 <= index && current == old(current)
        invariant IsMovedDownTo(before, index, backups, rotated)
      {
        ghost var prior := rotated;
        assert Look(prior, index) == Look(before, index);
        if index in rotated {
          rotated := rotated[index + 1 := rotated[index]] - {index};
        }
        assert forall i: nat {:trigger Look(rotated, i)} ::
            Look(rotated, i) == if i == index then None
                                else if i == index + 1 then Look(prior, index)
                                else Look(prior, i);
      }
      ghost var moved := rotated;
      rotated := rotated[1 := current];
      assert forall i: nat {:trigger Look(rotated, i)} ::
          Look(rotated, i) == if i == 1 then Some(current) else Look(moved, i);
      current, length := [], 0;
    }

    /** What one rotation does to the history: the oldest backup of a full set is lost, or the
        current file when there are no backups, and everything else is kept in order. */
    method RotateKeepingHistory()
      requires Valid() && current != []
      modifies this
      ensures Valid() && current == [] && length == 0 && written == old(written)
      ensures if backups == 0 then rotated == old(rotated)
              else IsShifted(old(rotated), old(current), backups, rotated)
      ensures discarded == old(discarded)
                + (if backups == 0 then old(current)
                   else if old(depth) == backups then old(rotated)[backups]
                   else [])
    {
      hide IsShifted, Overflows, Bounded, AllBounded, Size, Saturated;
      EmptyFits(maxBytes);
      Rotate();
      if backups == 0 {
        discarded := discarded + old(current);
      } else {
        ShiftKeepsBacklog(old(rotated), old(current), backups, depth, rotated);
        discarded := discarded + if depth == backups then old(rotated)[backups] else [];
        ShiftKeepsBounds(old(rotated), old(current), backups, depth, rotated, maxBytes);
        depth := if depth < backups then depth + 1 else depth;
        hide Backlog, Contiguous;
        assert discarded + (Backlog(rotated, depth) + []) == old(discarded)
             + (Backlog(old(rotated), old(depth)) + old(current));
      }
    }

    /** `length` answers whether the line overflows. */
    lemma LengthDecidesOverflow(line: Line)
      requires Valid()
      ensures length > 0 && Saturated(length + Saturated(|line| + 1)) > maxBytes
          <==> Overflows(current, line, maxBytes)
      ensures length > 0 <==> current != []
    {
    }

    method Append(line: Line)
      requires Valid() && !Overflows(current, line, maxBytes)
      modifies `current, `length, `written
      ensures Valid()
      ensures current == old(current) + [line] && written == old(written) + [line]
    {
      hide Size, Saturated, Bounded, AllBounded, Backlog, Overflows;
      AppendedFits(current, line, maxBytes);
      assert Backlog(rotated, depth) + (current + [line]) == Retained() + [line];
      assert discarded + (Retained() + [line]) == written + [line];
      current := current + [line];
      length := Saturated(length + Saturated(|line| + 1));
      written := written + [line];
    }

    /** Append one line, rotating first when it would not fit beside what is already there. */
    method WriteLine(line: Line)
      requires Valid()
      modifies this
      ensures Valid()
      ensures written == old(written) + [line]
      ensures !Overflows(old(current), line, maxBytes) ==>
        && current == old(current) + [line]
        && rotated == old(rotated) && discarded == old(discarded)
      ensures Overflows(old(current), line, maxBytes) ==>
        && current == [line]
        && (if backups == 0 then rotated == old(rotated)
            else IsShifted(old(rotated), old(current), backups, rotated))
        && discarded == old(discarded)
             + (if backups == 0 then old(current)
                else if old(depth) == backups then old(rotated)[backups]
                else [])
    {
      hide IsShifted, Valid;
      LengthDecidesOverflow(line);
      var added := Saturated(|line| + 1);
      if length > 0 && Saturated(length + added) > maxBytes {
        RotateKeepingHistory();
      }
      Append(line);
    }
  }
}
