/** Both services answer the same interface: the line at a zero-based index, absent
    when the file has no such line. On files whose CR bytes all stand in CR LF pairs
    (CR-free files among them) the indexed lookup agrees with the straightforward one
    at every integer index. A CR followed by a byte other than LF makes them differ;
    a CR that is the last byte of the file does not, although `CrOnlyInCrLf` excludes
    that case as well. */
module Agreement {
  import opened Bytes
  import opened Optional
  import opened LineSplitting
  import opened LineIndex
  import RandomAccessService
  import LinesService

  /** Every entry lowered by `d`: the table of the file with its first `d` bytes cut. */
  function Rebase(ends: seq<nat>, d: nat): (r: seq<nat>)
    requires forall i :: 0 <= i < |ends| ==> d <= ends[i]
    ensures |r| == |ends|
    ensures forall i :: 0 <= i < |r| ==> r[i] + d == ends[i]
  {
    if |ends| == 0 then [] else [ends[0] - d] + Rebase(ends[1..], d)
  }

  /** Lowering the entries after the first keeps them LF positions of the suffix. */
  lemma TailEntries(file: seq<byte>, ends: seq<nat>, d: nat, tail: seq<nat>)
    requires d <= |file|
    requires forall i :: 0 <= i < |ends| ==> ends[i] < |file| && file[ends[i]] == LF
    requires |tail| + 1 == |ends|
    requires forall i :: 0 <= i < |tail| ==> tail[i] + d == ends[i + 1]
    ensures forall i :: 0 <= i < |tail| ==> tail[i] < |file[d..]| && file[d..][tail[i]] == LF
  {
    forall i | 0 <= i < |tail| ensures tail[i] < |file[d..]| && file[d..][tail[i]] == LF {
      assert file[ends[i + 1]] == LF;
      assert file[d..][tail[i]] == file[ends[i + 1]];
    }
  }

  /** Every LF of the suffix is among the lowered entries. */
  lemma TailComplete(file: seq<byte>, ends: seq<nat>, d: nat, tail: seq<nat>)
    requires 0 < d <= |file|
    requires forall p :: 0 <= p < |file| && file[p] == LF ==> p in ends
    requires |ends| > 0 && ends[0] + 1 == d
    requires |tail| + 1 == |ends|
    requires forall i :: 0 <= i < |tail| ==> tail[i] + d == ends[i + 1]
    ensures forall p :: 0 <= p < |file[d..]| && file[d..][p] == LF ==> p in tail
  {
    forall p | 0 <= p < |file[d..]| && file[d..][p] == LF ensures p in tail {
      assert file[p + d] == LF;
      var j :| 0 <= j < |ends| && ends[j] == p + d;
      assert tail[j - 1] == p;
    }
  }

  lemma TailIncreasing(ends: seq<nat>, d: nat, tail: seq<nat>)
    requires Increasing(ends)
    requires |tail| + 1 == |ends|
    requires forall i :: 0 <= i < |tail| ==> tail[i] + d == ends[i + 1]
    ensures Increasing(tail)
  {
    forall i, j | 0 <= i < j < |tail| ensures tail[i] < tail[j] {
      assert ends[i + 1] < ends[j + 1];
    }
  }

  /** The first LF of the file is the first table entry, and every later entry is
      past it. */
  lemma FirstTableEntry(file: seq<byte>, ends: seq<nat>, e: nat)
    requires IsLineEndingTable(file, ends)
    requires e < |file| && file[e] == LF
    requires forall j :: 0 <= j < e ==> file[j] != LF
    ensures |ends| > 0 && ends[0] == e
    ensures forall i :: 1 <= i < |ends| ==> e + 1 <= ends[i]
  {
    assert e in ends;
    assert file[ends[0]] == LF;
  }

  /** Entries lowered by `d`, from a table whose first entry is the LF just before
      `d`, form the table of the bytes from `d` on. */
  lemma TailIsTable(file: seq<byte>, ends: seq<nat>, d: nat, tail: seq<nat>)
    requires IsLineEndingTable(file, ends)
    requires 0 < d <= |file|
    requires |ends| > 0 && ends[0] + 1 == d
    requires |tail| + 1 == |ends|
    requires forall i :: 0 <= i < |tail| ==> tail[i] + d == ends[i + 1]
    ensures IsLineEndingTable(file[d..], tail)
  {
    TailEntries(file, ends, d, tail);
    TailComplete(file, ends, d, tail);
    TailIncreasing(ends, d, tail);
  }

  /** When the first LF is at e, the rest of the table, lowered by e + 1, is the table
      of the bytes after it. */
  lemma TableAfterFirstLf(file: seq<byte>, ends: seq<nat>, e: nat)
    requires IsLineEndingTable(file, ends)
    requires e < |file| && file[e] == LF
    requires forall j :: 0 <= j < e ==> file[j] != LF
    ensures |ends| > 0 && ends[0] == e
    ensures forall i :: 1 <= i < |ends| ==> e + 1 <= ends[i]
    ensures IsLineEndingTable(file[e + 1..], Rebase(ends[1..], e + 1))
  {
    FirstTableEntry(file, ends, e);
    TailIsTable(file, ends, e + 1, Rebase(ends[1..], e + 1));
  }

  /** In a file whose CRs all precede an LF, the first terminator ends with the
      first LF: at its own position for LF, one further on for CR LF. */
  lemma FirstLineFeed(file: seq<byte>)
    requires CrOnlyInCrLf(file)
    requires LineLength(file) < |file|
    ensures var n := LineLength(file);
            var e := n + TerminatorWidth(file, n) - 1;
            e < |file| && file[e] == LF && forall j :: 0 <= j < e ==> file[j] != LF
  {
  }

  lemma CrOnlyInCrLfSuffix(file: seq<byte>, k: nat)
    requires k <= |file|
    requires CrOnlyInCrLf(file)
    ensures CrOnlyInCrLf(file[k..])
  {
    forall j | 0 <= j < |file| - k && file[k..][j] == CR
      ensures j + 1 < |file| - k && file[k..][j + 1] == LF
    {
      assert file[k + j] == CR;
    }
  }

  lemma NoCarriageReturnIsCrOnlyInCrLf(file: seq<byte>)
    requires NoCarriageReturn(file)
    ensures CrOnlyInCrLf(file)
  {
  }

  /** Seeking d + q in the file reads what seeking q in the bytes after d reads. */
  lemma ReadLineFromSuffix(file: seq<byte>, d: nat, q: nat)
    requires d <= |file|
    ensures RandomAccessService.ReadLineFrom(file, d + q) ==
            RandomAccessService.ReadLineFrom(file[d..], q)
  {
    if d + q < |file| {
      assert file[d + q..] == file[d..][q..];
    }
  }

  /** One step of the induction: line index of the file is line index - 1 of the
      bytes after its first LF, for the indexed lookup with the lowered table. */
  lemma LookupAfterFirstLine(file: seq<byte>, ends: seq<nat>, d: nat, tail: seq<nat>, index: int)
    requires |ends| > 0 && ends[0] + 1 == d && d <= |file|
    requires |tail| + 1 == |ends|
    requires forall i :: 0 <= i < |tail| ==> tail[i] + d == ends[i + 1]
    requires index >= 1
    ensures RandomAccessService.GetLineAtIndex(file, ends, index) ==
            RandomAccessService.GetLineAtIndex(file[d..], tail, index - 1)
  {
    if index <= |ends| {
      var q := RandomAccessService.StartPosition(tail, index - 1);
      assert RandomAccessService.StartPosition(ends, index) == d + q;
      ReadLineFromSuffix(file, d, q);
    }
  }

  /** A file with no terminator at all has an empty table and a single line. */
  lemma SingleLineFile(file: seq<byte>, ends: seq<nat>)
    requires IsLineEndingTable(file, ends)
    requires |file| > 0 && LineLength(file) == |file|
    ensures ends == []
    ensures Lines(file) == [file]
    ensures RandomAccessService.ReadLineFrom(file, 0) == Some(file)
  {
    HeadIsMember(ends);
    assert file[0..] == file;
    assert file[..|file|] == file;
  }

  /** The same step for the straightforward lookup. */
  lemma ReferenceAfterFirstLine(file: seq<byte>, index: int)
    requires LineLength(file) < |file|
    requires index >= 1
    ensures LinesService.GetLineAtIndex(file, index) ==
            LinesService.GetLineAtIndex(AfterFirstLine(file), index - 1)
  {
    LinesFirstTerminator(file);
  }

  /** Line 0 of a file with a terminator: the bytes before it, for both lookups. */
  lemma FirstLineAgrees(file: seq<byte>, ends: seq<nat>)
    requires LineLength(file) < |file|
    ensures LinesService.GetLineAtIndex(file, 0) == Some(file[..LineLength(file)])
    ensures RandomAccessService.GetLineAtIndex(file, ends, 0) == Some(file[..LineLength(file)])
  {
    LinesFirstTerminator(file);
    assert file[0..] == file;
  }

  /** The bytes after the first terminator are the suffix from `NextLineStart`. */
  lemma AfterFirstLineIsSuffix(file: seq<byte>)
    requires LineLength(file) < |file|
    ensures NextLineStart(file) <= |file|
    ensures AfterFirstLine(file) == file[NextLineStart(file)..]
  {
  }

  /** The bytes after the first terminator keep "every CR precedes an LF". */
  lemma {:induction false} SuffixCrOnlyInCrLf(file: seq<byte>)
    requires CrOnlyInCrLf(file)
    requires LineLength(file) < |file|
    ensures CrOnlyInCrLf(AfterFirstLine(file))
  {
    AfterFirstLineIsSuffix(file);
    CrOnlyInCrLfSuffix(file, NextLineStart(file));
  }

  /** The byte before `NextLineStart` is the first LF of the file. */
  lemma {:induction false} NextLineStartFollowsFirstLf(file: seq<byte>)
    requires CrOnlyInCrLf(file)
    requires LineLength(file) < |file|
    ensures var e := NextLineStart(file) - 1;
            e < |file| && file[e] == LF && forall j :: 0 <= j < e ==> file[j] != LF
  {
    FirstLineFeed(file);
  }

  /** The first table entry is the LF that ends the first terminator; every later
      entry is at or past the start of the second line. */
  lemma {:induction false} SuffixFirstEntry(file: seq<byte>, ends: seq<nat>)
    requires CrOnlyInCrLf(file)
    requires IsLineEndingTable(file, ends)
    requires LineLength(file) < |file|
    ensures |ends| > 0 && ends[0] + 1 == NextLineStart(file)
    ensures forall i :: 1 <= i < |ends| ==> NextLineStart(file) <= ends[i]
  {
    NextLineStartFollowsFirstLf(file);
    FirstTableEntry(file, ends, NextLineStart(file) - 1);
  }

  /** The later entries, lowered past the first terminator, form the table of the
      suffix that starts at `d`. */
  lemma {:induction false} SuffixTableAt(file: seq<byte>, ends: seq<nat>, d: nat)
    requires CrOnlyInCrLf(file)
    requires IsLineEndingTable(file, ends)
    requires LineLength(file) < |file|
    requires d == NextLineStart(file)
    ensures |ends| > 0 && forall i :: 1 <= i < |ends| ==> d <= ends[i]
    ensures IsLineEndingTable(file[d..], Rebase(ends[1..], d))
  {
    NextLineStartFollowsFirstLf(file);
    TableAfterFirstLf(file, ends, d - 1);
  }

  /** The rest of the table, lowered past the first terminator, is the table of the
      bytes after it. */
  lemma {:induction false} SuffixTableEntries(file: seq<byte>, ends: seq<nat>)
    requires CrOnlyInCrLf(file)
    requires IsLineEndingTable(file, ends)
    requires LineLength(file) < |file|
    ensures |ends| > 0 && ends[0] + 1 == NextLineStart(file)
    ensures forall i :: 1 <= i < |ends| ==> NextLineStart(file) <= ends[i]
    ensures IsLineEndingTable(AfterFirstLine(file), Rebase(ends[1..], NextLineStart(file)))
  {
    SuffixFirstEntry(file, ends);
    SuffixTableAt(file, ends, NextLineStart(file));
    AfterFirstLineIsSuffix(file);
  }

  /** The bytes after the first terminator of a file whose CRs stand in CR LF pairs
      keep that property, and the rest of the table, lowered, is their table. */
  lemma {:induction false} SuffixTable(file: seq<byte>, ends: seq<nat>)
    requires CrOnlyInCrLf(file)
    requires IsLineEndingTable(file, ends)
    requires LineLength(file) < |file|
    ensures |ends| > 0 && ends[0] + 1 == NextLineStart(file)
    ensures forall i :: 1 <= i < |ends| ==> NextLineStart(file) <= ends[i]
    ensures CrOnlyInCrLf(AfterFirstLine(file))
    ensures IsLineEndingTable(AfterFirstLine(file), Rebase(ends[1..], NextLineStart(file)))
  {
    SuffixTableEntries(file, ends);
    SuffixCrOnlyInCrLf(file);
  }

  /** The table of the bytes after the first terminator: the later entries, lowered. */
  function TailTable(file: seq<byte>, ends: seq<nat>): (tail: seq<nat>)
    requires CrOnlyInCrLf(file)
    requires IsLineEndingTable(file, ends)
    requires LineLength(file) < |file|
    ensures CrOnlyInCrLf(AfterFirstLine(file))
    ensures IsLineEndingTable(AfterFirstLine(file), tail)
  {
    SuffixTable(file, ends);
    Rebase(ends[1..], NextLineStart(file))
  }

  /** The induction step: line `index` of the file is line `index - 1` of the bytes
      after the first terminator, for both lookups. */
  lemma {:induction false} AgreementStep(file: seq<byte>, ends: seq<nat>, index: int)
    requires CrOnlyInCrLf(file)
    requires IsLineEndingTable(file, ends)
    requires LineLength(file) < |file|
    requires index >= 1
    ensures RandomAccessService.GetLineAtIndex(file, ends, index) ==
            RandomAccessService.GetLineAtIndex(AfterFirstLine(file), TailTable(file, ends), index - 1)
    ensures LinesService.GetLineAtIndex(file, index) ==
            LinesService.GetLineAtIndex(AfterFirstLine(file), index - 1)
  {
    var d := NextLineStart(file);
    SuffixTable(file, ends);
    assert AfterFirstLine(file) == file[d..];
    LookupAfterFirstLine(file, ends, d, TailTable(file, ends), index);
    ReferenceAfterFirstLine(file, index);
  }

  /** The cases that need no induction: an empty file, a file of one unterminated
      line, and any index that is not positive. */
  lemma AgreesWithoutInduction(file: seq<byte>, ends: seq<nat>, index: int)
    requires IsLineEndingTable(file, ends)
    requires |file| == 0 || LineLength(file) == |file| || index <= 0
    ensures RandomAccessService.GetLineAtIndex(file, ends, index) ==
            LinesService.GetLineAtIndex(file, index)
  {
    if |file| == 0 {
      RandomAccessService.EmptyFileAbsent(file, ends);
    } else if LineLength(file) == |file| {
      SingleLineFile(file, ends);
    } else if index == 0 {
      FirstLineAgrees(file, ends);
    }
  }

  /** The agreement, for any correct offset table, on files whose CRs all stand in
      CR LF pairs. */
  lemma {:induction false} AgreesForTable(file: seq<byte>, ends: seq<nat>, index: int)
    requires CrOnlyInCrLf(file)
    requires IsLineEndingTable(file, ends)
    ensures RandomAccessService.GetLineAtIndex(file, ends, index) ==
            LinesService.GetLineAtIndex(file, index)
    decreases |file|, 1
  {
    if |file| == 0 || LineLength(file) == |file| || index <= 0 {
      AgreesWithoutInduction(file, ends, index);
    } else {
      AgreesPastFirstLine(file, ends, index);
    }
  }

  /** The inductive case: a positive index into a file with a terminator, handed on
      to the bytes after the first terminator and their lowered table. */
  lemma {:induction false} AgreesPastFirstLine(file: seq<byte>, ends: seq<nat>, index: int)
    requires CrOnlyInCrLf(file)
    requires IsLineEndingTable(file, ends)
    requires LineLength(file) < |file| && index >= 1
    ensures RandomAccessService.GetLineAtIndex(file, ends, index) ==
            LinesService.GetLineAtIndex(file, index)
    decreases |file|, 0
  {
    AgreementStep(file, ends, index);
    AgreesForTable(AfterFirstLine(file), TailTable(file, ends), index - 1);
  }

  /** The main agreement: on a file whose CRs all stand in CR LF pairs (in particular
      a file without CR), looking up any integer index through the table the start-up
      scan builds gives the same optional line as skipping that many lines of the file. */
  lemma AgreesWithReference(file: seq<byte>, index: int)
    requires CrOnlyInCrLf(file)
    ensures RandomAccessService.GetLineAtIndex(file, LineEndings(file), index) ==
            LinesService.GetLineAtIndex(file, index)
  {
    LineEndingsIsTable(file);
    AgreesForTable(file, LineEndings(file), index);
  }

  /** The interface promise for the indexed service: on a file whose CRs all stand in
      CR LF pairs, a line is absent exactly when the file has no line at that index. */
  lemma AbsentExactlyWhenNoLine(file: seq<byte>, index: int)
    requires CrOnlyInCrLf(file)
    ensures RandomAccessService.GetLineAtIndex(file, LineEndings(file), index).None? <==>
            index < 0 || index >= |Lines(file)|
  {
    AgreesWithReference(file, index);
  }

  /** The index one past the table's lines is absent from the indexed lookup. */
  lemma IndexedCountAbsent(file: seq<byte>)
    ensures var c := |LineEndings(file)| + (if |file| > 0 && file[|file| - 1] != LF then 1 else 0);
            RandomAccessService.GetLineAtIndex(file, LineEndings(file), c).None?
  {
    var ends := LineEndings(file);
    LineEndingsIsTable(file);
    if |file| == 0 {
      RandomAccessService.EmptyFileAbsent(file, ends);
    } else if file[|file| - 1] == LF {
      RandomAccessService.LastIndexAfterFinalNewline(file, ends);
    }
  }

  /** The last of the table's lines is present in the indexed lookup. */
  lemma IndexedLastPresent(file: seq<byte>)
    ensures var c := |LineEndings(file)| + (if |file| > 0 && file[|file| - 1] != LF then 1 else 0);
            c > 0 ==> RandomAccessService.GetLineAtIndex(file, LineEndings(file), c - 1).Some?
  {
    var ends := LineEndings(file);
    LineEndingsIsTable(file);
    if |file| > 0 {
      if file[|file| - 1] == LF {
        HeadIsMember(ends);
        RandomAccessService.PresentBelowTableSize(file, ends, |ends| - 1);
      } else {
        RandomAccessService.LastIndexTrailingFragment(file, ends);
      }
    }
  }

  /** The streamed lines number no more than the table's lines. */
  lemma LineCountAtMost(file: seq<byte>)
    requires CrOnlyInCrLf(file)
    ensures |Lines(file)| <=
            |LineEndings(file)| + (if |file| > 0 && file[|file| - 1] != LF then 1 else 0)
  {
    IndexedCountAbsent(file);
    AgreesWithReference(file, |LineEndings(file)| + (if |file| > 0 && file[|file| - 1] != LF then 1 else 0));
  }

  /** The streamed lines number at least the table's lines. */
  lemma LineCountAtLeast(file: seq<byte>)
    requires CrOnlyInCrLf(file)
    ensures |Lines(file)| >=
            |LineEndings(file)| + (if |file| > 0 && file[|file| - 1] != LF then 1 else 0)
  {
    var c := |LineEndings(file)| + (if |file| > 0 && file[|file| - 1] != LF then 1 else 0);
    if c > 0 {
      IndexedLastPresent(file);
      AgreesWithReference(file, c - 1);
      assert LinesService.GetLineAtIndex(file, c - 1).Some?;
    }
  }

  /** Number of lines a file has when its CRs all stand in CR LF pairs: one per LF,
      plus a trailing fragment when the file is non-empty and does not end with LF. */
  lemma LineCount(file: seq<byte>)
    requires CrOnlyInCrLf(file)
    ensures |Lines(file)| ==
            |LineEndings(file)| + (if |file| > 0 && file[|file| - 1] != LF then 1 else 0)
  {
    LineCountAtMost(file);
    LineCountAtLeast(file);
  }

  /** The service test's file shape: four LF-terminated lines. The first, third and
      last lines come back verbatim; index 4, -1 and the extreme 32-bit values are
      absent. */
  lemma FourLineFile(l0: seq<byte>, l1: seq<byte>, l2: seq<byte>, l3: seq<byte>)
    requires IsLine(l0) && IsLine(l1) && IsLine(l2) && IsLine(l3)
    ensures var file := Unlines([l0, l1, l2, l3]);
            var ends := LineEndings(file);
            && |ends| == 4
            && RandomAccessService.GetLineAtIndex(file, ends, 0) == Some(l0)
            && RandomAccessService.GetLineAtIndex(file, ends, 2) == Some(l2)
            && RandomAccessService.GetLineAtIndex(file, ends, 3) == Some(l3)
            && RandomAccessService.GetLineAtIndex(file, ends, 4) == None
            && RandomAccessService.GetLineAtIndex(file, ends, -1) == None
            && RandomAccessService.GetLineAtIndex(file, ends, 0x7fff_ffff) == None
            && RandomAccessService.GetLineAtIndex(file, ends, -0x8000_0000) == None
  {
    var ls := [l0, l1, l2, l3];
    var file := Unlines(ls);
    UnlinesHasNoCarriageReturn(ls);
    NoCarriageReturnIsCrOnlyInCrLf(file);
    LinesOfUnlines(ls);
    assert Lines(file) == ls;
    LineCount(file);
    UnlinesEndsWithNewline(ls);
    AgreesWithReference(file, 0);
    AgreesWithReference(file, 2);
    AgreesWithReference(file, 3);
    AgreesWithReference(file, 4);
  }

  /** A one-line file with no terminator: line 0 is the whole file, line 1 is absent. */
  lemma UnterminatedSingleLine(line: seq<byte>)
    requires |line| > 0 && IsLine(line)
    ensures LineEndings(line) == []
    ensures RandomAccessService.GetLineAtIndex(line, [], 0) == Some(line)
    ensures RandomAccessService.GetLineAtIndex(line, [], 1) == None
  {
    LineEndingsIsTable(line);
    LineLengthUnique(line, |line|);
    SingleLineFile(line, LineEndings(line));
  }

  /** The file `a CR b LF` has its only LF at position 3. */
  lemma LoneCarriageReturnTable()
    ensures LineEndings([97, CR, 98, LF]) == [3]
  {
    var file: seq<byte> := [97, CR, 98, LF];
    assert IsLineEndingTable(file, [3]);
    TableIsLineEndings(file, [3]);
  }

  /** The file `a CR b LF` streams as the two lines `a` and `b`. */
  lemma LoneCarriageReturnLines()
    ensures Lines([97, CR, 98, LF]) == [[97], [98]]
  {
    LinesSplitAtCr([97], [98, LF]);
    assert [97, CR, 98, LF] == [97] + [CR] + [98, LF];
    LinesSplitAtLf([98], []);
    assert [98, LF] == [98] + [LF] + [];
  }

  /** A CR followed by something other than LF splits the streamed lines but not the
      offset table, so the services disagree: on "a\rb\n" line 1 is "b" for the
      streaming service and absent for the indexed one. */
  lemma LoneCarriageReturnDisagrees()
    ensures var file: seq<byte> := [97, CR, 98, LF];
            && RandomAccessService.GetLineAtIndex(file, LineEndings(file), 1) == None
            && LinesService.GetLineAtIndex(file, 1) == Some([98])
  {
    LoneCarriageReturnTable();
    LoneCarriageReturnLines();
  }

  /** The file `a CR` has no LF. */
  lemma FinalCarriageReturnTable()
    ensures LineEndings([97, CR]) == []
  {
    var file: seq<byte> := [97, CR];
    assert IsLineEndingTable(file, []);
    TableIsLineEndings(file, []);
  }

  /** The file `a CR` streams as the single line `a`. */
  lemma FinalCarriageReturnLines()
    ensures Lines([97, CR]) == [[97]]
  {
    LinesSplitAtCr([97], []);
    assert [97, CR] == [97] + [CR] + [];
  }

  /** Reading `a CR` from its start stops at the CR. */
  lemma FinalCarriageReturnRead()
    ensures RandomAccessService.ReadLineFrom([97, CR], 0) == Some([97])
  {
    var file: seq<byte> := [97, CR];
    LineLengthUnique(file, 1);
    assert file[0..] == file && file[..1] == [97];
  }

  /** A CR as the very last byte is harmless: both services end the line there and
      neither has a line after it. */
  lemma FinalCarriageReturnAgrees(index: int)
    ensures var file: seq<byte> := [97, CR];
            && RandomAccessService.GetLineAtIndex(file, LineEndings(file), index) ==
               LinesService.GetLineAtIndex(file, index)
            && (LinesService.GetLineAtIndex(file, index).Some? <==> index == 0)
  {
    FinalCarriageReturnTable();
    FinalCarriageReturnLines();
    FinalCarriageReturnRead();
  }
}
