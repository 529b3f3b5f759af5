/** Splitting a file into lines the way Java's buffered readers do (and therefore
    the way `Files.lines` does): a line ends at LF, at CR, or at the pair CR LF,
    and a terminator at the very end of the file does not start an empty last line. */
module LineSplitting {
  import opened Bytes

  /** Number of bytes the terminator at `s[n]` occupies: two for CR LF, else one. */
  function TerminatorWidth(s: seq<byte>, n: nat): (w: nat)
    requires n < |s| && IsTerminator(s[n])
    ensures n + w <= |s|
    ensures w == 2 <==> s[n] == CR && n + 1 < |s| && s[n + 1] == LF
  {
    if s[n] == CR && n + 1 < |s| && s[n + 1] == LF then 2 else 1
  }

  /** Where the second line starts: after the first terminator, one or two bytes. */
  function NextLineStart(file: seq<byte>): (d: nat)
    requires LineLength(file) < |file|
    ensures LineLength(file) < d <= |file|
  {
    LineLength(file) + TerminatorWidth(file, LineLength(file))
  }

  /** The bytes after the first terminator. */
  function AfterFirstLine(file: seq<byte>): (rest: seq<byte>)
    requires LineLength(file) < |file|
    ensures |rest| < |file|
  {
    file[NextLineStart(file)..]
  }

  /** The lines of `file`, terminators removed. */
  function Lines(file: seq<byte>): (ls: seq<seq<byte>>)
    ensures |ls| == 0 <==> |file| == 0
    ensures forall i :: 0 <= i < |ls| ==> IsLine(ls[i])
    ensures |ls| <= |file|
    decreases |file|
  {
    if |file| == 0 then []
    else if LineLength(file) == |file| then
      PrefixIsLine(file, |file|);
      assert file[..|file|] == file;
      [file]
    else
      PrefixIsLine(file, LineLength(file));
      [file[..LineLength(file)]] + Lines(AfterFirstLine(file))
  }

  /** The inverse direction: every line followed by one LF. */
  function Unlines(ls: seq<seq<byte>>): seq<byte>
  {
    if |ls| == 0 then [] else ls[0] + [LF] + Unlines(ls[1..])
  }

  lemma {:induction false} UnlinesEndsWithNewline(ls: seq<seq<byte>>)
    requires |ls| > 0
    ensures |Unlines(ls)| > 0 && Unlines(ls)[|Unlines(ls)| - 1] == LF
  {
    if |ls| > 1 {
      UnlinesEndsWithNewline(ls[1..]);
    }
  }

  /** The first line ends at the first terminator; the next line starts after the
      one or two bytes that terminator takes. */
  lemma LinesFirstTerminator(file: seq<byte>)
    requires LineLength(file) < |file|
    ensures Lines(file) == [file[..LineLength(file)]] + Lines(AfterFirstLine(file))
  {
  }

  /** An LF terminator is one byte wide. */
  lemma AfterFirstLineAtLf(file: seq<byte>)
    requires LineLength(file) < |file|
    requires file[LineLength(file)] == LF
    ensures AfterFirstLine(file) == file[LineLength(file) + 1..]
  {
  }

  /** When the first terminator is an LF, the first line and the rest are separated by it. */
  lemma LinesFirstSplit(file: seq<byte>)
    requires LineLength(file) < |file|
    requires file[LineLength(file)] == LF
    ensures Lines(file) == [file[..LineLength(file)]] + Lines(file[LineLength(file) + 1..])
  {
    AfterFirstLineAtLf(file);
    LinesFirstTerminator(file);
  }

  /** A line followed by one or two terminator bytes and more text: the line is the
      first element and splitting resumes after the terminator. */
  lemma {:induction false} LinesAfterLine(l: seq<byte>, t: seq<byte>, rest: seq<byte>)
    requires IsLine(l)
    requires |t| > 0 && IsTerminator(t[0])
    requires TerminatorWidth(t + rest, 0) == |t|
    ensures Lines(l + t + rest) == [l] + Lines(rest)
  {
    var file := l + t + rest;
    var n := |l|;
    assert file[n] == t[0];
    forall j | 0 <= j < n ensures !IsTerminator(file[j]) {
      assert file[j] == l[j];
    }
    LineLengthUnique(file, n);
    LinesFirstTerminator(file);
    assert file[..n] == l;
    assert TerminatorWidth(file, n) == TerminatorWidth(t + rest, 0) by {
      assert (t + rest)[0] == file[n];
      assert |t + rest| > 1 ==> (t + rest)[1] == file[n + 1];
    }
    assert file[n + |t|..] == rest;
  }

  /** A line, LF, more text: LF ends the line. */
  lemma {:induction false} LinesSplitAtLf(l: seq<byte>, rest: seq<byte>)
    requires IsLine(l)
    ensures Lines(l + [LF] + rest) == [l] + Lines(rest)
  {
    LinesAfterLine(l, [LF], rest);
  }

  /** A line, CR LF, more text: the pair ends the line as one terminator. */
  lemma {:induction false} LinesSplitAtCrLf(l: seq<byte>, rest: seq<byte>)
    requires IsLine(l)
    ensures Lines(l + [CR, LF] + rest) == [l] + Lines(rest)
  {
    assert ([CR, LF] + rest)[1] == LF;
    LinesAfterLine(l, [CR, LF], rest);
  }

  /** A line, CR, then text not starting with LF: the CR alone ends the line. */
  lemma {:induction false} LinesSplitAtCr(l: seq<byte>, rest: seq<byte>)
    requires IsLine(l)
    requires |rest| == 0 || rest[0] != LF
    ensures Lines(l + [CR] + rest) == [l] + Lines(rest)
  {
    assert |rest| > 0 ==> ([CR] + rest)[1] == rest[0];
    LinesAfterLine(l, [CR], rest);
  }

  lemma {:induction false} UnlinesHasNoCarriageReturn(ls: seq<seq<byte>>)
    requires forall i :: 0 <= i < |ls| ==> IsLine(ls[i])
    ensures NoCarriageReturn(Unlines(ls))
  {
    if |ls| > 0 {
      UnlinesHasNoCarriageReturn(ls[1..]);
      var rest := Unlines(ls[1..]);
      assert Unlines(ls) == ls[0] + [LF] + rest;
      forall j | 0 <= j < |Unlines(ls)|
        ensures Unlines(ls)[j] != CR
      {
        if j < |ls[0]| {
          assert Unlines(ls)[j] == ls[0][j];
        } else if j > |ls[0]| {
          assert Unlines(ls)[j] == rest[j - |ls[0]| - 1];
        }
      }
    }
  }

  lemma SplitAround(s: seq<byte>, n: nat)
    requires n < |s|
    ensures s == s[..n] + [s[n]] + s[n + 1..]
  {
  }

  /** Round trip: splitting LF-joined lines gives the lines back. */
  lemma {:induction false} LinesOfUnlines(ls: seq<seq<byte>>)
    requires forall i :: 0 <= i < |ls| ==> IsLine(ls[i])
    ensures Lines(Unlines(ls)) == ls
  {
    if |ls| > 0 {
      LinesSplitAtLf(ls[0], Unlines(ls[1..]));
      LinesOfUnlines(ls[1..]);
      assert ls == [ls[0]] + ls[1..];
    }
  }

  lemma NoCarriageReturnSuffix(s: seq<byte>, k: nat)
    requires k <= |s|
    requires NoCarriageReturn(s)
    ensures NoCarriageReturn(s[k..])
  {
    forall j | 0 <= j < |s| - k ensures s[k..][j] != CR {
      assert s[k..][j] == s[k + j];
    }
  }

  /** A terminator-free file is a single line, and joining it appends one LF. */
  lemma UnlinesOfSingleLine(file: seq<byte>)
    requires |file| > 0 && LineLength(file) == |file|
    ensures file[|file| - 1] != LF
    ensures Unlines(Lines(file)) == file + [LF]
  {
    assert Lines(file) == [file];
    assert Unlines([file]) == file + [LF] + Unlines([]);
  }

  /** Joining the lines of a file whose first terminator is LF: first line, LF,
      then the joined lines of the remainder. */
  lemma UnlinesAfterFirstLine(file: seq<byte>)
    requires LineLength(file) < |file|
    requires file[LineLength(file)] == LF
    ensures Unlines(Lines(file)) ==
            file[..LineLength(file)] + [LF] + Unlines(Lines(file[LineLength(file) + 1..]))
  {
    LinesFirstSplit(file);
    var ls := Lines(file);
    assert ls[0] == file[..LineLength(file)];
    assert ls[1..] == Lines(file[LineLength(file) + 1..]);
  }

  /** Prefixing a line and an LF keeps "ends in LF, else one LF appended". */
  lemma ClosedJoin(first: seq<byte>, rest: seq<byte>)
    ensures var whole := first + [LF] + rest;
            first + [LF] + (if |rest| == 0 || rest[|rest| - 1] == LF then rest else rest + [LF])
            == (if whole[|whole| - 1] == LF then whole else whole + [LF])
  {
    var whole := first + [LF] + rest;
    if |rest| > 0 {
      assert whole[|whole| - 1] == rest[|rest| - 1];
      assert whole + [LF] == first + [LF] + (rest + [LF]);
    }
  }

  /** Round trip the other way: on a file without CR, joining its lines gives the
      file back, with one LF added when the file did not end in one. */
  lemma {:induction false} UnlinesOfLines(file: seq<byte>)
    requires NoCarriageReturn(file)
    ensures Unlines(Lines(file)) ==
            if |file| == 0 || file[|file| - 1] == LF then file else file + [LF]
  {
    if |file| > 0 {
      var n := LineLength(file);
      if n == |file| {
        UnlinesOfSingleLine(file);
      } else {
        var rest := file[n + 1..];
        assert file[n] != CR;
        NoCarriageReturnSuffix(file, n + 1);
        UnlinesOfLines(rest);
        UnlinesAfterFirstLine(file);
        SplitAround(file, n);
        ClosedJoin(file[..n], rest);
      }
    }
  }
}
