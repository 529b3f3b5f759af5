/** The line-offset index built once at start-up: the byte position of every LF
    in the file, in file order. CR is not a terminator for the index. */
module LineIndex {
  import opened Bytes

  predicate Increasing(s: seq<nat>) {
    forall i, j :: 0 <= i < j < |s| ==> s[i] < s[j]
  }

  /** `ends` holds exactly the LF positions below `n`, in increasing order. */
  predicate IsLineEndingTableUpTo(file: seq<byte>, n: nat, ends: seq<nat>)
    requires n <= |file|
  {
    && Increasing(ends)
    && (forall i :: 0 <= i < |ends| ==> ends[i] < n && file[ends[i]] == LF)
    && (forall p :: 0 <= p < n && file[p] == LF ==> p in ends)
  }

  /** `ends` is the offset table of the whole file. */
  predicate IsLineEndingTable(file: seq<byte>, ends: seq<nat>) {
    IsLineEndingTableUpTo(file, |file|, ends)
  }

  /** Functional reference for the scan: the LF positions of `file[..n]`. */
  function LineEndingsUpTo(file: seq<byte>, n: nat): seq<nat>
    requires n <= |file|
  {
    if n == 0 then []
    else LineEndingsUpTo(file, n - 1) + (if file[n - 1] == LF then [n - 1] else [])
  }

  function LineEndings(file: seq<byte>): seq<nat> {
    LineEndingsUpTo(file, |file|)
  }

  /** Scanning one more byte that is an LF appends its position to the table. */
  lemma TableUpToNextLf(file: seq<byte>, n: nat, prev: seq<nat>)
    requires 0 < n <= |file| && file[n - 1] == LF
    requires IsLineEndingTableUpTo(file, n - 1, prev)
    ensures IsLineEndingTableUpTo(file, n, prev + [n - 1])
  {
    var ends := prev + [n - 1];
    assert ends[|prev|] == n - 1;
    forall i | 0 <= i < |ends| ensures ends[i] < n && file[ends[i]] == LF {
      if i < |prev| {
        assert ends[i] == prev[i];
      }
    }
    forall p | 0 <= p < n && file[p] == LF ensures p in ends {
      if p < n - 1 {
        assert p in prev;
      }
    }
  }

  /** Scanning one more byte that is not an LF leaves the table as it was. */
  lemma TableUpToNextOther(file: seq<byte>, n: nat, prev: seq<nat>)
    requires 0 < n <= |file| && file[n - 1] != LF
    requires IsLineEndingTableUpTo(file, n - 1, prev)
    ensures IsLineEndingTableUpTo(file, n, prev)
  {
  }

  /** The functional reference meets the table characterisation. */
  lemma {:induction false} LineEndingsUpToIsTable(file: seq<byte>, n: nat)
    requires n <= |file|
    ensures IsLineEndingTableUpTo(file, n, LineEndingsUpTo(file, n))
  {
    if n > 0 {
      LineEndingsUpToIsTable(file, n - 1);
      if file[n - 1] == LF {
        TableUpToNextLf(file, n, LineEndingsUpTo(file, n - 1));
      } else {
        TableUpToNextOther(file, n, LineEndingsUpTo(file, n - 1));
      }
    }
  }

  lemma LineEndingsIsTable(file: seq<byte>)
    ensures IsLineEndingTable(file, LineEndings(file))
  {
    LineEndingsUpToIsTable(file, |file|);
  }

  lemma HeadIsMember(s: seq<nat>)
    ensures |s| > 0 ==> s[0] in s
  {
  }

  /** Two increasing sequences with the same elements start with the same element. */
  lemma SameHead(a: seq<nat>, b: seq<nat>)
    requires Increasing(a) && Increasing(b)
    requires forall x :: x in a <==> x in b
    requires |a| > 0
    ensures |b| > 0 && a[0] == b[0]
  {
    assert a[0] in b;
    assert b[0] in a;
  }

  /** Past a shared first element, what one increasing sequence holds the other
      holds too. */
  lemma TailIncluded(a: seq<nat>, b: seq<nat>)
    requires Increasing(a)
    requires forall x :: x in a ==> x in b
    requires |a| > 0 && |b| > 0 && a[0] == b[0]
    ensures forall x :: x in a[1..] ==> x in b[1..]
  {
    forall x | x in a[1..] ensures x in b[1..] {
      var i :| 1 <= i < |a| && a[i] == x;
      assert x in b;
      var j :| 0 <= j < |b| && b[j] == x;
      assert b[1..][j - 1] == x;
    }
  }

  lemma IncreasingTail(a: seq<nat>)
    requires Increasing(a) && |a| > 0
    ensures Increasing(a[1..])
  {
    forall i, j | 0 <= i < j < |a| - 1 ensures a[1..][i] < a[1..][j] {
      assert a[i + 1] < a[j + 1];
    }
  }

  /** Two increasing sequences with the same elements are equal. */
  lemma {:induction false} IncreasingUnique(a: seq<nat>, b: seq<nat>)
    requires Increasing(a) && Increasing(b)
    requires forall x :: x in a <==> x in b
    ensures a == b
  {
    if |a| == 0 {
      HeadIsMember(b);
    } else {
      SameHead(a, b);
      TailIncluded(a, b);
      TailIncluded(b, a);
      IncreasingTail(a);
      IncreasingTail(b);
      IncreasingUnique(a[1..], b[1..]);
      assert a == [a[0]] + a[1..];
      assert b == [b[0]] + b[1..];
    }
  }

  /** The table of a file is unique, so every table is the functional one. */
  lemma TableIsLineEndings(file: seq<byte>, ends: seq<nat>)
    requires IsLineEndingTable(file, ends)
    ensures ends == LineEndings(file)
  {
    LineEndingsIsTable(file);
    IncreasingUnique(ends, LineEndings(file));
  }

  /** The start-up scan: reads the file once, left to right, recording the position
      of every LF. */
  method LoadFileLineEndings(file: seq<byte>) returns (ends: seq<nat>)
    ensures IsLineEndingTable(file, ends)
    ensures ends == LineEndings(file)
  {
    ends := [];
    var bytePosition: nat := 0;
    while bytePosition < |file|
      invariant bytePosition <= |file|
      invariant IsLineEndingTableUpTo(file, bytePosition, ends)
    {
      if file[bytePosition] == LF {
        ends := ends + [bytePosition];
      }
      bytePosition := bytePosition + 1;
    }
    TableIsLineEndings(file, ends);
  }
}
