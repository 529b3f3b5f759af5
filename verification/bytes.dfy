/** Bytes of the served file and the line terminators the two services recognise.
    The file is decoded as ISO-8859-1, so one byte is one character and a byte
    offset is a character offset. */
module Bytes {

  newtype byte = x: int | 0 <= x < 256

  /** '\n' */
  const LF: byte := 10
  /** '\r' */
  const CR: byte := 13

  predicate IsTerminator(b: byte) {
    b == LF || b == CR
  }

  /** A line's content: no terminator byte anywhere in it. */
  predicate IsLine(s: seq<byte>) {
    forall j :: 0 <= j < |s| ==> !IsTerminator(s[j])
  }

  predicate NoCarriageReturn(s: seq<byte>) {
    forall j :: 0 <= j < |s| ==> s[j] != CR
  }

  /** Every CR is the first half of a CR LF pair: the last byte is not CR, and the
      byte after any other CR is LF. (Stated over pairs of positions, so that no
      instance mentions a position the proof did not already have.) */
  predicate CrOnlyInCrLf(s: seq<byte>) {
    && (|s| > 0 ==> s[|s| - 1] != CR)
    && forall j, k :: 0 <= j < |s| && 0 <= k < |s| && k == j + 1 && s[j] == CR ==> s[k] == LF
  }

  /** Position of the first LF or CR at or after `i`, or |s| when there is none. */
  function LineEnd(s: seq<byte>, i: nat): (e: nat)
    requires i <= |s|
    ensures i <= e <= |s|
    ensures forall j :: i <= j < e ==> !IsTerminator(s[j])
    ensures e < |s| ==> IsTerminator(s[e])
    decreases |s| - i
  {
    if i == |s| || IsTerminator(s[i]) then i else LineEnd(s, i + 1)
  }

  /** Length of the longest terminator-free prefix of `s`: the position of the
      first LF or CR, or |s| when there is none. */
  function LineLength(s: seq<byte>): (n: nat)
    ensures n <= |s|
    ensures forall j :: 0 <= j < n ==> !IsTerminator(s[j])
    ensures n < |s| ==> IsTerminator(s[n])
  {
    LineEnd(s, 0)
  }

  lemma {:induction false} LineEndUnique(s: seq<byte>, i: nat, n: nat)
    requires i <= n <= |s|
    requires forall j :: i <= j < n ==> !IsTerminator(s[j])
    requires n < |s| ==> IsTerminator(s[n])
    ensures LineEnd(s, i) == n
    decreases n - i
  {
    if i < n {
      LineEndUnique(s, i + 1, n);
    }
  }

  /** Any prefix length with no terminator before it and a terminator (or the end)
      at it is the one LineLength finds. */
  lemma LineLengthUnique(s: seq<byte>, n: nat)
    requires n <= |s|
    requires forall j :: 0 <= j < n ==> !IsTerminator(s[j])
    requires n < |s| ==> IsTerminator(s[n])
    ensures LineLength(s) == n
  {
    LineEndUnique(s, 0, n);
  }

  /** The terminator-free prefix that LineLength measures is a line. */
  lemma PrefixIsLine(s: seq<byte>, n: nat)
    requires n <= |s|
    requires forall j :: 0 <= j < n ==> !IsTerminator(s[j])
    ensures IsLine(s[..n])
  {
    forall j | 0 <= j < n ensures !IsTerminator(s[..n][j]) {
      assert s[..n][j] == s[j];
    }
  }
}

/** Java's Optional, as a datatype. */
module Optional {

  datatype Option<+T> = None | Some(value: T)
}
