/** The random-access service: the offset table gives the position just after the
    LF that precedes the wanted line, and one line is read from there. */
module RandomAccessService {
  import opened Bytes
  import opened Optional
  import opened LineIndex

  /** `RandomAccessFile.readLine` after a seek to `p`: absent at or past the end of
      the file, otherwise the bytes up to (not including) the next LF or CR, or up
      to the end of the file. */
  function ReadLineFrom(file: seq<byte>, p: nat): (r: Option<seq<byte>>)
    ensures r.None? <==> p >= |file|
    ensures r.Some? ==> p + |r.value| <= |file| && r.value == file[p..p + |r.value|]
    ensures r.Some? ==> IsLine(r.value)
    ensures r.Some? && p + |r.value| < |file| ==> IsTerminator(file[p + |r.value|])
  {
    if p >= |file| then None
    else
      var rest := file[p..];
      var n := LineLength(rest);
      PrefixIsLine(rest, n);
      assert rest[..n] == file[p..p + n];
      Some(rest[..n])
  }

  /** Where line `index` begins: 0 for the first line, otherwise one past the LF
      recorded for the line before it. */
  function StartPosition(ends: seq<nat>, index: nat): nat
    requires index <= |ends|
  {
    if index == 0 then 0 else ends[index - 1] + 1
  }

  /** The lookup. Indexes outside 0..|ends| are absent without reading the file. */
  function GetLineAtIndex(file: seq<byte>, ends: seq<nat>, index: int): (r: Option<seq<byte>>)
    ensures r.Some? <==> 0 <= index <= |ends| && StartPosition(ends, index) < |file|
    ensures r.Some? ==> IsLine(r.value)
  {
    if index < 0 || index > |ends| then None
    else ReadLineFrom(file, StartPosition(ends, index))
  }

  /** With a correct table, the start position of line `index` lies just after the
      `index`-th LF: every earlier LF is before it, every later one at or after it. */
  lemma StartIsLineStart(file: seq<byte>, ends: seq<nat>, index: nat)
    requires IsLineEndingTable(file, ends)
    requires index <= |ends|
    ensures StartPosition(ends, index) <= |file|
    ensures StartPosition(ends, index) == 0 || file[StartPosition(ends, index) - 1] == LF
    ensures forall j :: 0 <= j < index ==> ends[j] < StartPosition(ends, index)
    ensures forall j :: index <= j < |ends| ==> StartPosition(ends, index) <= ends[j]
  {
  }

  /** A line before the last recorded LF is present, and on a file without CR it is
      exactly the bytes between the surrounding LFs. */
  lemma PresentBelowTableSize(file: seq<byte>, ends: seq<nat>, index: nat)
    requires IsLineEndingTable(file, ends)
    requires index < |ends|
    ensures GetLineAtIndex(file, ends, index).Some?
    ensures NoCarriageReturn(file) ==>
              GetLineAtIndex(file, ends, index).value ==
              file[StartPosition(ends, index)..ends[index]]
  {
    var start := StartPosition(ends, index);
    StartIsLineStart(file, ends, index);
    assert start <= ends[index] < |file|;
    if NoCarriageReturn(file) {
      var r := GetLineAtIndex(file, ends, index).value;
      var e := start + |r|;
      // the next LF at or after `start` is the one recorded at `index`
      forall p | start <= p < ends[index] ensures file[p] != LF {
        assert file[p] == LF ==> p in ends;
      }
      assert e == ends[index];
    }
  }

  /** An existing empty line is present as the empty text, not absent. */
  lemma EmptyLineIsPresent(file: seq<byte>, ends: seq<nat>, index: nat)
    requires index <= |ends|
    requires StartPosition(ends, index) < |file|
    requires file[StartPosition(ends, index)] == LF
    ensures GetLineAtIndex(file, ends, index) == Some([])
  {
  }

  /** When the file ends with LF, the index one past the last LF is absent. */
  lemma LastIndexAfterFinalNewline(file: seq<byte>, ends: seq<nat>)
    requires IsLineEndingTable(file, ends)
    requires |file| > 0 && file[|file| - 1] == LF
    ensures GetLineAtIndex(file, ends, |ends|).None?
  {
    var j :| 0 <= j < |ends| && ends[j] == |file| - 1;
    assert ends[|ends| - 1] >= ends[j];
  }

  /** When a non-empty file does not end with LF, the index one past the last LF is
      the trailing fragment; without CR in it, the fragment is returned whole. */
  lemma LastIndexTrailingFragment(file: seq<byte>, ends: seq<nat>)
    requires IsLineEndingTable(file, ends)
    requires |file| > 0 && file[|file| - 1] != LF
    ensures GetLineAtIndex(file, ends, |ends|).Some?
    ensures NoCarriageReturn(file[StartPosition(ends, |ends|)..]) ==>
              GetLineAtIndex(file, ends, |ends|).value == file[StartPosition(ends, |ends|)..]
  {
    var start := StartPosition(ends, |ends|);
    StartIsLineStart(file, ends, |ends|);
    assert start < |file|;
    var frag := file[start..];
    if NoCarriageReturn(frag) {
      forall k | 0 <= k < |frag| ensures !IsTerminator(frag[k]) {
        assert frag[k] == file[start + k];
        assert file[start + k] == LF ==> start + k in ends;
      }
      LineLengthUnique(frag, |frag|);
    }
  }

  /** An empty file has an empty table and every index is absent. */
  lemma EmptyFileAbsent(file: seq<byte>, ends: seq<nat>)
    requires IsLineEndingTable(file, ends)
    requires |file| == 0
    ensures ends == []
    ensures forall index :: GetLineAtIndex(file, ends, index).None?
  {
    HeadIsMember(ends);
  }
}
