/** The straightforward service: stream the file's lines, skip `index` of them and
    take the first one left. */
module LinesService {
  import opened Bytes
  import opened Optional
  import opened LineSplitting

  /** Stream `skip(n)`: drop the first n elements, or all of them. */
  function Skip<T>(s: seq<T>, n: nat): (r: seq<T>)
    ensures |r| == if n <= |s| then |s| - n else 0
    ensures forall i :: 0 <= i < |r| ==> r[i] == s[n + i]
  {
    if n <= |s| then s[n..] else []
  }

  /** Stream `findFirst()`. */
  function FindFirst<T>(s: seq<T>): (r: Option<T>)
    ensures r.None? <==> |s| == 0
    ensures r.Some? ==> r.value == s[0]
  {
    if |s| == 0 then None else Some(s[0])
  }

  /** The line at zero-based `index`, absent for a negative index or one past the
      last line. */
  function GetLineAtIndex(file: seq<byte>, index: int): (r: Option<seq<byte>>)
    ensures r.Some? <==> 0 <= index < |Lines(file)|
    ensures r.Some? ==> r.value == Lines(file)[index]
    ensures r.Some? ==> IsLine(r.value)
  {
    if index < 0 then None
    else FindFirst(Skip(Lines(file), index))
  }
}
