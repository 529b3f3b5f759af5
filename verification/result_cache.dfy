/** The memoising layer in front of a lookup. The bounded, least-recently-used map
    belongs to a caching library and is not modelled; what is modelled is the
    property the service relies on: a cache whose entries all came from the lookup
    is transparent, whatever entries it has kept or dropped. */
module ResultCache {
  import opened Bytes
  import opened Optional
  import LineIndex
  import RandomAccessService
  import LinesService
  import Agreement

  /** Every stored entry is what the lookup gives for its key. */
  ghost predicate Faithful<V>(lookup: int -> V, cache: map<int, V>) {
    forall i :: i in cache ==> cache[i] == lookup(i)
  }

  /** Cache-aside get: a hit returns the stored entry, a miss calls the lookup and
      stores its result, absent results included. */
  function Get<V>(lookup: int -> V, cache: map<int, V>, index: int): (r: (V, map<int, V>))
    requires Faithful(lookup, cache)
    ensures r.0 == lookup(index)
    ensures Faithful(lookup, r.1)
    ensures r.1.Keys == cache.Keys + {index}
    ensures forall i :: i in cache ==> r.1[i] == cache[i]
  {
    if index in cache then (cache[index], cache)
    else (lookup(index), cache[index := lookup(index)])
  }

  /** Dropping entries, as the size bound does; the choice of victims is the
      library's. What is left is still faithful. */
  function Evict<V>(lookup: int -> V, cache: map<int, V>, victims: set<int>): (r: map<int, V>)
    requires Faithful(lookup, cache)
    ensures r.Keys == cache.Keys - victims
    ensures Faithful(lookup, r)
  {
    map i | i in cache && i !in victims :: cache[i]
  }

  /** Asking twice in a row: the second call is a hit, changes nothing and returns
      what the first one returned. */
  lemma GetTwice<V>(lookup: int -> V, cache: map<int, V>, index: int)
    requires Faithful(lookup, cache)
    ensures var (first, cache1) := Get(lookup, cache, index);
            var (second, cache2) := Get(lookup, cache1, index);
            second == first && cache2 == cache1 && index in cache1
  {
  }

  /** The cached indexed service answers like the straightforward one, from any
      faithful cache state, on a file whose CRs all stand in CR LF pairs. */
  lemma CachedLookupAgrees(file: seq<byte>, cache: map<int, Option<seq<byte>>>, index: int)
    requires CrOnlyInCrLf(file)
    requires Faithful(i => RandomAccessService.GetLineAtIndex(file, LineIndex.LineEndings(file), i), cache)
    ensures Get(i => RandomAccessService.GetLineAtIndex(file, LineIndex.LineEndings(file), i),
                cache, index).0 ==
            LinesService.GetLineAtIndex(file, index)
  {
    Agreement.AgreesWithReference(file, index);
  }
}
