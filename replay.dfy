/**
 * The broker's replay cache, `std::map<long, std::string> cache_`: every
 * published message stored under a sequence number, starting at 1, and never
 * removed or overwritten.
 */
module ReplayCache {

  type Cache = map<int, string>

  /** The keys are exactly 1..|c|. */
  ghost predicate Contiguous(c: Cache) {
    forall k :: k in c <==> 1 <= k <= |c|
  }

  /** `cache_[cache_.size() + 1] = msg`. */
  function Append(c: Cache, m: string): (r: Cache)
    requires Contiguous(c)
    ensures Contiguous(r) && |r| == |c| + 1
    ensures |c| + 1 in r && r[|c| + 1] == m
    ensures forall k :: k in c ==> k in r && r[k] == c[k]
  {
    var r := c[|c| + 1 := m];
    assert |c| + 1 !in c;
    assert |r| == |c| + 1;
    assert forall k :: k in r <==> k in c || k == |c| + 1;
    r
  }

  /** The stored messages in key order: what a range-for over the map visits. */
  function Log(c: Cache): (ms: seq<string>)
    requires Contiguous(c)
    ensures |ms| == |c|
    ensures forall i :: 0 <= i < |c| ==> ms[i] == c[i + 1]
  {
    seq(|c|, i requires 0 <= i < |c| => c[i + 1])
  }

  /** Publishing appends to the log: key order is publish order, earlier entries stay as they were. */
  lemma LogAppend(c: Cache, m: string)
    requires Contiguous(c)
    ensures Log(Append(c, m)) == Log(c) + [m]
  {
    var r := Append(c, m);
    assert forall i :: 0 <= i < |c| + 1 ==> Log(r)[i] == (Log(c) + [m])[i];
  }
}
