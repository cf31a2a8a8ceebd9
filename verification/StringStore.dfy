/**
  `stringMap` and `stringCacheFactory` (`cache/stringcache/string_caches.go`): exact names, kept in one
  sorted bucket per length and packed into one string per bucket.
 */
module StringStore {
  import opened Text
  import opened Sequences
  import opened Wrappers

  type Buckets = map<nat, seq<string>>

  type Packed = map<nat, string>

  /** A bucket is non-empty, strictly sorted, and holds strings of one positive length. */
  ghost predicate OrderedBucket(bucket: seq<string>, k: nat) {
    k > 0 && bucket != [] && StrictlySorted(bucket) && AllOfLength(bucket, k)
  }

  ghost predicate Ordered(b: Buckets) {
    forall k :: k in b ==> OrderedBucket(b[k], k)
  }

  ghost predicate AllOfLength(bucket: seq<string>, k: nat) {
    forall i :: 0 <= i < |bucket| ==> |bucket[i]| == k
  }

  ghost function Stored(b: Buckets): set<string> {
    set k, s | k in b && s in b[k] :: s
  }

  /** `strings.Join(v, "")`. */
  function Join(bucket: seq<string>): string {
    if bucket == [] then "" else Join(bucket[..|bucket| - 1]) + bucket[|bucket| - 1]
  }

  function JoinAll(b: Buckets): Packed {
    map k | k in b :: Join(b[k])
  }

  /** Cutting the joined bucket every `k` characters gives the bucket back. */
  lemma {:induction false} JoinCut(bucket: seq<string>, k: nat, i: nat)
    requires AllOfLength(bucket, k) && i < |bucket|
    ensures |Join(bucket)| == |bucket| * k
    ensures 0 <= i * k <= i * k + k <= |bucket| * k
    ensures Join(bucket)[i * k..i * k + k] == bucket[i]
  {
    var n := |bucket| - 1;
    var init := bucket[..n];
    JoinLength(bucket, k);
    JoinLength(init, k);
    assert n * k + k == |bucket| * k;
    if i < n {
      JoinCut(init, k, i);
      assert Join(bucket) == Join(init) + bucket[n];
      var from, to := i * k, i * k + k;
      assert 0 <= from <= to <= |Join(init)|;
      assert Join(bucket)[from..to] == Join(init)[from..to];
    }
  }

  lemma {:induction false} JoinLength(bucket: seq<string>, k: nat)
    requires AllOfLength(bucket, k)
    ensures |Join(bucket)| == |bucket| * k
  {
    if bucket != [] {
      var n := |bucket| - 1;
      JoinLength(bucket[..n], k);
      assert n * k + k == |bucket| * k;
    }
  }

  /** `sort.SearchStrings`: the first position whose string is not below `x`. */
  method SearchStrings(a: seq<string>, x: string) returns (ix: nat)
    requires Sorted(a)
    ensures ix <= |a|
    ensures forall i :: 0 <= i < ix ==> Less(a[i], x)
    ensures forall i :: ix <= i < |a| ==> AtMost(x, a[i])
  {
    ix := 0;
    var hi := |a|;
    while ix < hi
      invariant ix <= hi <= |a|
      invariant forall i :: 0 <= i < ix ==> Less(a[i], x)
      invariant forall i :: hi <= i < |a| ==> AtMost(x, a[i])
    {
      var mid := (ix + hi) / 2;
      LessTotal(a[mid], x);
      if Less(a[mid], x) {
        forall i | ix <= i < mid ensures Less(a[i], x) {
          assert AtMost(a[i], a[mid]);
          if a[i] != a[mid] { LessTransitive(a[i], a[mid], x); }
        }
        ix := mid + 1;
      } else {
        forall i | mid < i < hi ensures AtMost(x, a[i]) {
          assert AtMost(a[mid], a[i]);
          if x != a[mid] && a[mid] != a[i] { LessTransitive(x, a[mid], a[i]); }
        }
        hi := mid;
      }
    }
  }

  /** The searched string is in a sorted list exactly when it sits where the search ends. */
  lemma FoundAtIndex(a: seq<string>, x: string, ix: nat)
    requires ix <= |a|
    requires forall i :: 0 <= i < ix ==> Less(a[i], x)
    requires forall i :: ix <= i < |a| ==> AtMost(x, a[i])
    requires Sorted(a)
    ensures x in a <==> ix < |a| && a[ix] == x
  {
    LessTotal(x, x);
    if x in a {
      var i :| 0 <= i < |a| && a[i] == x;
      if ix < i {
        assert AtMost(a[ix], a[i]);
        LessTotal(x, a[ix]);
      }
    }
  }

  /** `stringMap.contains`: binary search in the packed bucket of the right length. */
  method Contains(cache: Packed, search: string, ghost b: Buckets) returns (found: bool)
    requires Ordered(b) && cache == JoinAll(b)
    ensures found <==> ToLower(search) in Stored(b)
  {
    var x := ToLower(search);
    var k := |x|;
    BucketOf(b, x);
    if k == 0 || k !in cache {
      return false;
    }
    ghost var a := b[k];
    JoinLength(a, k);
    var n := |cache[k]| / k;
    assert n == |a| by { DivExact(|a|, k); }
    var lo, hi := 0, n;
    while lo < hi
      invariant 0 <= lo <= hi <= n
      invariant forall i :: 0 <= i < lo ==> Less(a[i], x)
      invariant forall i :: hi <= i < n ==> AtMost(x, a[i])
    {
      var mid := (lo + hi) / 2;
      JoinCut(a, k, mid);
      var entry := cache[k][mid * k..mid * k + k];
      LessTotal(entry, x);
      if Less(entry, x) {
        forall i | lo <= i < mid ensures Less(a[i], x) { LessTransitive(a[i], a[mid], x); }
        lo := mid + 1;
      } else {
        forall i | mid < i < hi ensures AtMost(x, a[i]) {
          assert Less(a[mid], a[i]);
          if x != a[mid] { LessTransitive(x, a[mid], a[i]); }
        }
        hi := mid;
      }
    }
    FoundAtIndex(a, x, lo);
    if lo < n {
      JoinCut(a, k, lo);
      found := cache[k][lo * k..lo * k + k] == x;
    } else {
      found := false;
    }
  }

  lemma BucketOf(b: Buckets, s: string)
    requires Ordered(b)
    ensures s in Stored(b) <==> |s| in b && s in b[|s|]
  {
    if s in Stored(b) {
      var k :| k in b && s in b[k];
      var i :| 0 <= i < |b[k]| && b[k][i] == s;
      assert |b[k][i]| == k;
    }
  }

  lemma MulMonotone(a: int, b: int, k: nat)
    requires a <= b
    ensures a * k <= b * k
  {
    assert (b - a) * k >= 0;
  }

  lemma InBucket(b: Buckets, k: nat, s: string)
    requires k in b && s in b[k]
    ensures s in Stored(b)
  {
  }

  lemma DivExact(n: nat, k: nat)
    requires k > 0
    ensures n * k / k == n
  {
    var q := n * k / k;
    assert n * k == q * k + n * k % k;
    if q < n {
      MulMonotone(q + 1, n, k);
    } else if n < q {
      MulMonotone(n + 1, q, k);
    }
  }

  ghost function Normalized(entries: seq<string>): set<string> {
    set e | e in entries && e != "" :: ToLower(e)
  }

  function CountNonEmpty(entries: seq<string>): nat {
    if entries == [] then 0
    else CountNonEmpty(entries[..|entries| - 1]) + if entries[|entries| - 1] == "" then 0 else 1
  }

  /** The count is the number of positions that hold a non-empty entry. */
  lemma {:induction false} CountIsPositions(entries: seq<string>)
    ensures CountNonEmpty(entries) == |set i | 0 <= i < |entries| && entries[i] != ""|
  {
    if entries != [] {
      var n := |entries| - 1;
      var init := entries[..n];
      CountIsPositions(init);
      var before := set i | 0 <= i < |init| && init[i] != "";
      var all := set i | 0 <= i < |entries| && entries[i] != "";
      assert all == if entries[n] == "" then before else before + {n};
    }
  }

  lemma NormalizedSnoc(entries: seq<string>, e: string)
    ensures Normalized(entries + [e]) == if e == "" then Normalized(entries) else Normalized(entries) + {ToLower(e)}
    ensures CountNonEmpty(entries + [e]) == CountNonEmpty(entries) + if e == "" then 0 else 1
  {
    assert (entries + [e])[..|entries|] == entries;
  }

  /** The number of stored names never exceeds the count of added entries. */
  lemma {:induction false} StoredAtMostCount(entries: seq<string>)
    ensures |Normalized(entries)| <= CountNonEmpty(entries)
  {
    if entries != [] {
      var init, last := entries[..|entries| - 1], entries[|entries| - 1];
      StoredAtMostCount(init);
      assert entries == init + [last];
      NormalizedSnoc(init, last);
    }
  }

  /** Putting a new string where the search ended keeps a bucket strictly sorted. */
  lemma InsertSorted(a: seq<string>, x: string, ix: nat)
    requires StrictlySorted(a) && ix <= |a|
    requires forall i :: 0 <= i < ix ==> Less(a[i], x)
    requires forall i :: ix <= i < |a| ==> AtMost(x, a[i])
    requires x !in a
    ensures StrictlySorted(a[..ix] + [x] + a[ix..])
  {
    var r := a[..ix] + [x] + a[ix..];
    forall i, j | 0 <= i < j < |r| ensures Less(r[i], r[j]) {
      if i < ix < j {
        LessTransitive(a[i], x, a[j - 1]);
      }
    }
  }

  /** Growing a bucket by one, shifting its end and writing the gap is an insertion. */
  lemma ShiftedInsert(a: seq<string>, x: string, ix: nat)
    requires ix <= |a|
    ensures var grown := a + [""];
      (grown[..ix + 1] + grown[ix..|grown| - 1])[ix := x] == a[..ix] + [x] + a[ix..]
  {
  }

  lemma InsertStored(b: Buckets, x: string, a: seq<string>, ix: nat)
    requires Ordered(b) && x != "" && ix <= |a|
    requires a == if |x| in b then b[|x|] else []
    ensures Stored(b[|x| := a[..ix] + [x] + a[ix..]]) == Stored(b) + {x}
  {
    var r := a[..ix] + [x] + a[ix..];
    var b' := b[|x| := r];
    assert a == a[..ix] + a[ix..];
    assert forall s :: s in r <==> s in a || s == x;
    forall s ensures s in Stored(b') <==> s in Stored(b) + {x} {
      if s in Stored(b) {
        var k :| k in b && s in b[k];
        assert k in b' && s in b'[k];
      }
      if s == x { assert |x| in b' && s in b'[|x|]; }
      if s in Stored(b') {
        var k :| k in b' && s in b'[k];
        assert k != |x| ==> k in b && s in b[k];
      }
    }
  }

  lemma InsertOrdered(b: Buckets, x: string, a: seq<string>, ix: nat)
    requires Ordered(b) && x != "" && ix <= |a| && x !in a
    requires a == if |x| in b then b[|x|] else []
    requires forall i :: 0 <= i < ix ==> Less(a[i], x)
    requires forall i :: ix <= i < |a| ==> AtMost(x, a[i])
    ensures Ordered(b[|x| := a[..ix] + [x] + a[ix..]])
    ensures Stored(b[|x| := a[..ix] + [x] + a[ix..]]) == Stored(b) + {x}
  {
    assert |x| in b ==> OrderedBucket(b[|x|], |x|);
    InsertKeepsBucket(a, x, ix);
    InsertStored(b, x, a, ix);
  }

  lemma InsertKeepsBucket(a: seq<string>, x: string, ix: nat)
    requires x != "" && ix <= |a| && x !in a && StrictlySorted(a) && AllOfLength(a, |x|)
    requires forall i :: 0 <= i < ix ==> Less(a[i], x)
    requires forall i :: ix <= i < |a| ==> AtMost(x, a[i])
    ensures OrderedBucket(a[..ix] + [x] + a[ix..], |x|)
  {
    InsertSorted(a, x, ix);
    InsertKeepsLength(a, x, ix);
  }

  lemma InsertKeepsLength(a: seq<string>, x: string, ix: nat)
    requires ix <= |a| && AllOfLength(a, |x|)
    ensures AllOfLength(a[..ix] + [x] + a[ix..], |x|)
  {
    var r := a[..ix] + [x] + a[ix..];
    assert forall i :: 0 <= i < |r| ==> r[i] == if i < ix then a[i] else if i == ix then x else a[i - 1];
  }

  class StringCacheFactory {
    var tmp: Buckets
    var cnt: nat
    ghost var added: seq<string>

    ghost predicate Valid()
      reads this
    {
      Ordered(tmp) && Stored(tmp) == Normalized(added) && cnt == CountNonEmpty(added)
    }

    constructor ()
      ensures Valid() && added == []
    {
      tmp, cnt, added := map[], 0, [];
    }

    /** `addEntry`: takes every entry; an empty one is not counted and not stored. */
    method AddEntry(entry: string) returns (handled: bool)
      requires Valid()
      modifies this
      ensures Valid() && handled && added == old(added) + [entry]
    {
      NormalizedSnoc(added, entry);
      added := added + [entry];
      if entry != "" {
        cnt := cnt + 1;
        InsertString(entry);
      }
      return true;
    }

    /** `insertString`: finds the place by binary search, shifts the rest of the bucket by one. */
    method InsertString(entry: string)
      requires Ordered(tmp) && entry != ""
      modifies this`tmp
      ensures Ordered(tmp) && Stored(tmp) == old(Stored(tmp)) + {ToLower(entry)}
    {
      var x := ToLower(entry);
      var bucket := if |x| in tmp then tmp[|x|] else [];
      ghost var before := bucket;
      var ix := SearchStrings(bucket, x);
      FoundAtIndex(bucket, x, ix);
      BucketOf(tmp, x);
      if ix >= |bucket| || bucket[ix] != x {
        bucket := bucket + [""];
        bucket := bucket[..ix + 1] + bucket[ix..|bucket| - 1];
        bucket := bucket[ix := x];
        ShiftedInsert(before, x, ix);
        InsertOrdered(tmp, x, before, ix);
        tmp := tmp[|x| := bucket];
      }
    }

    /** `create`: nil when nothing was stored, else the packed buckets. */
    method Create() returns (cache: Option<Packed>)
      requires Valid()
      ensures Ordered(tmp) && Stored(tmp) == Normalized(added)
      ensures cache.None? <==> Stored(tmp) == {}
      ensures cache.Some? ==> cache.value == JoinAll(tmp)
    {
      forall k | k in tmp ensures Stored(tmp) != {} { InBucket(tmp, k, tmp[k][0]); }
      cache := if tmp == map[] then None else Some(JoinAll(tmp));
    }
  }

  /** `elementCount`: the number of distinct stored names. */
  method ElementCount(cache: Packed, ghost b: Buckets) returns (count: nat)
    requires Ordered(b) && cache == JoinAll(b)
    ensures count == |Stored(b)|
  {
    count := 0;
    var todo := cache.Keys;
    assert b - todo == map[];
    while todo != {}
      invariant todo <= cache.Keys
      invariant count == |Stored(b - todo)|
      decreases |todo|
    {
      var k :| k in todo;
      assert todo - {k} + {k} == todo;
      JoinLength(b[k], k);
      DivExact(|b[k]|, k);
      BucketAdds(b, todo - {k}, k);
      count := count + |cache[k]| / k;
      todo := todo - {k};
    }
    assert b - {} == b;
  }

  lemma BucketAdds(b: Buckets, todo: set<nat>, k: nat)
    requires Ordered(b) && k in b && k !in todo
    ensures |Stored(b - todo)| == |Stored(b - (todo + {k}))| + |b[k]|
  {
    var rest := b - (todo + {k});
    var bucket := Elements(b[k]);
    forall s ensures s in Stored(b - todo) <==> s in Stored(rest) + bucket {
      if s in Stored(b - todo) {
        var j :| j in b - todo && s in (b - todo)[j];
        if j != k { InBucket(rest, j, s); }
      }
      if s in Stored(rest) {
        var j :| j in rest && s in rest[j];
        InBucket(b - todo, j, s);
      }
      if s in bucket { InBucket(b - todo, k, s); }
    }
    assert Stored(b - todo) == Stored(rest) + bucket;
    forall s | s in Stored(rest) ensures s !in bucket {
      BucketOf(rest, s);
    }
    StrictHasNoDuplicates(b[k]);
    Sequences.ElementCount(b[k]);
  }

  lemma StrictHasNoDuplicates(a: seq<string>)
    requires StrictlySorted(a)
    ensures NoDuplicates(a)
  {
    forall i, j | 0 <= i < j < |a| ensures a[i] != a[j] {
      LessTotal(a[i], a[j]);
    }
  }
}
