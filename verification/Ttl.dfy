/**
  TTL handling of `resolver/caching_resolver.go`, in the 32-bit arithmetic of record headers and
  with times in nanoseconds (section 8 of RFC 2181 bounds TTLs by 2^31 - 1).
 */
module Ttl {
  const U32_SIZE := 0x1_0000_0000
  const MAX_INT32 := 0x7fff_ffff
  const MAX_INT64 := 0x7fff_ffff_ffff_ffff
  const SECOND := 1_000_000_000

  type U32 = x: int | 0 <= x < 0x1_0000_0000

  /** Durations of the caching configuration, in nanoseconds; zero or less switches a bound off. */
  datatype Limits = Limits(minTime: int, maxTime: int, negative: int)

  /** `Duration.SecondsU32`, of a positive duration. */
  function SecondsU32(d: int): U32
    requires d > 0
  {
    (d / SECOND) % U32_SIZE
  }

  /** The clamping of one header. */
  function Clamp(c: Limits, ttl: U32): U32 {
    var low := if c.minTime > 0 && ttl < SecondsU32(c.minTime) then SecondsU32(c.minTime) else ttl;
    if c.maxTime > 0 && low > SecondsU32(c.maxTime) then SecondsU32(c.maxTime) else low
  }

  /**
    Clamping with bounds of less than 2^32 seconds: the maximum is never exceeded, the minimum is reached
    unless the maximum is below it, what lies within the bounds is kept, and what is changed becomes a bound.
   */
  lemma ClampMeaning(c: Limits, ttl: U32)
    requires c.minTime / SECOND < U32_SIZE && c.maxTime / SECOND < U32_SIZE
    ensures var r, low, high := Clamp(c, ttl), c.minTime / SECOND, c.maxTime / SECOND;
      && (c.maxTime > 0 ==> r <= high)
      && (c.minTime > 0 && (c.maxTime > 0 ==> low <= high) ==> r >= low)
      && ((c.minTime > 0 ==> low <= ttl) && (c.maxTime > 0 ==> ttl <= high) ==> r == ttl)
      && (r == ttl || (c.minTime > 0 && r as int == low) || (c.maxTime > 0 && r as int == high))
  {
    if c.minTime > 0 { ModSmall(c.minTime / SECOND); }
    if c.maxTime > 0 { ModSmall(c.maxTime / SECOND); }
  }

  function ClampAll(c: Limits, ttls: seq<U32>): seq<U32> {
    seq(|ttls|, i requires 0 <= i < |ttls| => Clamp(c, ttls[i]))
  }

  /** The smallest TTL, or 2^31 - 1 if that is smaller. */
  function MinTtl(ttls: seq<U32>): (m: U32)
    ensures m <= MAX_INT32 && forall t :: t in ttls ==> m <= t
    ensures m == MAX_INT32 || m in ttls
  {
    if ttls == [] then MAX_INT32
    else
      var m := MinTtl(ttls[..|ttls| - 1]);
      var t := ttls[|ttls| - 1];
      assert ttls == ttls[..|ttls| - 1] + [t];
      if t < m then t else m
  }

  lemma MinOfNext(ttls: seq<U32>, i: nat)
    requires i < |ttls|
    ensures MinTtl(ttls[..i + 1]) == if ttls[i] < MinTtl(ttls[..i]) then ttls[i] else MinTtl(ttls[..i])
  {
    assert ttls[..i + 1][..i] == ttls[..i];
  }

  /** How long an answer is cached. */
  function Expiration(c: Limits, ttls: seq<U32>): int {
    if ttls == [] then c.negative else MinTtl(ClampAll(c, ttls)) * SECOND
  }

  method ClampHeader(c: Limits, headers: array<U32>, i: nat)
    requires i < headers.Length
    modifies headers
    ensures headers[..] == old(headers[..])[i := Clamp(c, old(headers[i]))]
  {
    if c.minTime > 0 {
      if headers[i] < SecondsU32(c.minTime) {
        headers[i] := SecondsU32(c.minTime);
      }
    }
    if c.maxTime > 0 {
      if headers[i] > SecondsU32(c.maxTime) {
        headers[i] := SecondsU32(c.maxTime);
      }
    }
  }

  /** `adjustTTLs`: clamps the headers in place and returns the expiration. */
  method AdjustTtls(c: Limits, headers: array<U32>) returns (expiration: int)
    modifies headers
    ensures headers[..] == ClampAll(c, old(headers[..]))
    ensures expiration == Expiration(c, old(headers[..]))
  {
    ghost var ttls := headers[..];
    ghost var clamped := ClampAll(c, ttls);
    var minTtl: U32 := MAX_INT32;
    if headers.Length == 0 {
      return c.negative;
    }
    for i := 0 to headers.Length
      invariant forall j :: 0 <= j < i ==> headers[j] == clamped[j]
      invariant forall j :: i <= j < headers.Length ==> headers[j] == ttls[j]
      invariant minTtl == MinTtl(clamped[..i])
    {
      ghost var before := headers[..];
      ClampHeader(c, headers, i);
      assert forall j :: 0 <= j < headers.Length && j != i ==> headers[j] == before[j];
      MinOfNext(clamped, i);
      if minTtl > headers[i] {
        minTtl := headers[i];
      }
    }
    assert clamped[..headers.Length] == clamped;
    return minTtl * SECOND;
  }

  /** The new value of a header, subtracting and adding as uint32 does. */
  function Aged(ttl: U32, minTtl: U32, remaining: nat): U32 {
    var less := (ttl - minTtl) % U32_SIZE;
    (less + (remaining / SECOND) % U32_SIZE) % U32_SIZE
  }

  function AgedAll(ttls: seq<U32>, remaining: nat): seq<U32> {
    seq(|ttls|, i requires 0 <= i < |ttls| => Aged(ttls[i], MinTtl(ttls), remaining))
  }

  /** `setTTLInCachedResponse`: rewrites the headers for the time that is left. */
  method SetTtlInCachedResponse(headers: array<U32>, remaining: nat)
    modifies headers
    ensures headers[..] == AgedAll(old(headers[..]), remaining)
  {
    ghost var ttls := headers[..];
    var minTtl: U32 := MAX_INT32;
    for i := 0 to headers.Length
      invariant headers[..] == ttls && minTtl == MinTtl(ttls[..i])
    {
      MinOfNext(ttls, i);
      if headers[i] < minTtl {
        minTtl := headers[i];
      }
    }
    assert ttls[..headers.Length] == ttls;
    for i := 0 to headers.Length
      invariant forall j :: 0 <= j < i ==> headers[j] == Aged(ttls[j], minTtl, remaining)
      invariant forall j :: i <= j < headers.Length ==> headers[j] == ttls[j]
    {
      headers[i] := Aged(headers[i], minTtl, remaining);
    }
  }

  /** The expiration of a clamped answer fits in a duration. */
  lemma ExpirationFits(c: Limits, ttls: seq<U32>)
    requires ttls != []
    ensures 0 <= Expiration(c, ttls) <= MAX_INT64
  {
  }

  lemma ModSmall(x: int)
    requires 0 <= x < U32_SIZE
    ensures x % U32_SIZE == x
  {
  }

  /** Without wrap-around, ageing subtracts the smallest TTL and adds the whole seconds left. */
  lemma AgedValue(ttl: U32, minTtl: U32, remaining: nat)
    requires minTtl <= ttl && ttl as int - minTtl as int + remaining / SECOND < U32_SIZE
    ensures Aged(ttl, minTtl, remaining) as int == ttl as int - minTtl as int + remaining / SECOND
  {
    ModSmall(ttl as int - minTtl as int);
    ModSmall(remaining / SECOND);
    ModSmall(ttl as int - minTtl as int + remaining / SECOND);
  }

  /** While at most the smallest TTL is left, ageing does not wrap around and never raises a TTL. */
  lemma AgeingIsExact(ttls: seq<U32>, i: nat, remaining: nat)
    requires i < |ttls| && remaining <= MinTtl(ttls) * SECOND
    ensures AgedAll(ttls, remaining)[i] as int == ttls[i] as int - MinTtl(ttls) as int + remaining / SECOND
    ensures AgedAll(ttls, remaining)[i] <= ttls[i]
  {
    assert ttls[i] in ttls;
    SecondsAtMost(remaining, MinTtl(ttls));
    AgedValue(ttls[i], MinTtl(ttls), remaining);
  }

  lemma SecondsAtMost(remaining: nat, m: nat)
    requires remaining <= m * SECOND
    ensures 0 <= remaining / SECOND <= m
  {
  }

  /** The smallest served TTL is the number of whole seconds left exactly when some TTL is below 2^31. */
  lemma SmallestIsSecondsLeft(ttls: seq<U32>, remaining: nat)
    requires ttls != [] && remaining <= MinTtl(ttls) * SECOND
    ensures (exists t :: t in ttls && t <= MAX_INT32)
       <==> (&& remaining / SECOND in AgedAll(ttls, remaining)
             && forall t :: t in AgedAll(ttls, remaining) ==> remaining / SECOND <= t)
  {
    var aged, m := AgedAll(ttls, remaining), MinTtl(ttls);
    forall i | 0 <= i < |ttls|
      ensures aged[i] as int == ttls[i] as int - m as int + remaining / SECOND && m <= ttls[i]
    {
      AgeingIsExact(ttls, i, remaining);
      assert ttls[i] in ttls;
    }
    if t :| t in ttls && t <= MAX_INT32 {
      assert m in ttls;
      var i :| 0 <= i < |ttls| && ttls[i] == m;
      assert aged[i] == remaining / SECOND;
    }
    if remaining / SECOND in aged {
      var i :| 0 <= i < |ttls| && aged[i] == remaining / SECOND;
      assert ttls[i] == m && ttls[i] in ttls;
    }
  }

  /** All differences between TTLs of one answer survive ageing. */
  lemma DifferencesAreKept(ttls: seq<U32>, i: nat, j: nat, remaining: nat)
    requires i < |ttls| && j < |ttls| && remaining <= MinTtl(ttls) * SECOND
    ensures AgedAll(ttls, remaining)[i] as int - AgedAll(ttls, remaining)[j] as int == ttls[i] as int - ttls[j] as int
  {
    AgeingIsExact(ttls, i, remaining);
    AgeingIsExact(ttls, j, remaining);
  }

  /** Between two hits on the same entry no TTL rises. */
  lemma LaterHitsServeLess(ttls: seq<U32>, i: nat, earlier: nat, later: nat)
    requires i < |ttls| && later <= earlier <= MinTtl(ttls) * SECOND
    ensures AgedAll(ttls, later)[i] <= AgedAll(ttls, earlier)[i]
  {
    AgeingIsExact(ttls, i, earlier);
    AgeingIsExact(ttls, i, later);
    assert later / SECOND <= earlier / SECOND;
  }

  /**
    An answer that is kept for `keep` nanoseconds is at some time served with a larger TTL than it was
    stored with exactly when it is kept for more seconds than its smallest TTL; a TTL of 2^32 - 1 wraps
    around instead.
   */
  lemma RaisedIff(ttls: seq<U32>, i: nat, keep: nat)
    requires i < |ttls|
    ensures (exists remaining: nat :: 0 < remaining <= keep && AgedAll(ttls, remaining)[i] > ttls[i])
       <==> keep / SECOND > MinTtl(ttls) && ttls[i] < U32_SIZE - 1
  {
    var m, ttl := MinTtl(ttls), ttls[i];
    assert ttl in ttls;
    if keep / SECOND > m && ttl < U32_SIZE - 1 {
      var remaining: nat := (m + 1) * SECOND;
      assert remaining / SECOND == m + 1;
      AgedValue(ttl, m, remaining);
      assert 0 < remaining <= keep && AgedAll(ttls, remaining)[i] > ttl;
    }
    forall remaining: nat | remaining <= keep && keep / SECOND <= m ensures AgedAll(ttls, remaining)[i] <= ttl {
      assert remaining / SECOND <= keep / SECOND;
      AgedValue(ttl, m, remaining);
    }
  }
}
