/**
  The answer cache of `resolver/caching_resolver.go` over the contract of `cache/cache_interface.go`,
  with the keys of `util/common.go`.
 */
module AnswerCache {
  import opened Text
  import opened Wrappers
  import opened Ttl

  const SUCCESS := 0
  const NAME_ERROR := 3
  const TYPE_OPT := 41

  type U16 = x: int | 0 <= x < 0x1_0000

  // Keys.

  /** `GenerateCacheKey`: the query type in two bytes, then the name in lower case. */
  function Key(qtype: U16, name: string): string {
    [(qtype / 256) as char, (qtype % 256) as char] + ToLower(name)
  }

  /** `ExtractCacheKey`. */
  function ExtractKey(key: string): (int, string)
    requires |key| >= 2
  {
    ((key[0] as int) * 256 + key[1] as int, key[2..])
  }

  lemma KeyRoundTrip(qtype: U16, name: string)
    ensures |Key(qtype, name)| >= 2 && ExtractKey(Key(qtype, name)) == (qtype, ToLower(name))
  {
    assert Key(qtype, name)[2..] == ToLower(name);
  }

  /** Two requests share an entry exactly when their types agree and their names agree up to case. */
  lemma KeysAgree(q1: U16, n1: string, q2: U16, n2: string)
    ensures Key(q1, n1) == Key(q2, n2) <==> q1 == q2 && ToLower(n1) == ToLower(n2)
  {
    KeyRoundTrip(q1, n1);
    KeyRoundTrip(q2, n2);
  }

  /** The buffer that `GenerateCacheKey` fills. */
  method GenerateCacheKey(qtype: U16, name: string) returns (key: string)
    ensures key == Key(qtype, name)
    ensures |key| == 2 + |name| && key[0] as int * 256 + key[1] as int == qtype && key[2..] == ToLower(name)
  {
    KeyRoundTrip(qtype, name);
    var b := new char[2 + |name|];
    b[0] := (qtype / 256) as char;
    b[1] := (qtype % 256) as char;
    var lower := ToLower(name);
    for i := 0 to |lower|
      invariant b[0] == (qtype / 256) as char && b[1] == (qtype % 256) as char
      invariant forall j :: 0 <= j < i ==> b[2 + j] == lower[j]
    {
      b[2 + i] := lower[i];
    }
    return b[..];
  }

  // Messages.

  datatype Record = Record(owner: string, rrtype: U16, ttl: U32, data: string)

  datatype Msg = Msg(rcode: nat, truncated: bool, checkingDisabled: bool,
                     answer: seq<Record>, authority: seq<Record>, extra: seq<Record>)

  /** `RemoveEdns0Record`: removes the first OPT record. */
  function RemoveOpt(extra: seq<Record>): seq<Record> {
    if extra == [] then []
    else if extra[0].rrtype == TYPE_OPT then extra[1..]
    else [extra[0]] + RemoveOpt(extra[1..])
  }

  function OptCount(extra: seq<Record>): nat {
    if extra == [] then 0 else (if extra[0].rrtype == TYPE_OPT then 1 else 0) + OptCount(extra[1..])
  }

  /** What is stored has no OPT record exactly when the response had at most one. */
  lemma {:induction false} StoredWithoutOpt(extra: seq<Record>)
    ensures OptCount(RemoveOpt(extra)) == 0 <==> OptCount(extra) <= 1
    ensures OptCount(extra) == 0 ==> RemoveOpt(extra) == extra
  {
    if extra != [] {
      StoredWithoutOpt(extra[1..]);
      if extra[0].rrtype != TYPE_OPT {
        var r := RemoveOpt(extra);
        assert r[0] == extra[0] && r[1..] == RemoveOpt(extra[1..]);
      }
    }
  }

  /** Exactly the first OPT record is taken out; all others stay, in their order. */
  lemma {:induction false} RemoveOptCuts(extra: seq<Record>, i: nat) returns (k: nat)
    requires i < |extra| && extra[i].rrtype == TYPE_OPT
    ensures k <= i && extra[k].rrtype == TYPE_OPT && forall j :: 0 <= j < k ==> extra[j].rrtype != TYPE_OPT
    ensures RemoveOpt(extra) == extra[..k] + extra[k + 1..]
  {
    hide RemoveOpt;
    RemoveOptUnfolds(extra);
    if extra[0].rrtype == TYPE_OPT {
      k := 0;
      assert extra[..0] + extra[1..] == extra[1..];
    } else {
      var j := RemoveOptCuts(extra[1..], i - 1);
      k := j + 1;
      CutBehindHead(extra, j);
    }
  }

  lemma RemoveOptUnfolds(extra: seq<Record>)
    requires extra != []
    ensures RemoveOpt(extra) == if extra[0].rrtype == TYPE_OPT then extra[1..] else [extra[0]] + RemoveOpt(extra[1..])
  {
  }

  lemma CutBehindHead(extra: seq<Record>, j: nat)
    requires j < |extra| - 1
    ensures [extra[0]] + (extra[1..][..j] + extra[1..][j + 1..]) == extra[..j + 1] + extra[j + 2..]
  {
    assert extra[1..][j + 1..] == extra[j + 2..];
    assert extra[..j + 1] == [extra[0]] + extra[1..][..j];
  }

  function Ttls(rs: seq<Record>): seq<U32> {
    seq(|rs|, i requires 0 <= i < |rs| => rs[i].ttl)
  }

  function WithTtls(rs: seq<Record>, ttls: seq<U32>): seq<Record>
    requires |ttls| == |rs|
  {
    seq(|rs|, i requires 0 <= i < |rs| => rs[i].(ttl := ttls[i]))
  }

  /** The records agree in everything but their TTLs. */
  predicate SameButTtl(a: seq<Record>, b: seq<Record>) {
    |a| == |b| && forall i :: 0 <= i < |a| ==> a[i] == b[i].(ttl := a[i].ttl)
  }

  // The cache.

  datatype Entry = Entry(msg: Msg, expires: int)

  type Cache = map<string, Entry>

  /** `Put`: an expiration of zero or less stores nothing. */
  function Put(cache: Cache, key: string, msg: Msg, expiration: int, now: int): Cache {
    if expiration <= 0 then cache else cache[key := Entry(msg, now + expiration)]
  }

  /** `Get`: the value with the time it has left. */
  function Get(cache: Cache, key: string, now: int): Option<(Msg, nat)> {
    if key in cache && now < cache[key].expires then Some((cache[key].msg, cache[key].expires - now)) else None
  }

  /** The response after `adjustTTLs`. */
  function Adjusted(c: Limits, m: Msg): Msg {
    m.(answer := WithTtls(m.answer, ClampAll(c, Ttls(m.answer))))
  }

  /** `putInCache`: the time for which a response is kept; nothing is stored without one. */
  function KeepFor(c: Limits, m: Msg): int {
    if m.rcode == SUCCESS && !m.truncated && !m.checkingDisabled then Expiration(c, Ttls(m.answer))
    else if m.rcode == NAME_ERROR && c.negative > 0 then c.negative
    else 0
  }

  /** `adjustTTLs` and `putInCache` for a response to `key`. */
  function StoreResponse(c: Limits, cache: Cache, key: string, m: Msg, now: int): Cache {
    var adjusted := Adjusted(c, m);
    Put(cache, key, adjusted.(extra := RemoveOpt(m.extra)), KeepFor(c, m), now)
  }

  /** What a hit serves: the stored message with aged TTLs, made a reply to a request with flag `cd`. */
  function Served(m: Msg, remaining: nat, cd: bool): Msg {
    m.(checkingDisabled := cd, answer := WithTtls(m.answer, AgedAll(Ttls(m.answer), remaining)))
  }

  function Lookup(cache: Cache, key: string, now: int, cd: bool): Option<Msg> {
    match Get(cache, key, now)
    case None => None
    case Some((m, left)) => Some(Served(m, left, cd))
  }

  // Runs.

  /**
    A response is stored for a question (from the next resolver or from Redis), the entry of a
    question is evicted, or all entries are flushed.
   */
  datatype Event =
    | Response(qtype: U16, name: string, msg: Msg, now: int)
    | Evicted(qtype: U16, name: string)
    | Flushed

  function Step(c: Limits, cache: Cache, e: Event): Cache {
    match e
    case Response(qtype, name, m, now) => StoreResponse(c, cache, Key(qtype, name), m, now)
    case Evicted(qtype, name) => cache - {Key(qtype, name)}
    case Flushed => map[]
  }

  /** The cache that a history leaves. */
  function After(c: Limits, events: seq<Event>): Cache {
    if events == [] then map[] else Step(c, After(c, events[..|events| - 1]), events[|events| - 1])
  }

  lemma AfterSnoc(c: Limits, events: seq<Event>, e: Event)
    ensures After(c, events + [e]) == Step(c, After(c, events), e)
  {
    assert (events + [e])[..|events|] == events;
  }

  /** The event is about questions of this type and for this name, up to case. */
  predicate IsAbout(e: Event, qtype: U16, name: string) {
    !e.Flushed? && e.qtype == qtype && ToLower(e.name) == ToLower(name)
  }

  /** The event stores a response for the question: it is of a kind that is kept, and for a positive time. */
  predicate Stores(c: Limits, e: Event, qtype: U16, name: string) {
    e.Response? && IsAbout(e, qtype, name) && KeepFor(c, e.msg) > 0
  }

  predicate Evicts(e: Event, qtype: U16, name: string) {
    e.Evicted? && IsAbout(e, qtype, name)
  }

  /** Event `i` is the last one that stored something for the question, and no flush came after it. */
  predicate IsLatest(c: Limits, events: seq<Event>, qtype: U16, name: string, i: int) {
    && 0 <= i < |events| && Stores(c, events[i], qtype, name)
    && forall j :: i < j < |events| ==> !Stores(c, events[j], qtype, name) && !events[j].Flushed?
  }

  predicate EvictedSince(events: seq<Event>, qtype: U16, name: string, i: int) {
    exists j :: 0 <= i < j < |events| && Evicts(events[j], qtype, name)
  }

  /** Event `i` left the entry that answers the question. */
  predicate IsKept(c: Limits, events: seq<Event>, qtype: U16, name: string, i: int) {
    IsLatest(c, events, qtype, name, i) && !EvictedSince(events, qtype, name, i)
  }

  /** The entry that a stored response leaves. */
  function EntryOf(c: Limits, e: Event): Entry
    requires e.Response?
  {
    Entry(Adjusted(c, e.msg).(extra := RemoveOpt(e.msg.extra)), e.now + KeepFor(c, e.msg))
  }

  /** An entry is there exactly when it was stored since the last flush and not evicted since, and it is the latest. */
  lemma {:induction false} EntriesAreLatest(c: Limits, events: seq<Event>, qtype: U16, name: string)
    ensures Key(qtype, name) in After(c, events) <==> exists i :: IsKept(c, events, qtype, name, i)
    ensures forall i :: IsKept(c, events, qtype, name, i) ==>
      Key(qtype, name) in After(c, events) && After(c, events)[Key(qtype, name)] == EntryOf(c, events[i])
  {
    hide Key, Adjusted, KeepFor;
    if events != [] {
      var n := |events| - 1;
      var init, last := events[..n], events[n];
      EntriesAreLatest(c, init, qtype, name);
      if !last.Flushed? { KeysAgree(last.qtype, last.name, qtype, name); }
      if Stores(c, last, qtype, name) {
        assert IsKept(c, events, qtype, name, n);
        forall i | IsLatest(c, events, qtype, name, i) ensures i == n {}
      } else if Evicts(last, qtype, name) {
        forall i | IsLatest(c, events, qtype, name, i) ensures EvictedSince(events, qtype, name, i) {
          assert i < n && Evicts(events[n], qtype, name);
        }
      } else if !last.Flushed? {
        forall i ensures IsKept(c, events, qtype, name, i) <==> IsKept(c, init, qtype, name, i) {
          SameHistory(c, init, last, events, qtype, name, i);
        }
      }
    }
  }

  lemma SameHistory(c: Limits, init: seq<Event>, last: Event, events: seq<Event>, qtype: U16, name: string, i: int)
    requires events == init + [last] && !last.Flushed?
    requires !Stores(c, last, qtype, name) && !Evicts(last, qtype, name)
    ensures IsKept(c, events, qtype, name, i) <==> IsKept(c, init, qtype, name, i)
  {
    hide Stores, Evicts;
    assert forall j :: 0 <= j < |init| ==> init[j] == events[j];
    assert events[|init|] == last;
    if j :| 0 <= i < j < |init| && Evicts(init[j], qtype, name) {
      assert Evicts(events[j], qtype, name);
    }
  }

  /** What a hit serves is made from the response of event `e` alone. */
  predicate ServedFrom(c: Limits, e: Event, now: int, cd: bool, hit: Msg) {
    && e.Response? && Replays(hit, e.msg) && hit.checkingDisabled == cd
    && now < e.now + KeepFor(c, e.msg)
    && Ttls(hit.answer) == AgedAll(ClampAll(c, Ttls(e.msg.answer)), e.now + KeepFor(c, e.msg) - now)
  }

  /** Same return code, same records up to TTLs and the OPT record; successes are complete and were checked. */
  predicate Replays(hit: Msg, m: Msg) {
    && hit.rcode == m.rcode && SameButTtl(hit.answer, m.answer)
    && hit.authority == m.authority && hit.extra == RemoveOpt(m.extra)
    && hit.truncated == m.truncated && (m.rcode == SUCCESS ==> !m.truncated && !m.checkingDisabled)
  }

  /** The question hits: its entry was kept and its time is not over. */
  ghost predicate Hits(c: Limits, events: seq<Event>, qtype: U16, name: string, now: int) {
    exists i :: IsKept(c, events, qtype, name, i) && now < events[i].now + KeepFor(c, events[i].msg)
  }

  /** Exactly the questions with a kept entry hit, and a hit is served from the latest kept response. */
  lemma {:induction false} HitsReplayLatest(c: Limits, events: seq<Event>, qtype: U16, name: string, now: int, cd: bool)
    ensures var found := Lookup(After(c, events), Key(qtype, name), now, cd);
      && (found.Some? <==> Hits(c, events, qtype, name, now))
      && forall i :: IsKept(c, events, qtype, name, i) && found.Some? ==> ServedFrom(c, events[i], now, cd, found.value)
  {
    var cache, key := After(c, events), Key(qtype, name);
    EntriesAreLatest(c, events, qtype, name);
    hide Key, After, IsKept, ServedFrom, Served, EntryOf;
    forall i | IsKept(c, events, qtype, name, i)
      ensures 0 <= i < |events| && events[i].Response?
      ensures key in cache && cache[key].expires == events[i].now + KeepFor(c, events[i].msg)
      ensures now < cache[key].expires ==>
        ServedFrom(c, events[i], now, cd, Served(cache[key].msg, cache[key].expires - now, cd))
    {
      KeptIsStored(c, events, qtype, name, i);
      EntryServes(c, events[i], now, cd);
    }
  }

  lemma KeptIsStored(c: Limits, events: seq<Event>, qtype: U16, name: string, i: int)
    requires IsKept(c, events, qtype, name, i)
    ensures 0 <= i < |events| && events[i].Response? && KeepFor(c, events[i].msg) > 0
  {
  }

  lemma EntryServes(c: Limits, e: Event, now: int, cd: bool)
    requires e.Response? && KeepFor(c, e.msg) > 0
    ensures EntryOf(c, e).expires == e.now + KeepFor(c, e.msg)
    ensures now < EntryOf(c, e).expires ==>
      ServedFrom(c, e, now, cd, Served(EntryOf(c, e).msg, EntryOf(c, e).expires - now, cd))
  {
    if EntryOf(c, e).expires <= now { return; }
    var stored := EntryOf(c, e).msg;
    TtlsOf(e.msg.answer, ClampAll(c, Ttls(e.msg.answer)));
    TtlsOf(stored.answer, AgedAll(Ttls(stored.answer), EntryOf(c, e).expires - now));
  }

  lemma TtlsOf(rs: seq<Record>, ttls: seq<U32>)
    requires |ttls| == |rs|
    ensures Ttls(WithTtls(rs, ttls)) == ttls && SameButTtl(WithTtls(rs, ttls), rs)
  {
  }

  // How long responses are served, in terms of the responses alone.

  /** The smallest TTL of the records after clamping, or 2^31 - 1 if that is smaller. */
  predicate IsSmallest(c: Limits, answer: seq<Record>, smallest: int) {
    && smallest <= 0x7fff_ffff && (forall r :: r in answer ==> smallest <= Clamp(c, r.ttl))
    && (smallest == 0x7fff_ffff || exists r :: r in answer && smallest == Clamp(c, r.ttl))
  }

  /**
    The response is served for `t` nanoseconds: a complete and checked success (return code 0) for its
    smallest TTL, or the negative caching time if it has no records; a name error (return code 3) for
    the negative caching time; anything else not at all.
   */
  ghost predicate Lives(c: Limits, m: Msg, t: int) {
    if m.rcode == 0 && !m.truncated && !m.checkingDisabled then
      if m.answer == [] then t == c.negative
      else exists smallest :: IsSmallest(c, m.answer, smallest) && t == smallest * 1_000_000_000
    else if m.rcode == 3 then t == c.negative
    else t == 0
  }

  lemma MinIsSmallest(c: Limits, answer: seq<Record>, smallest: int)
    ensures IsSmallest(c, answer, smallest) <==> smallest == MinTtl(ClampAll(c, Ttls(answer)))
  {
    var ttls := ClampAll(c, Ttls(answer));
    var m := MinTtl(ttls);
    assert forall i :: 0 <= i < |answer| ==> ttls[i] == Clamp(c, answer[i].ttl);
    forall r | r in answer ensures Clamp(c, r.ttl) in ttls {
      var i :| 0 <= i < |answer| && answer[i] == r;
      assert ttls[i] == Clamp(c, r.ttl);
    }
    forall t | t in ttls ensures exists r :: r in answer && Clamp(c, r.ttl) == t {
      var i :| 0 <= i < |ttls| && ttls[i] == t;
      assert answer[i] in answer;
    }
    assert IsSmallest(c, answer, m);
    hide MinTtl, ClampAll;
    if IsSmallest(c, answer, smallest) {
      assert smallest <= m && m <= smallest;
    }
  }

  lemma LivesAsKept(c: Limits, m: Msg, t: int)
    requires Lives(c, m, t)
    ensures if t > 0 then KeepFor(c, m) == t else KeepFor(c, m) <= 0
  {
    if m.rcode == SUCCESS && !m.truncated && !m.checkingDisabled && m.answer != [] {
      var smallest :| IsSmallest(c, m.answer, smallest) && t == smallest * 1_000_000_000;
      MinIsSmallest(c, m.answer, smallest);
      assert |Ttls(m.answer)| == |m.answer|;
    } else {
      assert m.answer == [] ==> Ttls(m.answer) == [];
    }
  }

  /** Every response has its time. */
  lemma LifetimeOf(c: Limits, m: Msg) returns (t: int)
    ensures Lives(c, m, t)
  {
    if m.rcode == 0 && !m.truncated && !m.checkingDisabled {
      var smallest: int := MinTtl(ClampAll(c, Ttls(m.answer)));
      MinIsSmallest(c, m.answer, smallest);
      t := if m.answer == [] then c.negative else smallest * 1_000_000_000;
    } else {
      t := if m.rcode == 3 then c.negative else 0;
    }
  }

  /** The event changes nothing about the question: it is about another one, or a response that is not served. */
  ghost predicate Passes(c: Limits, e: Event, qtype: U16, name: string) {
    !e.Flushed? && (IsAbout(e, qtype, name) ==> e.Response? && exists t :: t <= 0 && Lives(c, e.msg, t))
  }

  /**
    A response that has a time is served exactly until that time is over, as long as it is not replaced,
    evicted or flushed; responses without a time do not replace it.
   */
  lemma ServedExactlyWhile(c: Limits, events: seq<Event>, qtype: U16, name: string, i: nat, t: int, now: int, cd: bool)
    requires i < |events| && events[i].Response? && IsAbout(events[i], qtype, name)
    requires t > 0 && Lives(c, events[i].msg, t)
    requires forall j :: i < j < |events| ==> Passes(c, events[j], qtype, name)
    ensures Hits(c, events, qtype, name, now) <==> now - events[i].now < t
    ensures var found := Lookup(After(c, events), Key(qtype, name), now, cd);
      && (found.Some? <==> now - events[i].now < t)
      && (found.Some? ==> ServedFrom(c, events[i], now, cd, found.value))
  {
    LivesAsKept(c, events[i].msg, t);
    forall j | i < j < |events|
      ensures !Stores(c, events[j], qtype, name) && !events[j].Flushed? && !Evicts(events[j], qtype, name)
    {
      assert Passes(c, events[j], qtype, name);
      PassesByStoring(c, events[j], qtype, name);
    }
    assert IsKept(c, events, qtype, name, i);
    hide Lives, KeepFor, IsKept, Key, After, ServedFrom, Hits;
    KeptIsUnique(c, events, qtype, name, i, now);
    HitsReplayLatest(c, events, qtype, name, now, cd);
  }

  lemma PassesByStoring(c: Limits, e: Event, qtype: U16, name: string)
    requires Passes(c, e, qtype, name)
    ensures !Stores(c, e, qtype, name) && !Evicts(e, qtype, name)
  {
    if IsAbout(e, qtype, name) {
      var t :| t <= 0 && Lives(c, e.msg, t);
      LivesAsKept(c, e.msg, t);
    }
  }

  /** A response without a time, be it truncated, unchecked or of another return code, leaves the cache as it is. */
  lemma UnservedIsForgotten(c: Limits, events: seq<Event>, e: Event, t: int)
    requires e.Response? && t <= 0 && Lives(c, e.msg, t)
    ensures After(c, events + [e]) == After(c, events)
  {
    hide KeepFor, Lives;
    LivesAsKept(c, e.msg, t);
    AfterSnoc(c, events, e);
  }

  /** A successful hit counts down: its TTLs are the clamped ones less the smallest, plus the whole seconds left. */
  lemma SuccessCountsDown(c: Limits, e: Event, now: int, cd: bool, hit: Msg, r: nat, smallest: int)
    requires e.Response? && e.msg.rcode == 0 && e.now <= now && ServedFrom(c, e, now, cd, hit)
    requires r < |hit.answer| && IsSmallest(c, e.msg.answer, smallest)
    ensures hit.answer[r].ttl as int ==
      Clamp(c, e.msg.answer[r].ttl) as int - smallest + (smallest * 1_000_000_000 - (now - e.now)) / 1_000_000_000
  {
    var ttls := ClampAll(c, Ttls(e.msg.answer));
    MinIsSmallest(c, e.msg.answer, smallest);
    assert e.msg.answer != [] && |Ttls(e.msg.answer)| == |e.msg.answer|;
    assert KeepFor(c, e.msg) == smallest * SECOND;
    RaisedWhenServed(c, e, now, cd, hit, r);
    AgeingIsExact(ttls, r, e.now + KeepFor(c, e.msg) - now);
  }

  /** After a flush nothing hits until it is stored again. */
  lemma FlushForgets(c: Limits, events: seq<Event>, later: seq<Event>, qtype: U16, name: string, now: int)
    requires forall e :: e in later ==> !Stores(c, e, qtype, name)
    ensures !Hits(c, events + [Flushed] + later, qtype, name, now)
  {
    var all := events + [Flushed] + later;
    forall i ensures !IsLatest(c, all, qtype, name, i) {
      assert all[|events|] == Flushed;
      assert forall j :: |events| < j < |all| ==> all[j] in later;
    }
  }

  /** A successful answer is kept for no longer than its smallest clamped TTL, so no hit serves more than was stored. */
  lemma SuccessIsNeverRaised(c: Limits, e: Event, now: int, cd: bool, hit: Msg, r: nat)
    requires e.Response? && e.msg.rcode == SUCCESS && KeepFor(c, e.msg) > 0 && e.now <= now
    requires ServedFrom(c, e, now, cd, hit) && r < |hit.answer|
    ensures hit.answer[r].ttl <= Clamp(c, e.msg.answer[r].ttl)
    ensures 0 < e.now + KeepFor(c, e.msg) - now <= MinTtl(ClampAll(c, Ttls(e.msg.answer))) * SECOND
  {
    var ttls := ClampAll(c, Ttls(e.msg.answer));
    assert e.msg.answer != [];
    assert Ttls(hit.answer)[r] == hit.answer[r].ttl && ttls[r] == Clamp(c, e.msg.answer[r].ttl);
    AgeingIsExact(ttls, r, e.now + KeepFor(c, e.msg) - now);
  }

  /** At time `now` the hit on event `e` has a larger TTL in record `r` than was stored. */
  ghost predicate RaisedAt(c: Limits, events: seq<Event>, qtype: U16, name: string, e: Event,
                           now: int, cd: bool, r: nat)
  {
    e.Response? && e.now <= now && r < |e.msg.answer| &&
    var found := Lookup(After(c, events), Key(qtype, name), now, cd);
    found.Some? && r < |found.value.answer| && found.value.answer[r].ttl > Clamp(c, e.msg.answer[r].ttl)
  }

  /**
    An NXDOMAIN response is kept for the negative caching time, whatever its TTLs. Some hit on it raises
    the TTL of a record exactly when that time has more seconds than the smallest clamped TTL; only a
    TTL of 2^32 - 1 cannot be raised.
   */
  lemma NegativeIsRaisedIff(c: Limits, events: seq<Event>, qtype: U16, name: string, cd: bool, i: nat, r: nat)
    requires IsKept(c, events, qtype, name, i) && events[i].msg.rcode == NAME_ERROR && r < |events[i].msg.answer|
    ensures var ttls := ClampAll(c, Ttls(events[i].msg.answer));
      (exists now :: RaisedAt(c, events, qtype, name, events[i], now, cd, r))
      <==> c.negative / SECOND > MinTtl(ttls) && ttls[r] < U32_SIZE - 1
  {
    var e := events[i];
    var ttls := ClampAll(c, Ttls(e.msg.answer));
    RaisedIff(ttls, r, c.negative);
    forall now | e.now <= now
      ensures RaisedAt(c, events, qtype, name, e, now, cd, r)
         <==> var left := e.now + c.negative - now; left > 0 && AgedAll(ttls, left)[r] > ttls[r]
    {
      RaisedAtTime(c, events, qtype, name, cd, i, r, now);
    }
    if left: nat :| 0 < left <= c.negative && AgedAll(ttls, left)[r] > ttls[r] {
      var now := e.now + c.negative - left;
      assert RaisedAt(c, events, qtype, name, e, now, cd, r);
    }
  }

  lemma RaisedAtTime(c: Limits, events: seq<Event>, qtype: U16, name: string, cd: bool, i: nat, r: nat, now: int)
    requires IsKept(c, events, qtype, name, i) && events[i].msg.rcode == NAME_ERROR && r < |events[i].msg.answer|
    requires events[i].now <= now
    ensures var ttls, left := ClampAll(c, Ttls(events[i].msg.answer)), events[i].now + c.negative - now;
      RaisedAt(c, events, qtype, name, events[i], now, cd, r) <==> left > 0 && AgedAll(ttls, left)[r] > ttls[r]
  {
    hide Key, After, Lookup, AgedAll, ClampAll, KeepFor, Replays;
    var e := events[i];
    NegativeFound(c, events, qtype, name, cd, i, now);
    hide IsKept;
    var found := Lookup(After(c, events), Key(qtype, name), now, cd);
    if found.Some? {
      RaisedWhenServed(c, e, now, cd, found.value, r);
    }
  }

  lemma NegativeFound(c: Limits, events: seq<Event>, qtype: U16, name: string, cd: bool, i: nat, now: int)
    requires IsKept(c, events, qtype, name, i) && events[i].msg.rcode == NAME_ERROR
    ensures var found := Lookup(After(c, events), Key(qtype, name), now, cd);
      && KeepFor(c, events[i].msg) == c.negative
      && (found.Some? <==> events[i].now + c.negative - now > 0)
      && (found.Some? ==> ServedFrom(c, events[i], now, cd, found.value))
  {
    KeptIsStored(c, events, qtype, name, i);
    assert KeepFor(c, events[i].msg) == c.negative;
    hide Key, After, Lookup, IsKept, Hits, KeepFor, ServedFrom;
    HitsReplayLatest(c, events, qtype, name, now, cd);
    KeptIsUnique(c, events, qtype, name, i, now);
  }

  lemma RaisedWhenServed(c: Limits, e: Event, now: int, cd: bool, hit: Msg, r: nat)
    requires ServedFrom(c, e, now, cd, hit) && r < |e.msg.answer|
    ensures var ttls := ClampAll(c, Ttls(e.msg.answer));
      && |hit.answer| == |e.msg.answer| && now < e.now + KeepFor(c, e.msg)
      && hit.answer[r].ttl == AgedAll(ttls, e.now + KeepFor(c, e.msg) - now)[r]
      && ttls[r] == Clamp(c, e.msg.answer[r].ttl)
  {
    hide AgedAll, KeepFor;
    TtlAt(hit.answer, r);
    TtlAt(e.msg.answer, r);
  }

  lemma TtlAt(rs: seq<Record>, r: nat)
    ensures |Ttls(rs)| == |rs| && (r < |rs| ==> Ttls(rs)[r] == rs[r].ttl)
  {
  }

  lemma KeptIsUnique(c: Limits, events: seq<Event>, qtype: U16, name: string, i: nat, now: int)
    requires IsKept(c, events, qtype, name, i)
    ensures Hits(c, events, qtype, name, now) <==> now < events[i].now + KeepFor(c, events[i].msg)
  {
    forall j | IsKept(c, events, qtype, name, j) ensures j == i {
      assert !(i < j) && !(j < i);
    }
  }

  /** The resolver for one question, with the cache as a field and the history of what happened to it. */
  class CachingResolver {
    const c: Limits
    var cache: Cache
    ghost var events: seq<Event>

    ghost predicate Valid()
      reads this
    {
      cache == After(c, events)
    }

    constructor (c: Limits)
      ensures Valid() && this.c == c && events == []
    {
      this.c := c;
      cache, events := map[], [];
    }

    method FlushCaches()
      requires Valid()
      modifies this
      ensures Valid() && events == old(events) + [Flushed]
    {
      AfterSnoc(c, events, Flushed);
      cache, events := map[], events + [Flushed];
    }

    /** The cache drops an entry on its own account, for lack of room or because its time is over. */
    method Evict(qtype: U16, name: string)
      requires Valid()
      modifies this
      ensures Valid() && events == old(events) + [Evicted(qtype, name)]
    {
      AfterSnoc(c, events, Evicted(qtype, name));
      cache, events := cache - {Key(qtype, name)}, events + [Evicted(qtype, name)];
    }

    /** `putInCache`, after `adjustTTLs` has made `adjusted` and `ttl` from the response `m`. */
    method PutInCache(qtype: U16, name: string, key: string, adjusted: Msg, ttl: int, now: int, ghost m: Msg)
      requires Valid() && key == Key(qtype, name)
      requires adjusted == Adjusted(c, m) && ttl == Expiration(c, Ttls(m.answer))
      modifies this
      ensures Valid() && events == old(events) + [Response(qtype, name, m, now)]
    {
      AfterSnoc(c, events, Response(qtype, name, m, now));
      events := events + [Response(qtype, name, m, now)];
      var copy := adjusted.(extra := RemoveOpt(adjusted.extra));
      if adjusted.rcode == SUCCESS && !adjusted.truncated && !adjusted.checkingDisabled {
        cache := Put(cache, key, copy, ttl, now);
      } else if adjusted.rcode == NAME_ERROR {
        if c.negative > 0 {
          cache := Put(cache, key, copy, c.negative, now);
        }
      }
    }

    /** The headers of an answer are clamped in place. */
    method Adjust(m: Msg) returns (adjusted: Msg, ttl: int)
      ensures adjusted == Adjusted(c, m) && ttl == Expiration(c, Ttls(m.answer))
    {
      var headers := new U32[|m.answer|](i requires 0 <= i < |m.answer| => m.answer[i].ttl);
      assert headers[..] == Ttls(m.answer);
      ttl := AdjustTtls(c, headers);
      adjusted := m.(answer := WithTtls(m.answer, headers[..]));
    }

    /** The headers of a cached answer are aged in place. */
    method Age(m: Msg, remaining: nat, cd: bool) returns (served: Msg)
      ensures served == Served(m, remaining, cd)
    {
      var headers := new U32[|m.answer|](i requires 0 <= i < |m.answer| => m.answer[i].ttl);
      assert headers[..] == Ttls(m.answer);
      SetTtlInCachedResponse(headers, remaining);
      served := m.(checkingDisabled := cd, answer := WithTtls(m.answer, headers[..]));
    }

    /** A response that another instance shared over Redis. */
    method StoreShared(qtype: U16, name: string, m: Msg, now: int)
      requires Valid()
      modifies this
      ensures Valid() && events == old(events) + [Response(qtype, name, m, now)]
    {
      var key := GenerateCacheKey(qtype, name);
      var adjusted, ttl := Adjust(m);
      PutInCache(qtype, name, key, adjusted, ttl, now, m);
    }

    /**
      `Resolve`: a question with a kept entry is served from the latest kept response for its type and
      its name up to case; any other is passed on, and what the next resolver returns becomes part of
      the history. `response` is `None` if the next resolver fails.
     */
    method Resolve(qtype: U16, name: string, cd: bool, response: Option<Msg>, now: int) returns (r: Option<Msg>)
      requires Valid()
      modifies this
      ensures Valid()
      ensures Hits(c, old(events), qtype, name, now) ==>
        && events == old(events) && r.Some?
        && forall i :: IsKept(c, old(events), qtype, name, i) ==> ServedFrom(c, old(events)[i], now, cd, r.value)
      ensures !Hits(c, old(events), qtype, name, now) ==>
        && events == old(events) + (if response.Some? then [Response(qtype, name, response.value, now)] else [])
        && (r.Some? <==> response.Some?)
        && (r.Some? ==> SameButTtl(r.value.answer, response.value.answer) &&
                        Ttls(r.value.answer) == ClampAll(c, Ttls(response.value.answer)) &&
                        r.value == response.value.(answer := r.value.answer))
    {
      hide Hits, IsKept, ServedFrom;
      var key := GenerateCacheKey(qtype, name);
      HitsReplayLatest(c, events, qtype, name, now, cd);
      var hit := Get(cache, key, now);
      if hit.Some? {
        var (m, left) := hit.value;
        var served := Age(m, left, cd);
        return Some(served);
      }
      if response.None? {
        return None;
      }
      var adjusted, ttl := Adjust(response.value);
      TtlsOf(response.value.answer, ClampAll(c, Ttls(response.value.answer)));
      PutInCache(qtype, name, key, adjusted, ttl, now, response.value);
      return Some(adjusted);
    }
  }
}
