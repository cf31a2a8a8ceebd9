/**
  Racing upstreams: `resolver/parallel_best_resolver.go` over a pool of resolvers, and `raceClients`
  of `resolver/upstream_resolver.go` over TCP and UDP.
 */
module Races {
  import opened Wrappers
  import opened Sequences

  /** A resolver of the pool, by its identity. */
  type Id = nat

  const ERROR_WINDOW := 60.0
  const MINUTE := 60_000_000_000
  const HOUR := 3_600_000_000_000

  /** The weight of a resolver whose last error was `since` nanoseconds ago, as the code computes it. */
  function Weight(since: int): int {
    if since < HOUR then
      var minutes := since as real / MINUTE as real;
      var w := ERROR_WINDOW - (ERROR_WINDOW - minutes);
      (if w < 1.0 then 1.0 else w).Floor
    else ERROR_WINDOW.Floor
  }

  lemma WeightInRange(since: int)
    ensures 1 <= Weight(since) <= 60
  {
    if since < HOUR {
      var minutes := since as real / MINUTE as real;
      assert since as real <= HOUR as real;
      assert minutes <= 60.0;
    }
  }

  /** The weight is the number of whole minutes since the last error, from 1, and 60 after an hour. */
  lemma WeightIsMinutes(since: nat)
    ensures Weight(since) == if since >= HOUR then 60 else if since < MINUTE then 1 else since / MINUTE
  {
    if since < HOUR {
      var minutes := since as real / MINUTE as real;
      var q, r := since / MINUTE, since % MINUTE;
      assert since == q * MINUTE + r;
      assert since as real == q as real * MINUTE as real + r as real;
      assert minutes == q as real + r as real / MINUTE as real;
      assert 0.0 <= r as real / MINUTE as real < 1.0;
      assert minutes.Floor == q;
    }
  }

  /** `weightedRandom`: some resolver that is not excluded; which one is left to chance. */
  method WeightedRandom(pool: seq<Id>, excluded: seq<Id>, since: Id -> int) returns (pick: Id)
    requires exists r :: r in pool && r !in excluded
    ensures pick in pool && pick !in excluded
  {
    var choices: seq<(Id, int)> := [];
    for i := 0 to |pool|
      invariant forall c :: c in choices ==> c.0 in pool && c.0 !in excluded && 1 <= c.1 <= 60
      invariant forall j :: 0 <= j < i && pool[j] !in excluded ==> (pool[j], Weight(since(pool[j]))) in choices
    {
      if pool[i] !in excluded {
        WeightInRange(since(pool[i]));
        choices := choices + [(pool[i], Weight(since(pool[i])))];
      }
    }
    ghost var r :| r in pool && r !in excluded;
    ghost var j :| 0 <= j < |pool| && pool[j] == r;
    assert (pool[j], Weight(since(pool[j]))) in choices;
    var k :| 0 <= k < |choices|;
    pick := choices[k].0;
  }

  /** `pickRandom`: different resolvers of the pool. */
  method PickRandom(pool: seq<Id>, count: nat, since: Id -> int) returns (chosen: seq<Id>)
    requires NoDuplicates(pool) && count <= |pool|
    ensures |chosen| == count && NoDuplicates(chosen) && forall r :: r in chosen ==> r in pool
  {
    chosen := [];
    while |chosen| < count
      invariant |chosen| <= count && NoDuplicates(chosen) && forall r :: r in chosen ==> r in pool
    {
      SomeoneLeft(pool, chosen);
      var pick := WeightedRandom(pool, chosen, since);
      chosen := chosen + [pick];
    }
  }

  /** What a resolver returns: a response, or a failure. */
  type Answers = Id -> Option<nat>

  predicate IsFirstSuccess(arrivals: seq<Id>, answers: Answers, k: int) {
    0 <= k < |arrivals| && answers(arrivals[k]).Some? && forall j :: 0 <= j < k ==> answers(arrivals[j]).None?
  }

  /** `evaluateResponses`: takes results in the order of arrival and stops at the first success. */
  method EvaluateResponses(arrivals: seq<Id>, answers: Answers) returns (response: Option<nat>)
    ensures response.None? <==> forall r :: r in arrivals ==> answers(r).None?
    ensures response.Some? ==> exists k :: IsFirstSuccess(arrivals, answers, k) && answers(arrivals[k]) == response
  {
    var failed := 0;
    while failed < |arrivals|
      invariant failed <= |arrivals| && forall j :: 0 <= j < failed ==> answers(arrivals[j]).None?
    {
      var result := answers(arrivals[failed]);
      if result.Some? {
        assert IsFirstSuccess(arrivals, answers, failed);
        return result;
      }
      failed := failed + 1;
    }
    return None;
  }

  /**
    `Resolve`, for a pool of distinct resolvers, some arrival order and either strategy: two at once
    (`parallel_best`), or one and then another (`random`).
   */
  method Resolve(pool: seq<Id>, random: bool, since: Id -> int, answers: Answers)
    returns (response: Option<nat>, tried: seq<Id>)
    requires pool != [] && NoDuplicates(pool)
    ensures NoDuplicates(tried) && tried != [] && forall r :: r in tried ==> r in pool
    ensures response.None? ==> (forall r :: r in tried ==> answers(r).None?) && (|pool| >= 2 ==> |tried| == 2)
    ensures response.Some? ==> exists r :: r in tried && answers(r) == response
    ensures |pool| == 1 ==> tried == pool && response == answers(pool[0])
    ensures |pool| >= 2 && !random ==> |tried| == 2
    ensures |pool| >= 2 && random ==>
      |tried| == (if answers(tried[0]).Some? then 1 else 2) && response == answers(tried[|tried| - 1])
  {
    if |pool| == 1 {
      return answers(pool[0]), [pool[0]];
    }
    var chosen := PickRandom(pool, if random then 1 else 2, since);
    var arrivals := ArrivalOrder(chosen);
    response := EvaluateResponses(arrivals, answers);
    tried := chosen;
    if response.None? && random {
      SomeoneLeft(pool, chosen);
      var other := WeightedRandom(pool, chosen, since);
      tried := chosen + [other];
      response := answers(other);
    }
  }

  /** The results of concurrent requests come in any order. */
  method ArrivalOrder(chosen: seq<Id>) returns (arrivals: seq<Id>)
    ensures multiset(arrivals) == multiset(chosen) && forall r :: r in arrivals <==> r in chosen
  {
    arrivals := chosen;
    if |chosen| == 2 {
      if * {
        arrivals := [chosen[1], chosen[0]];
        assert chosen == [chosen[0], chosen[1]];
      }
    }
  }

  // TCP against UDP.

  datatype Protocol = Tcp | Udp

  /** A result of one exchange; a server failure counts as an error. */
  datatype Exchange = Reply(proto: Protocol, truncated: bool, id: nat) | Failed(proto: Protocol, error: nat)

  predicate Complete(e: Exchange) {
    e.Reply? && !e.truncated
  }

  /** `raceClients`, on the two results in their order of arrival. */
  method RaceClients(first: Exchange, second: Exchange, protocol: Protocol) returns (r: Exchange)
    requires first.proto != second.proto
    ensures r == first || r == second
    ensures Complete(first) || Complete(second) ==> Complete(r)
    ensures r.Failed? <==> first.Failed? && second.Failed?
    ensures r.Failed? ==> r.proto == protocol
    ensures Complete(first) || (first.Reply? && !Complete(second)) ==> r == first
    ensures !Complete(first) && (Complete(second) || (first.Failed? && second.Reply?)) ==> r == second
  {
    if Complete(first) {
      return first;
    }
    if Complete(second) {
      return second;
    }
    if first.Failed? && second.Failed? {
      return if first.proto == protocol then first else second;
    }
    return if first.Reply? then first else second;
  }
}
