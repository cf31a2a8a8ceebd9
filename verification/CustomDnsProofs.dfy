/** When resolution through the custom mapping fails, and what its answers look like. */
module CustomDnsProofs {
  import opened Text
  import opened Sequences
  import opened Wrappers
  import opened CustomDns

  /** Name `name` has a mapped CNAME to `t`. */
  predicate Follows(c: Config, name: string, t: string) {
    exists e :: e in Found(c, name) && e.CnameEntry? && TrimDot(e.target) == t
  }

  /** A chain of CNAME targets that starts at `name`. */
  predicate Chain(c: Config, name: string, ts: seq<string>)
    decreases |ts|
  {
    ts == [] || (Follows(c, name, ts[0]) && Chain(c, Fqdn(ts[0]), ts[1..]))
  }

  function End(name: string, ts: seq<string>): string {
    if ts == [] then name else Fqdn(ts[|ts| - 1])
  }

  /** The mapping has nothing to say about the question, so the next resolver is asked. */
  predicate Delegates(c: Config, q: Question) {
    || !Mapped(c, q.name)
    || (!c.filterUnmappedTypes
        && forall e :: e in Found(c, q.name) ==> !e.CnameEntry? && !e.UnsupportedEntry? && Plain(e, q) == [])
  }

  /** What makes a single hop fail, having followed `seen`. */
  predicate Fault(c: Config, q: Question, seen: seq<string>) {
    || UnsupportedEntry in Found(c, q.name)
    || (q.qtype != CNAME && exists t :: t in seen && Follows(c, q.name, t))
    || (Delegates(c, q) && c.next(q).Err?)
  }

  /** A chain from the question, of targets not followed before, that ends in a faulty hop. */
  ghost predicate BadChain(c: Config, q: Question, visited: seq<string>, ts: seq<string>) {
    && Chain(c, q.name, ts)
    && (q.qtype == CNAME ==> ts == [])
    && NoDuplicates(visited + ts)
    && Fault(c, Question(End(q.name, ts), q.qtype), visited + ts)
  }

  ghost predicate EntryFails(c: Config, q: Question, visited: seq<string>, e: Entry)
    requires VisitedOk(c, visited)
  {
    EntriesOk(c, [e]) && ProcessEntry(c, q, visited, e).Err?
  }

  ghost predicate EntrySilent(c: Config, q: Question, visited: seq<string>, e: Entry)
    requires VisitedOk(c, visited)
  {
    EntriesOk(c, [e]) && ProcessEntry(c, q, visited, e) == Ok([])
  }

  lemma {:induction false} EntriesFail(c: Config, q: Question, visited: seq<string>, entries: seq<Entry>)
    requires VisitedOk(c, visited) && EntriesOk(c, entries)
    ensures ProcessEntries(c, q, visited, entries).Err? <==> exists e :: e in entries && EntryFails(c, q, visited, e)
    ensures ProcessEntries(c, q, visited, entries) == Ok([])
       <==> forall e :: e in entries ==> EntrySilent(c, q, visited, e)
    decreases |entries|
  {
    if entries != [] {
      var head, rest := entries[0], entries[1..];
      assert entries == [head] + rest;
      assert forall e :: e in entries <==> e == head || e in rest;
      EntriesFail(c, q, visited, rest);
      var first, others := ProcessEntry(c, q, visited, head), ProcessEntries(c, q, visited, rest);
      assert EntryFails(c, q, visited, head) <==> first.Err?;
      assert EntrySilent(c, q, visited, head) <==> first == Ok([]);
      if first.Ok? && others.Ok? {
        assert |first.value + others.value| == |first.value| + |others.value|;
      }
    }
  }

  lemma FoundIsOk(c: Config, name: string, e: Entry)
    requires e in Found(c, name)
    ensures EntriesOk(c, [e])
  {
    FoundOk(c, name);
  }

  /** The request for CNAME target `t`, made on behalf of `q`, fails. */
  ghost predicate TargetFails(c: Config, q: Question, visited: seq<string>, t: string)
    requires VisitedOk(c, visited)
  {
    && q.qtype != CNAME && t !in visited && Follows(c, q.name, t)
    && VisitedOk(c, visited + [t]) && Resolve(c, Question(Fqdn(t), q.qtype), visited + [t]).Err?
  }

  /** One hop: it fails by its own fault or because a target it follows fails. */
  lemma HopFails(c: Config, q: Question, visited: seq<string>)
    requires VisitedOk(c, visited)
    ensures Resolve(c, q, visited).Err? <==> Fault(c, q, visited) || exists t :: TargetFails(c, q, visited, t)
  {
    var entries := Found(c, q.name);
    FoundOk(c, q.name);
    EntriesFail(c, q, visited, entries);
    forall e | e in entries ensures EntriesOk(c, [e]) { FoundIsOk(c, q.name, e); }
    forall e | e in entries
      ensures EntryFails(c, q, visited, e) <==> EntryFault(c, q, visited, e)
      ensures EntrySilent(c, q, visited, e) <==> !e.CnameEntry? && !e.UnsupportedEntry? && Plain(e, q) == []
    {
      EntryFaults(c, q, visited, e);
    }
    FaultyEntries(c, q, visited);
  }

  /** An entry that makes its hop fail: unsupported, looping, or leading to a failing target. */
  ghost predicate EntryFault(c: Config, q: Question, visited: seq<string>, e: Entry)
    requires VisitedOk(c, visited)
  {
    || e.UnsupportedEntry?
    || (e.CnameEntry? && q.qtype != CNAME &&
        (TrimDot(e.target) in visited || TargetFails(c, q, visited, TrimDot(e.target))))
  }

  lemma EntryFaults(c: Config, q: Question, visited: seq<string>, e: Entry)
    requires VisitedOk(c, visited) && e in Found(c, q.name) && EntriesOk(c, [e])
    ensures EntryFails(c, q, visited, e) <==> EntryFault(c, q, visited, e)
    ensures EntrySilent(c, q, visited, e) <==> !e.CnameEntry? && !e.UnsupportedEntry? && Plain(e, q) == []
  {
    hide Resolve, Found, Targets, FollowCname, VisitedOk, Plain, TargetFails;
    if e.CnameEntry? {
      assert e in [e];
      CnameFaults(c, q, visited, e);
    }
  }

  lemma CnameFaults(c: Config, q: Question, visited: seq<string>, e: Entry)
    requires VisitedOk(c, visited) && e in Found(c, q.name) && e.CnameEntry? && TrimDot(e.target) in Targets(c)
    ensures var r, t := FollowCname(c, q, visited, e.target, e.ttl), TrimDot(e.target);
      && r != Ok([])
      && (r.Err? <==> q.qtype != CNAME && (t in visited || TargetFails(c, q, visited, t)))
  {
    hide Resolve, Found, Targets, Unvisited;
    var t := TrimDot(e.target);
    assert Follows(c, q.name, t);
    if t !in visited {
      VisitTarget(c, visited, t);
    }
  }

  lemma FaultyEntries(c: Config, q: Question, visited: seq<string>)
    requires VisitedOk(c, visited)
    ensures (exists e :: e in Found(c, q.name) && EntryFault(c, q, visited, e))
       <==> (|| UnsupportedEntry in Found(c, q.name)
             || (q.qtype != CNAME && exists t :: t in visited && Follows(c, q.name, t))
             || exists t :: TargetFails(c, q, visited, t))
  {
    var entries := Found(c, q.name);
    if e :| e in entries && EntryFault(c, q, visited, e) && e.CnameEntry? {
      assert Follows(c, q.name, TrimDot(e.target));
    }
    if t :| (t in visited || TargetFails(c, q, visited, t)) && Follows(c, q.name, t) && q.qtype != CNAME {
      var e :| e in entries && e.CnameEntry? && TrimDot(e.target) == t;
      assert EntryFault(c, q, visited, e);
    }
    if UnsupportedEntry in entries {
      assert EntryFault(c, q, visited, UnsupportedEntry);
    }
  }

  lemma ChainCons(c: Config, name: string, t: string, rest: seq<string>)
    ensures Chain(c, name, [t] + rest) <==> Follows(c, name, t) && Chain(c, Fqdn(t), rest)
    ensures End(name, [t] + rest) == End(Fqdn(t), rest)
  {
    var ts := [t] + rest;
    assert ts[0] == t && ts[1..] == rest;
    assert rest != [] ==> ts[|ts| - 1] == rest[|rest| - 1];
  }

  /** A bad chain with a first target is a bad chain of that target's request. */
  lemma BadChainCons(c: Config, q: Question, visited: seq<string>, t: string, rest: seq<string>)
    ensures BadChain(c, q, visited, [t] + rest)
       <==> Follows(c, q.name, t) && q.qtype != CNAME && BadChain(c, Question(Fqdn(t), q.qtype), visited + [t], rest)
  {
    ChainCons(c, q.name, t, rest);
    assert visited + ([t] + rest) == visited + [t] + rest;
  }

  lemma {:induction false} FailsOnlyOnBadChain(c: Config, q: Question, visited: seq<string>) returns (ts: seq<string>)
    requires VisitedOk(c, visited) && Resolve(c, q, visited).Err?
    ensures BadChain(c, q, visited, ts)
    decreases Unvisited(c, visited)
  {
    HopFails(c, q, visited);
    if Fault(c, q, visited) {
      ts := [];
      assert visited + [] == visited;
    } else {
      var t :| TargetFails(c, q, visited, t);
      FollowsTarget(c, q.name, t);
      VisitTarget(c, visited, t);
      var rest := FailsOnlyOnBadChain(c, Question(Fqdn(t), q.qtype), visited + [t]);
      BadChainCons(c, q, visited, t, rest);
      ts := [t] + rest;
    }
  }

  lemma NextIsNew(visited: seq<string>, t: string, rest: seq<string>)
    requires NoDuplicates(visited + [t] + rest)
    ensures t !in visited && NoDuplicates(visited + [t])
  {
    var s := visited + [t] + rest;
    assert s[|visited|] == t;
    forall i | 0 <= i < |visited| ensures visited[i] != t { assert s[i] == visited[i]; }
    assert forall i :: 0 <= i <= |visited| ==> s[i] == (visited + [t])[i];
  }

  lemma FollowsTarget(c: Config, name: string, t: string)
    requires Follows(c, name, t)
    ensures t in Targets(c)
  {
    FoundOk(c, name);
  }

  lemma {:induction false} BadChainFails(c: Config, q: Question, visited: seq<string>, ts: seq<string>)
    requires VisitedOk(c, visited) && BadChain(c, q, visited, ts)
    ensures Resolve(c, q, visited).Err?
    decreases |ts|
  {
    if ts == [] {
      assert visited + [] == visited;
      HopFails(c, q, visited);
    } else {
      var t, rest := ts[0], ts[1..];
      HeadTail(ts);
      BadChainCons(c, q, visited, t, rest);
      assert VisitedOk(c, visited + [t]) && t !in visited by {
        FollowsTarget(c, q.name, t);
        NextIsNew(visited, t, rest);
        VisitTarget(c, visited, t);
      }
      BadChainFails(c, Question(Fqdn(t), q.qtype), visited + [t], rest);
      assert TargetFails(c, q, visited, t);
      HopFails(c, q, visited);
    }
  }

  /** Resolution fails exactly when some chain of distinct targets from the question ends in a faulty hop. */
  lemma FailsIff(c: Config, q: Question)
    ensures VisitedOk(c, [])
    ensures Resolve(c, q, []).Err? <==> exists ts :: BadChain(c, q, [], ts)
  {
    if Resolve(c, q, []).Err? {
      var ts := FailsOnlyOnBadChain(c, q, []);
    }
    if ts :| BadChain(c, q, [], ts) {
      BadChainFails(c, q, [], ts);
    }
  }

  lemma {:induction false} ChainSnoc(c: Config, name: string, ts: seq<string>, t: string)
    ensures Chain(c, name, ts + [t]) <==> Chain(c, name, ts) && Follows(c, End(name, ts), t)
    decreases |ts|
  {
    if ts == [] {
      assert ts + [t] == [t] + [];
      ChainCons(c, name, t, []);
    } else {
      var head, rest := ts[0], ts[1..];
      ChainSnoc(c, Fqdn(head), rest, t);
      assert ts == [head] + rest && ts + [t] == [head] + (rest + [t]);
      ChainCons(c, name, head, rest);
      ChainCons(c, name, head, rest + [t]);
    }
  }

  lemma {:induction false} ChainPrefix(c: Config, name: string, ts: seq<string>, k: nat)
    requires Chain(c, name, ts) && k < |ts|
    ensures Chain(c, name, ts[..k]) && Follows(c, End(name, ts[..k]), ts[k])
    decreases |ts|
  {
    var head, rest := ts[0], ts[1..];
    HeadTail(ts);
    ChainCons(c, name, head, rest);
    if k > 0 {
      TakeCons(ts, k);
      ChainPrefix(c, Fqdn(head), rest, k - 1);
      ChainCons(c, name, head, rest[..k - 1]);
    }
  }

  lemma {:induction false} FirstRepeat(ts: seq<string>) returns (k: nat)
    requires !NoDuplicates(ts)
    ensures k < |ts| && NoDuplicates(ts[..k]) && ts[k] in ts[..k]
  {
    var n := |ts| - 1;
    if NoDuplicates(ts[..n]) {
      k := n;
      var i, j :| 0 <= i < j < |ts| && ts[i] == ts[j];
      assert j == n && ts[..n][i] == ts[n];
    } else {
      k := FirstRepeat(ts[..n]);
      assert ts[..n][..k] == ts[..k];
    }
  }

  /**
    With supported records only and a next resolver that never fails, resolution fails exactly when
    a chain followed for a question other than CNAME comes back to a target.
   */
  lemma FailsOnlyOnLoops(c: Config, q: Question)
    requires forall d :: d in c.mapping ==> UnsupportedEntry !in c.mapping[d]
    requires forall r :: c.next(r).Ok?
    ensures VisitedOk(c, [])
    ensures Resolve(c, q, []).Err? <==> q.qtype != CNAME && exists ts :: Chain(c, q.name, ts) && !NoDuplicates(ts)
  {
    if Resolve(c, q, []).Err? {
      var ts := FailsOnlyOnBadChain(c, q, []);
      var loop := LoopOfBadChain(c, q, ts);
    }
    if ts :| q.qtype != CNAME && Chain(c, q.name, ts) && !NoDuplicates(ts) {
      BadChainOfLoop(c, q, ts);
    }
  }

  lemma LoopOfBadChain(c: Config, q: Question, ts: seq<string>) returns (loop: seq<string>)
    requires forall d :: d in c.mapping ==> UnsupportedEntry !in c.mapping[d]
    requires forall r :: c.next(r).Ok?
    requires BadChain(c, q, [], ts)
    ensures q.qtype != CNAME && Chain(c, q.name, loop) && !NoDuplicates(loop)
  {
    assert [] + ts == ts;
    var t :| t in ts && Follows(c, End(q.name, ts), t);
    ChainSnoc(c, q.name, ts, t);
    RepeatAtEnd(ts, t);
    loop := ts + [t];
  }

  lemma BadChainOfLoop(c: Config, q: Question, ts: seq<string>)
    requires q.qtype != CNAME && Chain(c, q.name, ts) && !NoDuplicates(ts)
    ensures Resolve(c, q, []).Err?
  {
    var k := FirstRepeat(ts);
    ChainPrefix(c, q.name, ts, k);
    assert [] + ts[..k] == ts[..k];
    assert BadChain(c, q, [], ts[..k]);
    BadChainFails(c, q, [], ts[..k]);
  }

  lemma RepeatAtEnd(ts: seq<string>, t: string)
    requires t in ts
    ensures !NoDuplicates(ts + [t])
  {
    var i :| 0 <= i < |ts| && ts[i] == t;
    assert (ts + [t])[i] == (ts + [t])[|ts|];
  }

  // Answers are linked.

  /** The name for which the target of a CNAME record is looked up. */
  function Followed(target: string): string {
    Fqdn(TrimDot(target))
  }

  /** The record belongs to the name under which the target of CNAME `via` is looked up. */
  predicate OwnedBy(via: RR, rr: RR) {
    via.data.Cname? && rr.owner == Followed(via.data.target)
  }

  /** The record is what the next resolver returns for the target of CNAME `via`. */
  predicate DelegatedBy(c: Config, qtype: QType, via: RR, rr: RR) {
    via.data.Cname? &&
    var next := c.next(Question(Followed(via.data.target), qtype));
    next.Ok? && rr in next.value
  }

  /** Record `i` belongs to the question, or a CNAME before it in the answer leads to it. */
  ghost predicate LinkedAt(c: Config, q: Question, answer: seq<RR>, i: nat)
    requires i < |answer|
  {
    || answer[i].owner == q.name
    || exists j :: 0 <= j < i && (OwnedBy(answer[j], answer[i]) || DelegatedBy(c, q.qtype, answer[j], answer[i]))
  }

  ghost predicate Linked(c: Config, q: Question, answer: seq<RR>) {
    forall i :: 0 <= i < |answer| ==> LinkedAt(c, q, answer, i)
  }

  /** A CNAME record is printed with the final dot; the name looked up is the same with or without it. */
  lemma FollowedOfFqdn(target: string)
    ensures Followed(Fqdn(target)) == Followed(target)
  {
    if !HasSuffix(target, ".") {
      assert target + "." == target + ['.'];
      assert TrimDot(Fqdn(target)) == target == TrimDot(target);
    }
  }

  /** The name looked up is the one that the record shows unless two dots end it. */
  lemma FqdnRestores(t: string)
    ensures Followed(t) == Fqdn(t) <==> !HasSuffix(t, "..")
  {
    assert |t| >= 2 ==> t[|t| - 1..] == t[|t| - 2..][1..];
    if HasSuffix(t, ".") {
      var s := t[..|t| - 1];
      assert t == s + ".";
      if HasSuffix(s, ".") {
        assert t[|t| - 2..] == "..";
      } else if |t| >= 2 {
        assert t[|t| - 2..][0] == s[|s| - 1] && s[|s| - 1..] == [s[|s| - 1]];
      }
    }
  }

  lemma LinkedConcat(c: Config, q: Question, a: seq<RR>, b: seq<RR>)
    requires Linked(c, q, a) && Linked(c, q, b)
    ensures Linked(c, q, a + b)
  {
    hide OwnedBy, DelegatedBy;
    var all := a + b;
    forall i | 0 <= i < |all| ensures LinkedAt(c, q, all, i) {
      if i < |a| {
        assert LinkedAt(c, q, a, i);
        assert forall j :: 0 <= j < i ==> all[j] == a[j];
      } else {
        assert LinkedAt(c, q, b, i - |a|);
        if all[i].owner != q.name {
          var j :| 0 <= j < i - |a| && (OwnedBy(b[j], b[i - |a|]) || DelegatedBy(c, q.qtype, b[j], b[i - |a|]));
          assert all[j + |a|] == b[j];
        }
      }
    }
  }

  /** What is linked to the target of a CNAME, or delegated for it, is linked behind that CNAME. */
  lemma LinkedBehindCname(c: Config, q: Question, cname: RR, rest: seq<RR>)
    requires cname.owner == q.name && cname.data.Cname?
    requires var t := Question(Followed(cname.data.target), q.qtype);
      Linked(c, t, rest) || c.next(t) == Ok(rest)
    ensures Linked(c, q, [cname] + rest)
  {
    var all := [cname] + rest;
    var t := Question(Followed(cname.data.target), q.qtype);
    forall i | 0 < i < |all| ensures LinkedAt(c, q, all, i) {
      assert all[0] == cname && all[i] == rest[i - 1];
      if c.next(t) == Ok(rest) {
        assert DelegatedBy(c, q.qtype, cname, all[i]);
      } else {
        LinkShifts(c, q, cname, rest, i);
      }
    }
  }

  lemma LinkShifts(c: Config, q: Question, cname: RR, rest: seq<RR>, i: nat)
    requires cname.data.Cname? && 0 < i <= |rest|
    requires Linked(c, Question(Followed(cname.data.target), q.qtype), rest)
    ensures LinkedAt(c, q, [cname] + rest, i)
  {
    hide DelegatedBy, Followed;
    var all := [cname] + rest;
    var t := Question(Followed(cname.data.target), q.qtype);
    assert LinkedAt(c, t, rest, i - 1);
    assert all[0] == cname && all[i] == rest[i - 1];
    if all[i].owner == t.name {
      assert OwnedBy(all[0], all[i]);
    } else {
      var j :| 0 <= j < i - 1 && (OwnedBy(rest[j], rest[i - 1]) || DelegatedBy(c, q.qtype, rest[j], rest[i - 1]));
      assert all[j + 1] == rest[j];
    }
  }

  /**
    Every record of an answer from the mapping is linked to the question through the answer itself:
    it is owned by the question name, or a CNAME before it in the same answer leads to its owner,
    or it is what the next resolver returns for the target of such a CNAME.
   */
  lemma {:induction false} AnswersAreLinked(c: Config, q: Question, visited: seq<string>)
    requires VisitedOk(c, visited)
    ensures var r := Resolve(c, q, visited); r.Ok? && r.value.custom ==> Linked(c, q, r.value.answer)
    decreases Unvisited(c, visited), 2, 0
  {
    hide Linked;
    if Mapped(c, q.name) {
      FoundOk(c, q.name);
      EntriesAreLinked(c, q, visited, Found(c, q.name));
    }
  }

  lemma {:induction false} EntriesAreLinked(c: Config, q: Question, visited: seq<string>, entries: seq<Entry>)
    requires VisitedOk(c, visited) && EntriesOk(c, entries)
    ensures var r := ProcessEntries(c, q, visited, entries); r.Ok? ==> Linked(c, q, r.value)
    decreases Unvisited(c, visited), 1, |entries|
  {
    if entries != [] && ProcessEntries(c, q, visited, entries).Ok? {
      var head, rest := entries[0], entries[1..];
      EntriesAreLinked(c, q, visited, rest);
      if head.CnameEntry? {
        CnameIsLinked(c, q, visited, head.target, head.ttl);
      }
      var first, others := ProcessEntry(c, q, visited, head), ProcessEntries(c, q, visited, rest);
      assert Linked(c, q, first.value);
      LinkedConcat(c, q, first.value, others.value);
    }
  }

  lemma {:induction false} CnameIsLinked(c: Config, q: Question, visited: seq<string>, target: string, ttl: nat)
    requires VisitedOk(c, visited) && TrimDot(target) in Targets(c)
    ensures var r := FollowCname(c, q, visited, target, ttl); r.Ok? ==> Linked(c, q, r.value)
    decreases Unvisited(c, visited), 0, 0
  {
    hide Resolve, Targets, Linked;
    var t, cname := TrimDot(target), RR(q.name, ttl, Cname(Fqdn(target)));
    var r := FollowCname(c, q, visited, target, ttl);
    if q.qtype == CNAME {
      LoneCname(c, q, cname);
    } else if r.Ok? {
      VisitTarget(c, visited, t);
      var tq := Question(Fqdn(t), q.qtype);
      var response := Resolve(c, tq, visited + [t]);
      assert r.value == [cname] + response.value.answer;
      hide FollowCname, VisitedOk, Unvisited;
      FollowedOfFqdn(target);
      AnswersAreLinked(c, tq, visited + [t]);
      UncustomIsNext(c, tq, visited + [t]);
      LinkedBehindCname(c, q, cname, response.value.answer);
    }
  }

  lemma LoneCname(c: Config, q: Question, cname: RR)
    requires cname.owner == q.name
    ensures Linked(c, q, [cname])
  {
  }

  lemma UncustomIsNext(c: Config, q: Question, visited: seq<string>)
    requires VisitedOk(c, visited)
    ensures var r := Resolve(c, q, visited); r.Ok? && !r.value.custom ==> c.next(q) == Ok(r.value.answer)
  {
    hide ProcessEntries, Found, Targets;
  }

  /** The strict form of a link: the CNAME before the record shows the owner of the record itself. */
  ghost predicate ShownAt(c: Config, q: Question, answer: seq<RR>, i: nat)
    requires i < |answer|
  {
    || answer[i].owner == q.name
    || exists j :: 0 <= j < i &&
         (answer[j].data == Cname(answer[i].owner) || DelegatedBy(c, q.qtype, answer[j], answer[i]))
  }

  /** A link through CNAME `via` shows the owner exactly when the shown target does not end in two dots. */
  lemma LinkShowsOwner(via: RR, rr: RR)
    requires OwnedBy(via, rr) && HasSuffix(via.data.target, ".")
    ensures via.data == Cname(rr.owner) <==> !HasSuffix(via.data.target, "..")
  {
    FqdnRestores(via.data.target);
  }

  lemma ProperAnswersShowOwners(c: Config, q: Question, answer: seq<RR>)
    requires Linked(c, q, answer)
    requires forall rr :: rr in answer && rr.data.Cname? ==>
      HasSuffix(rr.data.target, ".") && !HasSuffix(rr.data.target, "..")
    ensures forall i :: 0 <= i < |answer| ==> ShownAt(c, q, answer, i)
  {
    forall i | 0 <= i < |answer| ensures ShownAt(c, q, answer, i) {
      assert LinkedAt(c, q, answer, i);
      if j :| 0 <= j < i && OwnedBy(answer[j], answer[i]) {
        assert answer[j] in answer;
        LinkShowsOwner(answer[j], answer[i]);
      }
    }
  }

  /** A mapping with a CNAME target that ends in two dots. */
  function DoubleDotConfig(ip: IP): Config {
    Config(map["a" := [CnameEntry("b..", 0)], "b" := [AddressEntry(ip, 0)]], true, q => Ok([]))
  }

  /** A name with one mapped entry is answered by that entry. */
  lemma OneEntryAnswers(c: Config, q: Question, visited: seq<string>, e: Entry, answer: seq<RR>)
    requires VisitedOk(c, visited) && Mapped(c, q.name) && Found(c, q.name) == [e] && c.filterUnmappedTypes
    requires EntriesOk(c, [e]) && ProcessEntry(c, q, visited, e) == Ok(answer)
    ensures Resolve(c, q, visited) == Ok(Response(true, answer))
  {
    assert [e][1..] == [] && answer + [] == answer;
    assert ProcessEntries(c, q, visited, [e]) == Ok(answer);
  }

  lemma DoubleDotFound(ip: IP)
    ensures var c := DoubleDotConfig(ip);
      && Mapped(c, "a.") && Found(c, "a.") == [CnameEntry("b..", 0)]
      && Mapped(c, "b.") && Found(c, "b.") == [AddressEntry(ip, 0)]
      && "b." in Targets(c)
    ensures TrimDot("b..") == "b." && Fqdn("b.") == "b." && Fqdn("b..") == "b.."
  {
    var c := DoubleDotConfig(ip);
    assert ExtractDomainOnly("a.") == "a" && ExtractDomainOnly("b.") == "b";
    assert TrimDot("b..") == "b.";
    assert CnameEntry("b..", 0) in c.mapping["a"];
  }

  /** An answer whose links do not show the owners: the CNAME names "b..", the address belongs to "b.". */
  lemma DoubleDotUnlinks(ip: IP)
    requires ip.to4
    ensures var c, q := DoubleDotConfig(ip), Question("a.", A);
      && VisitedOk(c, []) && Resolve(c, q, []).Ok? && |Resolve(c, q, []).value.answer| == 2
      && !ShownAt(c, q, Resolve(c, q, []).value.answer, 1)
  {
    var c, q := DoubleDotConfig(ip), Question("a.", A);
    var answer := DoubleDotAnswer(ip);
    assert answer[1].owner == "b." && answer[0].data == Cname("b..");
    assert !DelegatedBy(c, A, answer[0], answer[1]);
  }

  lemma DoubleDotAnswer(ip: IP) returns (answer: seq<RR>)
    requires ip.to4
    ensures Resolve(DoubleDotConfig(ip), Question("a.", A), []) == Ok(Response(true, answer))
    ensures answer == [RR("a.", 0, Cname("b..")), RR("b.", 0, Address(ip))]
  {
    hide Resolve;
    DoubleDotFound(ip);
    answer := CnameToAddress(DoubleDotConfig(ip), "a.", "b..", ip);
  }

  /** A CNAME to a mapped address is answered with both records. */
  lemma CnameToAddress(c: Config, name: string, target: string, ip: IP) returns (answer: seq<RR>)
    requires c.filterUnmappedTypes && ip.to4 && Mapped(c, name) && Found(c, name) == [CnameEntry(target, 0)]
    requires Mapped(c, Fqdn(TrimDot(target))) && Found(c, Fqdn(TrimDot(target))) == [AddressEntry(ip, 0)]
    ensures Resolve(c, Question(name, A), []) == Ok(Response(true, answer))
    ensures answer == [RR(name, 0, Cname(Fqdn(target)))] + [RR(Fqdn(TrimDot(target)), 0, Address(ip))]
  {
    hide Resolve, FollowCname, TrimDot, Fqdn, Mapped, Found, FindDomain, Targets, VisitedOk;
    var q, t := Question(name, A), TrimDot(target);
    var rest := [RR(Fqdn(t), 0, Address(ip))];
    FollowsTo(c, name, target);
    OneEntryAnswers(c, Question(Fqdn(t), A), [t], AddressEntry(ip, 0), rest);
    FollowedCname(c, q, target, rest);
    answer := [RR(name, 0, Cname(Fqdn(target)))] + rest;
    OneEntryAnswers(c, q, [], CnameEntry(target, 0), answer);
  }

  lemma FollowsTo(c: Config, name: string, target: string)
    requires Found(c, name) == [CnameEntry(target, 0)]
    ensures TrimDot(target) in Targets(c) && VisitedOk(c, []) && VisitedOk(c, [TrimDot(target)])
    ensures EntriesOk(c, [CnameEntry(target, 0)])
  {
    FoundOk(c, name);
    assert CnameEntry(target, 0) in Found(c, name);
  }

  lemma FollowedCname(c: Config, q: Question, target: string, rest: seq<RR>)
    requires TrimDot(target) in Targets(c) && q.qtype != CNAME
    requires VisitedOk(c, [TrimDot(target)])
    requires Resolve(c, Question(Fqdn(TrimDot(target)), q.qtype), [TrimDot(target)]) == Ok(Response(true, rest))
    ensures FollowCname(c, q, [], target, 0) == Ok([RR(q.name, 0, Cname(Fqdn(target)))] + rest)
  {
    hide Resolve;
    assert [] + [TrimDot(target)] == [TrimDot(target)];
  }
}
