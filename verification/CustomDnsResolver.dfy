/** The step-by-step form of `processRequest`, with a context that may be cancelled at any check. */
module CustomDnsResolver {
  import opened Text
  import opened Wrappers
  import opened CustomDns
  import opened Contexts

  function Prepend(a: seq<RR>, r: Result<seq<RR>, Error>): Result<seq<RR>, Error> {
    if r.Ok? then Ok(a + r.value) else r
  }

  lemma PrependNothing(r: Result<seq<RR>, Error>)
    ensures Prepend([], r) == r
  {
    if r.Ok? {
      assert [] + r.value == r.value;
    }
  }

  lemma PrependStep(a: seq<RR>, first: seq<RR>, r: Result<seq<RR>, Error>)
    ensures Prepend(a, Prepend(first, r)) == Prepend(a + first, r)
  {
    if r.Ok? {
      assert a + (first + r.value) == a + first + r.value;
    }
  }

  lemma StepOverEntry(c: Config, q: Question, visited: seq<string>, answer: seq<RR>, entries: seq<Entry>, i: nat)
    requires VisitedOk(c, visited) && EntriesOk(c, entries) && i < |entries|
    ensures EntriesOk(c, [entries[i]]) && EntriesOk(c, entries[i + 1..])
    ensures var e, rest := entries[i], ProcessEntries(c, q, visited, entries[i + 1..]);
      var result := ProcessEntry(c, q, visited, e);
      && Prepend(answer, ProcessEntries(c, q, visited, entries[i..])) ==
           (if result.Err? then result else Prepend(answer + result.value, rest))
      && (e.UnsupportedEntry? ==> result == Err(UnsupportedType))
      && (e.CnameEntry? ==> TrimDot(e.target) in Targets(c) && result == FollowCname(c, q, visited, e.target, e.ttl))
      && (!e.UnsupportedEntry? && !e.CnameEntry? ==> result == Ok(Plain(e, q)))
  {
    hide FollowCname, Targets, Plain;
    var e, rest := entries[i], ProcessEntries(c, q, visited, entries[i + 1..]);
    assert entries[i..][0] == e && entries[i..][1..] == entries[i + 1..] && e in [e] && e in entries;
    var result := ProcessEntry(c, q, visited, e);
    if result.Ok? {
      PrependStep(answer, result.value, rest);
    }
  }

  lemma NothingLeft(c: Config, q: Question, visited: seq<string>, answer: seq<RR>, entries: seq<Entry>)
    requires VisitedOk(c, visited) && EntriesOk(c, entries)
    ensures Prepend(answer, ProcessEntries(c, q, visited, entries[|entries|..])) == Ok(answer)
  {
    assert answer + [] == answer;
  }

  class Resolver {
    const c: Config

    constructor (c: Config)
      ensures this.c == c
    {
      this.c := c;
    }

    /** The result is that of `Resolve` unless the context was cancelled on the way; `depth` counts nested requests. */
    method ProcessRequest(ctx: Context, q: Question, visited: seq<string>)
      returns (r: Result<Response, Error>, ghost depth: nat)
      requires VisitedOk(c, visited)
      modifies ctx
      ensures old(ctx.done) ==> ctx.done
      ensures r == Resolve(c, q, visited) || (ctx.done && r == Err(Cancelled))
      ensures old(ctx.done) && ExtractDomainOnly(q.name) != "" ==> r == Err(Cancelled)
      ensures depth <= Unvisited(c, visited)
      decreases Unvisited(c, visited), 2, 0
    {
      depth := 0;
      var domain := ExtractDomainOnly(q.name);
      while domain != ""
        invariant FindDomain(c.mapping, domain) == FindDomain(c.mapping, ExtractDomainOnly(q.name))
        invariant (old(ctx.done) ==> ctx.done) && (old(ctx.done) ==> domain == ExtractDomainOnly(q.name))
        decreases |domain|
      {
        var done := ctx.IsDone();
        if done {
          return Err(Cancelled), depth;
        }
        if domain in c.mapping {
          assert Found(c, q.name) == c.mapping[domain];
          FoundOk(c, q.name);
          var answer;
          answer, depth := ProcessAll(ctx, q, visited, c.mapping[domain]);
          if answer.Err? {
            return Err(answer.error), depth;
          }
          if answer.value != [] {
            return Ok(Response(true, answer.value)), depth;
          }
          if !c.filterUnmappedTypes {
            return Delegate(c, q), depth;
          }
          return Ok(Response(true, [])), depth;
        }
        var i := IndexOf(domain, '.');
        if i < 0 {
          break;
        }
        domain := domain[i + 1..];
      }
      return Delegate(c, q), depth;
    }

    /** The loop over the entries of the domain found. */
    method ProcessAll(ctx: Context, q: Question, visited: seq<string>, entries: seq<Entry>)
      returns (r: Result<seq<RR>, Error>, ghost depth: nat)
      requires VisitedOk(c, visited) && EntriesOk(c, entries)
      modifies ctx
      ensures old(ctx.done) ==> ctx.done
      ensures r == ProcessEntries(c, q, visited, entries) || (ctx.done && r == Err(Cancelled))
      ensures depth <= Unvisited(c, visited)
      decreases Unvisited(c, visited), 1, |entries|
    {
      hide ProcessEntries, ProcessEntry, FollowCname, Prepend, Targets;
      depth := 0;
      var answer: seq<RR> := [];
      PrependNothing(ProcessEntries(c, q, visited, entries));
      assert entries[0..] == entries;
      for i := 0 to |entries|
        invariant ProcessEntries(c, q, visited, entries) == Prepend(answer, ProcessEntries(c, q, visited, entries[i..]))
        invariant (old(ctx.done) ==> ctx.done) && depth <= Unvisited(c, visited)
      {
        var e := entries[i];
        StepOverEntry(c, q, visited, answer, entries, i);
        var result: Result<seq<RR>, Error>;
        match e {
          case UnsupportedEntry =>
            result := Err(UnsupportedType);
          case CnameEntry(target, ttl) =>
            ghost var below;
            result, below := ProcessCname(ctx, q, visited, target, ttl);
            depth := if below > depth then below else depth;
          case _ =>
            result := Ok(Plain(e, q));
        }
        if result.Err? {
          return result, depth;
        }
        answer := answer + result.value;
      }
      NothingLeft(c, q, visited, answer, entries);
      return Ok(answer), depth;
    }

    method ProcessCname(ctx: Context, q: Question, visited: seq<string>, target: string, ttl: nat)
      returns (r: Result<seq<RR>, Error>, ghost depth: nat)
      requires VisitedOk(c, visited) && TrimDot(target) in Targets(c)
      modifies ctx
      ensures old(ctx.done) ==> ctx.done
      ensures r == FollowCname(c, q, visited, target, ttl) || (ctx.done && r == Err(Cancelled))
      ensures depth <= Unvisited(c, visited)
      decreases Unvisited(c, visited), 0, 0
    {
      var cname := RR(q.name, ttl, Cname(Fqdn(target)));
      if q.qtype == CNAME {
        return Ok([cname]), 0;
      }
      var t := TrimDot(target);
      if t in visited {
        return Err(CnameLoop), 0;
      }
      VisitTarget(c, visited, t);
      var response;
      response, depth := ProcessRequest(ctx, Question(Fqdn(t), q.qtype), visited + [t]);
      depth := depth + 1;
      if response.Err? {
        return Err(response.error), depth;
      }
      return Ok([cname] + response.value.answer), depth;
    }
  }
}
