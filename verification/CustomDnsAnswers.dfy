/** What the custom mapping answers, record by record. */
module CustomDnsAnswers {
  import opened Text
  import opened Wrappers
  import opened CustomDns

  /** Entry `e` answers question `q` with record `rr`: its type is asked for, and `rr` carries its data and TTL. */
  predicate Gives(e: Entry, q: Question, rr: RR) {
    rr.owner == q.name &&
    match e
    case AddressEntry(ip, ttl) =>
      && rr.ttl == ttl && rr.data == Address(ip)
      && ((q.qtype == A && ip.to4) || (q.qtype == AAAA && ':' in ip.text))
    case TxtEntry(txt, ttl) => q.qtype == TXT && rr.ttl == ttl && rr.data == Txt(txt)
    case SrvEntry(srv, ttl) =>
      && q.qtype == SRV && rr.ttl == ttl && rr.data.Srv?
      && rr.data.srv.priority == srv.priority && rr.data.srv.weight == srv.weight
      && rr.data.srv.port == srv.port && rr.data.srv.target == srv.target
    case CnameEntry(target, ttl) => false
    case UnsupportedEntry => false
  }

  /** Entry `e` has something to say to question `q`: a record of the type asked for, or a CNAME. */
  ghost predicate Speaks(e: Entry, q: Question) {
    e.CnameEntry? || exists rr :: Gives(e, q, rr)
  }

  /**
    What one entry contributes to an answer: at most its own record; for a CNAME that record and behind
    it, unless CNAMEs were asked for, the answer of a request for its target.
   */
  ghost predicate IsPart(c: Config, q: Question, visited: seq<string>, e: Entry, part: seq<RR>)
    requires VisitedOk(c, visited)
  {
    if e.CnameEntry? then
      && part != [] && part[0] == RR(q.name, e.ttl, Cname(Fqdn(e.target)))
      && if q.qtype == CNAME then |part| == 1 else IsTargetAnswer(c, q, visited, TrimDot(e.target), part[1..])
    else if Speaks(e, q) then |part| == 1 && Gives(e, q, part[0])
    else part == []
  }

  ghost predicate IsTargetAnswer(c: Config, q: Question, visited: seq<string>, t: string, answer: seq<RR>)
    requires VisitedOk(c, visited)
  {
    && t !in visited && VisitedOk(c, visited + [t])
    && var r := Resolve(c, Question(Fqdn(t), q.qtype), visited + [t]); r.Ok? && r.value.answer == answer
  }

  function Flat(parts: seq<seq<RR>>): seq<RR> {
    if parts == [] then [] else parts[0] + Flat(parts[1..])
  }

  /** The answer is made of one part per entry, in the order of the mapping. */
  ghost predicate IsAnswer(c: Config, q: Question, visited: seq<string>, entries: seq<Entry>,
                           parts: seq<seq<RR>>, answer: seq<RR>)
    requires VisitedOk(c, visited)
  {
    && |parts| == |entries| && answer == Flat(parts)
    && forall i :: 0 <= i < |entries| ==> IsPart(c, q, visited, entries[i], parts[i])
  }

  lemma PlainIsGiven(e: Entry, q: Question)
    requires !e.CnameEntry? && !e.UnsupportedEntry?
    ensures if Speaks(e, q) then |Plain(e, q)| == 1 && Gives(e, q, Plain(e, q)[0]) else Plain(e, q) == []
  {
    if Plain(e, q) != [] {
      assert Gives(e, q, Plain(e, q)[0]);
    }
  }

  lemma EntryPart(c: Config, q: Question, visited: seq<string>, e: Entry)
    requires VisitedOk(c, visited) && EntriesOk(c, [e]) && ProcessEntry(c, q, visited, e).Ok?
    ensures IsPart(c, q, visited, e, ProcessEntry(c, q, visited, e).value)
  {
    hide Resolve, Plain, Targets, Gives;
    if e.CnameEntry? {
      assert e in [e];
      var t := TrimDot(e.target);
      if q.qtype != CNAME {
        VisitTarget(c, visited, t);
        var r := Resolve(c, Question(Fqdn(t), q.qtype), visited + [t]);
        var part := ProcessEntry(c, q, visited, e).value;
        assert part[1..] == r.value.answer;
      }
    } else {
      PlainIsGiven(e, q);
    }
  }

  lemma {:induction false} EntriesParts(c: Config, q: Question, visited: seq<string>, entries: seq<Entry>)
    returns (parts: seq<seq<RR>>)
    requires VisitedOk(c, visited) && EntriesOk(c, entries) && ProcessEntries(c, q, visited, entries).Ok?
    ensures IsAnswer(c, q, visited, entries, parts, ProcessEntries(c, q, visited, entries).value)
    decreases |entries|
  {
    hide IsPart, ProcessEntry, VisitedOk, Targets;
    parts := [];
    if entries != [] {
      var rest := EntriesParts(c, q, visited, entries[1..]);
      parts := [ProcessEntry(c, q, visited, entries[0]).value] + rest;
      EntryPart(c, q, visited, entries[0]);
      assert parts[1..] == rest;
      forall i | 0 <= i < |entries| ensures IsPart(c, q, visited, entries[i], parts[i]) {
        if i > 0 { assert entries[i] == entries[1..][i - 1] && parts[i] == rest[i - 1]; }
      }
    }
  }

  /** What the next resolver makes of a question. */
  predicate IsDelegated(c: Config, q: Question, r: Result<Response, Error>) {
    match c.next(q)
    case Ok(answer) => r == Ok(Response(false, answer))
    case Err(e) => r == Err(e)
  }

  /** A name of which no suffix is mapped is left to the next resolver. */
  lemma UnmappedIsDelegated(c: Config, q: Question, visited: seq<string>)
    requires VisitedOk(c, visited) && forall d :: !LongestMapped(c.mapping, ExtractDomainOnly(q.name), d)
    ensures IsDelegated(c, q, Resolve(c, q, visited))
  {
    var found := FindDomain(c.mapping, ExtractDomainOnly(q.name));
    if found.Some? {
      LongestSuffixDecides(c.mapping, ExtractDomainOnly(q.name), found.value);
    }
  }

  lemma FoundIsLongest(c: Config, name: string, d: string)
    requires LongestMapped(c.mapping, ExtractDomainOnly(name), d)
    ensures Mapped(c, name) && Found(c, name) == c.mapping[d]
  {
    LongestSuffixDecides(c.mapping, ExtractDomainOnly(name), d);
  }

  /**
    For a name with a longest mapped suffix, its entries alone decide. If one of them speaks to the
    question, the answer is made of what they give, in their order and once per entry; if none does, the
    answer is an empty success or that of the next resolver, as configured.
   */
  lemma MappingAnswers(c: Config, q: Question, visited: seq<string>, d: string) returns (parts: seq<seq<RR>>)
    requires VisitedOk(c, visited) && LongestMapped(c.mapping, ExtractDomainOnly(q.name), d)
    requires Resolve(c, q, visited).Ok?
    ensures var entries, r := c.mapping[d], Resolve(c, q, visited);
      if exists e :: e in entries && Speaks(e, q) then
        r.value.custom && IsAnswer(c, q, visited, entries, parts, r.value.answer)
      else if c.filterUnmappedTypes then r == Ok(Response(true, []))
      else IsDelegated(c, q, r)
  {
    var entries := c.mapping[d];
    FoundIsLongest(c, q.name, d);
    FoundOk(c, q.name);
    assert ProcessEntries(c, q, visited, entries).Ok?;
    parts := EntriesParts(c, q, visited, entries);
    hide Mapped, Found, FindDomain, ProcessEntries, Gives;
    SilentIffNobodySpeaks(c, q, visited, entries, parts);
  }

  lemma {:induction false} SilentIffNobodySpeaks(c: Config, q: Question, visited: seq<string>, entries: seq<Entry>,
                                                parts: seq<seq<RR>>)
    requires VisitedOk(c, visited) && |parts| == |entries|
    requires forall i :: 0 <= i < |entries| ==> IsPart(c, q, visited, entries[i], parts[i])
    ensures Flat(parts) == [] <==> !exists e :: e in entries && Speaks(e, q)
    decreases |entries|
  {
    hide Resolve, VisitedOk, Gives, IsTargetAnswer;
    if entries != [] {
      SilentIffNobodySpeaks(c, q, visited, entries[1..], parts[1..]);
      assert IsPart(c, q, visited, entries[0], parts[0]);
      assert parts[0] == [] <==> !Speaks(entries[0], q);
      assert forall e :: e in entries <==> e == entries[0] || e in entries[1..];
    }
  }

  /** A record that is no CNAME is among what the other entries contribute exactly when one of them gives it. */
  lemma OwnRecordsIff(c: Config, q: Question, visited: seq<string>, entries: seq<Entry>, parts: seq<seq<RR>>,
                      answer: seq<RR>, rr: RR)
    requires VisitedOk(c, visited) && IsAnswer(c, q, visited, entries, parts, answer)
    ensures (exists i :: 0 <= i < |entries| && !entries[i].CnameEntry? && rr in parts[i])
       <==> (exists e :: e in entries && Gives(e, q, rr))
  {
    hide Flat, Resolve, VisitedOk;
    if i :| 0 <= i < |entries| && !entries[i].CnameEntry? && rr in parts[i] {
      assert IsPart(c, q, visited, entries[i], parts[i]) && entries[i] in entries;
    }
    if e :| e in entries && Gives(e, q, rr) {
      var i :| 0 <= i < |entries| && entries[i] == e;
      assert IsPart(c, q, visited, entries[i], parts[i]) && Speaks(e, q);
      GivenOnce(e, q, rr, parts[i][0]);
    }
  }

  /** An entry gives at most one record. */
  lemma GivenOnce(e: Entry, q: Question, a: RR, b: RR)
    requires Gives(e, q, a) && Gives(e, q, b)
    ensures a == b
  {
  }
}
