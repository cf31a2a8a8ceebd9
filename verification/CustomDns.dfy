/**
  `resolver/custom_dns_resolver.go`: answering from a configured mapping and following its CNAMEs
  (section 3.6.2 of RFC 1034).
 */
module CustomDns {
  import opened Text
  import opened Sequences
  import opened Wrappers

  datatype QType = A | AAAA | TXT | SRV | CNAME | OtherType(code: nat)

  datatype Question = Question(name: string, qtype: QType)

  /** An address with its text form; `to4` says whether it is an IPv4 address. */
  datatype IP = IP(text: string, to4: bool)

  datatype SrvData = SrvData(priority: nat, weight: nat, port: nat, target: string)

  /** A configured record. */
  datatype Entry =
    | AddressEntry(ip: IP, ttl: nat)
    | TxtEntry(txt: seq<string>, ttl: nat)
    | SrvEntry(srv: SrvData, ttl: nat)
    | CnameEntry(target: string, ttl: nat)
    | UnsupportedEntry

  datatype Data =
    | Address(ip: IP)
    | Txt(txt: seq<string>)
    | Srv(srv: SrvData)
    | Cname(target: string)
    | OtherData(id: nat)

  /** A record of an answer. */
  datatype RR = RR(owner: string, ttl: nat, data: Data)

  datatype Error = UnsupportedType | CnameLoop | Cancelled | NextFailed(code: nat)

  datatype Response = Response(custom: bool, answer: seq<RR>)

  datatype Config = Config(
    mapping: map<string, seq<Entry>>,
    filterUnmappedTypes: bool,
    next: Question -> Result<seq<RR>, Error>)

  /** `dns.Fqdn`. */
  function Fqdn(s: string): string {
    if HasSuffix(s, ".") then s else s + "."
  }

  function TrimDot(s: string): string {
    TrimSuffix(s, ".")
  }

  /** The domain under which the mapping answers `domain`: itself, or what is left after dropping labels. */
  function FindDomain(mapping: map<string, seq<Entry>>, domain: string): Option<string>
    decreases |domain|
  {
    if domain == "" then None
    else if domain in mapping then Some(domain)
    else
      var i := IndexOf(domain, '.');
      if i >= 0 then FindDomain(mapping, domain[i + 1..]) else None
  }

  /** The mapped entries that apply to a name. */
  function Found(c: Config, name: string): seq<Entry> {
    var d := FindDomain(c.mapping, ExtractDomainOnly(name));
    if d.Some? && d.value in c.mapping then c.mapping[d.value] else []
  }

  predicate Mapped(c: Config, name: string) {
    FindDomain(c.mapping, ExtractDomainOnly(name)).Some?
  }

  /** All names that a CNAME of the mapping can lead to. */
  function Targets(c: Config): set<string> {
    set d, e | d in c.mapping && e in c.mapping[d] && e.CnameEntry? :: TrimDot(e.target)
  }

  /** The CNAME targets already followed on the way to a request. */
  ghost predicate VisitedOk(c: Config, visited: seq<string>) {
    NoDuplicates(visited) && Elements(visited) <= Targets(c)
  }

  ghost predicate EntriesOk(c: Config, entries: seq<Entry>) {
    forall e :: e in entries && e.CnameEntry? ==> TrimDot(e.target) in Targets(c)
  }

  ghost function Unvisited(c: Config, visited: seq<string>): nat {
    |Targets(c) - Elements(visited)|
  }

  /** `isSupportedType`. */
  predicate IsSupportedType(ip: IP, qtype: QType) {
    (ip.to4 && qtype == A) || (':' in ip.text && qtype == AAAA)
  }

  /** What an entry other than a CNAME contributes to the answer. */
  function Plain(e: Entry, q: Question): seq<RR> {
    match e
    case AddressEntry(ip, ttl) => if IsSupportedType(ip, q.qtype) then [RR(q.name, ttl, Address(ip))] else []
    case TxtEntry(txt, ttl) => if q.qtype == TXT then [RR(q.name, ttl, Txt(txt))] else []
    case SrvEntry(srv, ttl) => if q.qtype == SRV then [RR(q.name, ttl, Srv(srv))] else []
    case _ => []
  }

  /** `processRequest`, without cancellation. */
  function Resolve(c: Config, q: Question, visited: seq<string>): Result<Response, Error>
    requires VisitedOk(c, visited)
    decreases Unvisited(c, visited), 2, 0
  {
    if !Mapped(c, q.name) then Delegate(c, q)
    else
      FoundOk(c, q.name);
      match ProcessEntries(c, q, visited, Found(c, q.name))
      case Err(e) => Err(e)
      case Ok(answer) =>
        if answer == [] && !c.filterUnmappedTypes then Delegate(c, q) else Ok(Response(true, answer))
  }

  function Delegate(c: Config, q: Question): Result<Response, Error> {
    match c.next(q)
    case Ok(answer) => Ok(Response(false, answer))
    case Err(e) => Err(e)
  }

  function ProcessEntries(c: Config, q: Question, visited: seq<string>, entries: seq<Entry>): Result<seq<RR>, Error>
    requires VisitedOk(c, visited) && EntriesOk(c, entries)
    decreases Unvisited(c, visited), 1, |entries|
  {
    if entries == [] then Ok([])
    else
      match ProcessEntry(c, q, visited, entries[0])
      case Err(e) => Err(e)
      case Ok(first) =>
        match ProcessEntries(c, q, visited, entries[1..])
        case Err(e) => Err(e)
        case Ok(rest) => Ok(first + rest)
  }

  /** `processDNSEntry`. */
  function ProcessEntry(c: Config, q: Question, visited: seq<string>, entry: Entry): Result<seq<RR>, Error>
    requires VisitedOk(c, visited) && EntriesOk(c, [entry])
    decreases Unvisited(c, visited), 0, 1
  {
    match entry
    case UnsupportedEntry => Err(UnsupportedType)
    case CnameEntry(target, ttl) => assert entry in [entry]; FollowCname(c, q, visited, target, ttl)
    case _ => Ok(Plain(entry, q))
  }

  /** `processCNAME`. */
  function FollowCname(c: Config, q: Question, visited: seq<string>, target: string, ttl: nat): Result<seq<RR>, Error>
    requires VisitedOk(c, visited) && TrimDot(target) in Targets(c)
    decreases Unvisited(c, visited), 0, 0
  {
    var cname := RR(q.name, ttl, Cname(Fqdn(target)));
    var t := TrimDot(target);
    if q.qtype == CNAME then Ok([cname])
    else if t in visited then Err(CnameLoop)
    else
      VisitTarget(c, visited, t);
      match Resolve(c, Question(Fqdn(t), q.qtype), visited + [t])
      case Err(e) => Err(e)
      case Ok(response) => Ok([cname] + response.answer)
  }

  lemma FoundOk(c: Config, name: string)
    ensures EntriesOk(c, Found(c, name))
  {
  }

  /** Following a new target leaves fewer to follow. */
  lemma VisitTarget(c: Config, visited: seq<string>, t: string)
    requires VisitedOk(c, visited) && t in Targets(c) && t !in visited
    ensures VisitedOk(c, visited + [t]) && Unvisited(c, visited + [t]) < Unvisited(c, visited)
  {
    hide Targets;
    OneFewer(Targets(c), visited, t);
  }

  lemma OneFewer(all: set<string>, visited: seq<string>, t: string)
    requires NoDuplicates(visited) && Elements(visited) <= all && t in all && t !in visited
    ensures NoDuplicates(visited + [t]) && Elements(visited + [t]) <= all
    ensures |all - Elements(visited + [t])| < |all - Elements(visited)|
  {
    var rest := all - Elements(visited);
    assert Elements(visited + [t]) == Elements(visited) + {t};
    assert all - Elements(visited + [t]) == rest - {t};
    assert t in rest;
  }

  /** How deep requests nest below a request: one level for every CNAME that is followed. */
  function Nesting(c: Config, q: Question, visited: seq<string>): nat
    requires VisitedOk(c, visited)
    decreases Unvisited(c, visited), 1, 0
  {
    if !Mapped(c, q.name) then 0
    else
      FoundOk(c, q.name);
      EntriesNesting(c, q, visited, Found(c, q.name))
  }

  function EntriesNesting(c: Config, q: Question, visited: seq<string>, entries: seq<Entry>): nat
    requires VisitedOk(c, visited) && EntriesOk(c, entries)
    decreases Unvisited(c, visited), 0, |entries|
  {
    if entries == [] then 0
    else
      var e, rest := entries[0], EntriesNesting(c, q, visited, entries[1..]);
      if !e.CnameEntry? || q.qtype == CNAME || TrimDot(e.target) in visited then rest
      else
        VisitTarget(c, visited, TrimDot(e.target));
        var below := Nesting(c, Question(Fqdn(TrimDot(e.target)), q.qtype), visited + [TrimDot(e.target)]) + 1;
        if below > rest then below else rest
  }

  /** Requests never nest deeper than there are CNAME targets left to follow, whatever the mapping. */
  lemma {:induction false} NestingBound(c: Config, q: Question, visited: seq<string>)
    requires VisitedOk(c, visited)
    ensures Nesting(c, q, visited) <= Unvisited(c, visited)
    ensures visited == [] ==> Nesting(c, q, visited) <= |Targets(c)|
    decreases Unvisited(c, visited), 1, 0
  {
    hide Found, Targets, Mapped;
    assert Targets(c) - Elements<string>([]) == Targets(c);
    if Mapped(c, q.name) {
      FoundOk(c, q.name);
      EntriesNestingBound(c, q, visited, Found(c, q.name));
    }
  }

  lemma {:induction false} EntriesNestingBound(c: Config, q: Question, visited: seq<string>, entries: seq<Entry>)
    requires VisitedOk(c, visited) && EntriesOk(c, entries)
    ensures EntriesNesting(c, q, visited, entries) <= Unvisited(c, visited)
    decreases Unvisited(c, visited), 0, |entries|
  {
    hide Nesting, Found, Targets;
    if entries != [] {
      var e := entries[0];
      EntriesNestingBound(c, q, visited, entries[1..]);
      if e.CnameEntry? && q.qtype != CNAME && TrimDot(e.target) !in visited {
        var t := TrimDot(e.target);
        VisitTarget(c, visited, t);
        NestingBound(c, Question(Fqdn(t), q.qtype), visited + [t]);
      }
    }
  }

  // Which domain of the mapping decides.

  /** `d` is `domain`, or what follows one of its dots. */
  ghost predicate IsSuffixDomain(d: string, domain: string) {
    d == domain || exists i :: 0 <= i < |domain| && domain[i] == '.' && d == domain[i + 1..]
  }

  /** `d` is mapped, and of the suffixes of the domain no longer one is. */
  ghost predicate LongestMapped(mapping: map<string, seq<Entry>>, domain: string, d: string) {
    && d != "" && d in mapping && IsSuffixDomain(d, domain)
    && forall x :: IsSuffixDomain(x, domain) && |x| > |d| ==> x !in mapping
  }

  /** The mapping answers with its longest suffix of the name, and only with that. */
  lemma {:induction false} LongestSuffixDecides(mapping: map<string, seq<Entry>>, domain: string, d: string)
    ensures FindDomain(mapping, domain) == Some(d) <==> LongestMapped(mapping, domain, d)
    decreases |domain|
  {
    assert IsSuffixDomain(domain, domain);
    var i := IndexOf(domain, '.');
    if domain in mapping || i < 0 {
      forall x | IsSuffixDomain(x, domain) ensures |x| <= |domain| && (|x| == |domain| ==> x == domain) {}
    } else {
      var rest := domain[i + 1..];
      LongestSuffixDecides(mapping, rest, d);
      forall x ensures IsSuffixDomain(x, domain) <==> x == domain || IsSuffixDomain(x, rest) {
        SuffixStep(domain, i, x);
      }
    }
  }

  lemma SuffixStep(domain: string, i: nat, x: string)
    requires i < |domain| && domain[i] == '.' && '.' !in domain[..i]
    ensures IsSuffixDomain(x, domain) <==> x == domain || IsSuffixDomain(x, domain[i + 1..])
  {
    var rest := domain[i + 1..];
    if j :| 0 <= j < |domain| && domain[j] == '.' && x == domain[j + 1..] {
      assert j >= i by {
        assert forall k :: 0 <= k < i ==> domain[..i][k] != '.';
      }
      if j > i {
        assert rest[j - i - 1] == '.' && x == rest[j - i..];
      }
    }
    if j :| 0 <= j < |rest| && rest[j] == '.' && x == rest[j + 1..] {
      assert domain[j + i + 1] == '.' && x == domain[j + i + 2..];
    }
  }
}
