/** `resolver/blocking_resolver.go`: which groups apply to a client and what they block. */
module BlockingPolicy {
  import opened Text
  import opened Sequences
  import opened Wrappers
  import opened ListEntries
  import H = ListHistory
  import opened BlockingStatus
  import L = ListCache

  datatype Client = Client(names: seq<string>, ip: string)

  /** Glob matching of client names, CIDR containment and the resolved addresses of client host names. */
  datatype Identification = Identification(
    nameMatches: (string, string) -> bool,
    cidrContains: (string, string) -> bool,
    hostHasIp: (string, string) -> bool)

  datatype Record = A(ip: string) | AAAA(ip: string) | Cname(target: string) | Other

  datatype Reason = AllowlistOnly | NameListed(groups: seq<string>) | AnswerListed(kind: string, groups: seq<string>)

  datatype Verdict = Passed | Blocked(reason: Reason)

  /** `isFQDN`. */
  predicate IsFqdn(id: string) {
    '.' in TrimDots(id)
  }

  /** `extractEntryToCheckFromResponse`. */
  function EntryToCheck(r: Record): (string, string) {
    match r
    case A(ip) => (ip, "IP")
    case AAAA(ip) => (ToLower(ip), "IP")
    case Cname(target) => (ExtractDomainOnly(target), "CNAME")
    case Other => ("", "")
  }

  /** Whether a group of a list holds an entry that matches a name. */
  type Matcher = (string, string) -> bool

  /** What decides about a request: the active groups of the client, and the two lists. */
  datatype Situation = Situation(
    active: set<string>, allow: Matcher, deny: Matcher, allowlistOnly: set<string>, denylists: set<string>)

  /** Some active group of the list holds an entry that matches `name`. */
  ghost predicate Listed(l: Matcher, active: set<string>, name: string) {
    exists g :: g in active && l(g, name)
  }

  ghost predicate HasAllowlistOnly(s: Situation) {
    exists g :: g in s.active && g in s.allowlistOnly
  }

  /** The groups that a reason names: the active ones that hold a matching entry, sorted. */
  ghost predicate Names(groups: seq<string>, s: Situation, name: string) {
    StrictlySorted(groups) && forall g :: g in groups <==> g in s.active && s.deny(g, name)
  }

  /** The answer record is listed for blocking and not for allowing. */
  ghost predicate BadRecord(s: Situation, r: Record) {
    var entry := EntryToCheck(r).0;
    entry != "" && !Listed(s.allow, s.active, entry) && Listed(s.deny, s.active, entry)
  }

  /** The reason given for an answer is that of its first bad record. */
  ghost predicate AnswerBlocked(s: Situation, answer: seq<Record>, i: nat, kind: string, groups: seq<string>) {
    && i < |answer| && BadRecord(s, answer[i])
    && (forall j :: 0 <= j < i ==> !BadRecord(s, answer[j]))
    && kind == EntryToCheck(answer[i]).1 && Names(groups, s, EntryToCheck(answer[i]).0)
  }

  /** The declared policy for question `name`, given what the next resolver answers, if it does. */
  ghost predicate Policy(s: Situation, name: string, answer: Option<seq<Record>>, v: Verdict) {
    match v
    case Passed =>
      || s.active == {}
      || Listed(s.allow, s.active, name)
      || (&& !HasAllowlistOnly(s) && !Listed(s.deny, s.active, name)
          && (answer.Some? ==> forall r :: r in answer.value ==> !BadRecord(s, r)))
    case Blocked(reason) =>
      && !Listed(s.allow, s.active, name)
      && match reason
         case AllowlistOnly => HasAllowlistOnly(s)
         case NameListed(groups) => !HasAllowlistOnly(s) && groups != [] && Names(groups, s, name)
         case AnswerListed(kind, groups) =>
           && !HasAllowlistOnly(s) && !Listed(s.deny, s.active, name) && groups != []
           && answer.Some? && exists i: nat :: AnswerBlocked(s, answer.value, i, kind, groups)
  }

  /** An allowlisted name is never blocked, not even by what its answer contains. */
  lemma AllowlistedNeverBlocked(s: Situation, name: string, answer: Option<seq<Record>>, v: Verdict)
    requires Policy(s, name, answer, v) && Listed(s.allow, s.active, name)
    ensures v == Passed
  {
  }

  /** The policy leaves no choice: it fixes the verdict, the reason and the order of the groups in it. */
  lemma PolicyIsUnique(s: Situation, name: string, answer: Option<seq<Record>>, v: Verdict, w: Verdict)
    requires Policy(s, name, answer, v) && Policy(s, name, answer, w)
    ensures v == w
  {
    if v.Blocked? && !v.reason.AllowlistOnly? {
      assert v.reason.groups[0] in v.reason.groups;
    }
    if w.Blocked? && !w.reason.AllowlistOnly? {
      assert w.reason.groups[0] in w.reason.groups;
    }
    if v.Blocked? && w.Blocked? && v.reason.NameListed? && w.reason.NameListed? {
      SameElements(v.reason.groups, w.reason.groups);
    } else if v.Blocked? && w.Blocked? && v.reason.AnswerListed? && w.reason.AnswerListed? {
      var i: nat :| AnswerBlocked(s, answer.value, i, v.reason.kind, v.reason.groups);
      var j: nat :| AnswerBlocked(s, answer.value, j, w.reason.kind, w.reason.groups);
      assert i == j;
      SameElements(v.reason.groups, w.reason.groups);
    }
  }

  /** Every group named in a reason is active and holds a match, of the name or of an answer record. */
  lemma ReasonsNameActiveGroups(s: Situation, name: string, answer: Option<seq<Record>>, v: Verdict, g: string)
    requires Policy(s, name, answer, v) && v.Blocked? && !v.reason.AllowlistOnly? && g in v.reason.groups
    ensures g in s.active
    ensures v.reason.NameListed? ==> s.deny(g, name)
    ensures v.reason.AnswerListed? ==>
      && answer.Some?
      && exists r :: r in answer.value && EntryToCheck(r).1 == v.reason.kind && s.deny(g, EntryToCheck(r).0)
  {
    if v.reason.AnswerListed? {
      var i: nat :| AnswerBlocked(s, answer.value, i, v.reason.kind, v.reason.groups);
    }
  }

  /** When no denylist group is active, only the allowlist-only rule can still block. */
  lemma AllDisabledBlocksNothing(s: Situation, name: string, answer: Option<seq<Record>>, v: Verdict)
    requires Policy(s, name, answer, v) && s.active !! s.denylists
    requires forall g, n :: s.deny(g, n) ==> g in s.denylists
    ensures v == Passed || v == Blocked(AllowlistOnly)
  {
    if v.Blocked? && !v.reason.AllowlistOnly? {
      ReasonsNameActiveGroups(s, name, answer, v, v.reason.groups[0]);
      assert false;
    }
  }

  // What is looked up in an answer, spelled out.

  /** The text that an answer record is looked up by, and the kind that a reason gives it. */
  predicate LooksUp(r: Record, text: string, kind: string) {
    match r
    case A(ip) => text == ip && kind == "IP"
    case AAAA(ip) => text == ToLower(ip) && kind == "IP"
    case Cname(t) =>
      text == ToLower(if t != "" && t[|t| - 1] == '.' then t[..|t| - 1] else t) && kind == "CNAME"
    case Other => false
  }

  /** The record is looked up by a text that is denylisted and not allowlisted. */
  ghost predicate Refused(s: Situation, r: Record) {
    exists text, kind :: LooksUp(r, text, kind) &&
      text != "" && !Listed(s.allow, s.active, text) && Listed(s.deny, s.active, text)
  }

  ghost predicate FirstRefused(s: Situation, answer: seq<Record>, i: int) {
    0 <= i < |answer| && Refused(s, answer[i]) && forall j :: 0 <= j < i ==> !Refused(s, answer[j])
  }

  /** The name alone does not decide. */
  ghost predicate LeftToAnswer(s: Situation, name: string) {
    && s.active != {} && !Listed(s.allow, s.active, name)
    && !HasAllowlistOnly(s) && !Listed(s.deny, s.active, name)
  }

  /**
    If the name does not decide, the first refused record does: the reason gives its kind and the sorted
    active groups that hold its text; without a refused record the answer passes.
   */
  ghost predicate AnswerRule(s: Situation, name: string, answer: Option<seq<Record>>, v: Verdict) {
    LeftToAnswer(s, name) ==>
      if answer.Some? && exists i :: FirstRefused(s, answer.value, i) then
        forall i, text, kind :: FirstRefused(s, answer.value, i) && LooksUp(answer.value[i], text, kind) ==>
          && v.Blocked? && v.reason.AnswerListed? && v.reason.kind == kind && v.reason.groups != []
          && Names(v.reason.groups, s, text)
      else v == Passed
  }

  lemma LookedUpIsChecked(r: Record, text: string, kind: string)
    ensures LooksUp(r, text, kind) <==> !r.Other? && EntryToCheck(r) == (text, kind)
  {
    if r.Cname? {
      DomainOfName(r.target);
    }
  }

  lemma RefusedIsBad(s: Situation, r: Record)
    ensures Refused(s, r) <==> BadRecord(s, r)
  {
    var (text, kind) := EntryToCheck(r);
    LookedUpIsChecked(r, text, kind);
    if Refused(s, r) {
      var t, k :| LooksUp(r, t, k) && t != "" && !Listed(s.allow, s.active, t) && Listed(s.deny, s.active, t);
      LookedUpIsChecked(r, t, k);
    }
  }

  lemma PolicyFollowsAnswers(s: Situation, name: string, answer: Option<seq<Record>>, v: Verdict)
    requires Policy(s, name, answer, v)
    ensures AnswerRule(s, name, answer, v)
  {
    forall r ensures Refused(s, r) <==> BadRecord(s, r) { RefusedIsBad(s, r); }
    hide Refused, BadRecord;
    if LeftToAnswer(s, name) && answer.Some? {
      if v.Passed? {
        forall i | 0 <= i < |answer.value| ensures !Refused(s, answer.value[i]) {
          assert answer.value[i] in answer.value;
        }
      } else {
        BlockedByFirst(s, name, answer.value, v);
      }
    }
    ListedWhenNamed(s, name, answer, v);
  }

  lemma ListedWhenNamed(s: Situation, name: string, answer: Option<seq<Record>>, v: Verdict)
    requires Policy(s, name, answer, v)
    ensures v.Blocked? && v.reason.NameListed? ==> Listed(s.deny, s.active, name)
  {
    if v.Blocked? && v.reason.NameListed? {
      assert v.reason.groups[0] in v.reason.groups;
    }
  }

  lemma BlockedByFirst(s: Situation, name: string, answer: seq<Record>, v: Verdict)
    requires Policy(s, name, Some(answer), v) && v.Blocked? && LeftToAnswer(s, name)
    requires forall r :: Refused(s, r) <==> BadRecord(s, r)
    ensures exists i :: FirstRefused(s, answer, i)
    ensures forall i, text, kind :: FirstRefused(s, answer, i) && LooksUp(answer[i], text, kind) ==>
      && v.reason.AnswerListed? && v.reason.kind == kind && v.reason.groups != [] && Names(v.reason.groups, s, text)
  {
    hide Policy, Refused, BadRecord, Names, LooksUp, LeftToAnswer;
    AnswerReason(s, name, answer, v);
    var groups := v.reason.groups;
    var i: nat :| AnswerBlocked(s, answer, i, v.reason.kind, groups);
    assert FirstRefused(s, answer, i);
    forall k, text, kind | FirstRefused(s, answer, k) && LooksUp(answer[k], text, kind)
      ensures v.reason.kind == kind && Names(groups, s, text)
    {
      OneFirstRefused(s, answer, i, k);
      LookedUpIsChecked(answer[k], text, kind);
    }
  }

  lemma AnswerReason(s: Situation, name: string, answer: seq<Record>, v: Verdict)
    requires Policy(s, name, Some(answer), v) && v.Blocked? && LeftToAnswer(s, name)
    ensures v.reason.AnswerListed? && v.reason.groups != []
    ensures exists i: nat :: AnswerBlocked(s, answer, i, v.reason.kind, v.reason.groups)
  {
    ListedWhenNamed(s, name, Some(answer), v);
    hide AnswerBlocked, Names, Listed;
  }

  lemma OneFirstRefused(s: Situation, answer: seq<Record>, i: int, k: int)
    requires FirstRefused(s, answer, i) && FirstRefused(s, answer, k)
    ensures i == k
  {
    hide Refused;
    assert !(k < i) && !(i < k);
  }

  /** Records of other types never change a verdict. */
  lemma OtherRecordsDoNotMatter(s: Situation, name: string, answer: seq<Record>, v: Verdict)
    requires forall r :: r in answer ==> r.Other?
    ensures Policy(s, name, Some(answer), v) <==> Policy(s, name, None, v)
  {
    assert forall r :: r in answer ==> !BadRecord(s, r);
    assert forall i: nat, kind, groups :: !AnswerBlocked(s, answer, i, kind, groups);
  }

  /** A host name, for the client configuration: a dot between two other characters. */
  lemma FqdnForm(id: string)
    ensures IsFqdn(id) <==> exists i, j, k :: DotBetween(id, i, j, k)
  {
    hide TrimDots;
    var before, behind := TrimDotsCuts(id);
    InnerDot(id, before, TrimDots(id), behind);
  }

  predicate DotBetween(id: string, i: int, j: int, k: int) {
    0 <= i < j < k < |id| && id[i] != '.' && id[j] == '.' && id[k] != '.'
  }

  lemma InnerDot(id: string, before: string, r: string, behind: string)
    requires id == before + r + behind && AllOf(before, '.') && AllOf(behind, '.')
    requires r == "" || (r[0] != '.' && r[|r| - 1] != '.')
    ensures '.' in r <==> exists i, j, k :: DotBetween(id, i, j, k)
  {
    if '.' in r {
      var x :| 0 <= x < |r| && r[x] == '.';
      var n := |before|;
      CharOfMiddle(id, before, r, behind, 0);
      CharOfMiddle(id, before, r, behind, x);
      CharOfMiddle(id, before, r, behind, |r| - 1);
      assert DotBetween(id, n, n + x, n + |r| - 1);
    }
    if i, j, k :| DotBetween(id, i, j, k) {
      InTheMiddle(id, before, r, behind, i);
      InTheMiddle(id, before, r, behind, k);
      CharOfMiddle(id, before, r, behind, j - |before|);
    }
  }

  lemma CharOfMiddle(id: string, before: string, r: string, behind: string, x: nat)
    requires id == before + r + behind && x < |r|
    ensures id[|before| + x] == r[x]
  {
  }

  lemma InTheMiddle(id: string, before: string, r: string, behind: string, i: nat)
    requires id == before + r + behind && AllOf(before, '.') && AllOf(behind, '.') && i < |id|
    ensures id[i] != '.' ==> |before| <= i < |before| + |r|
  {
    assert i < |before| ==> id[i] == before[i];
    assert i >= |before| + |r| ==> id[i] == behind[i - |before| - |r|];
  }

  lemma {:induction false} StrictMultiset(a: seq<string>)
    requires StrictlySorted(a)
    ensures multiset(a) == multiset(Elements(a))
  {
    if a != [] {
      var n := |a| - 1;
      StrictMultiset(a[..n]);
      LessTotal(a[n], a[n]);
      assert a == a[..n] + [a[n]];
      assert Elements(a) == Elements(a[..n]) + {a[n]};
    }
  }

  lemma SameElements(a: seq<string>, b: seq<string>)
    requires StrictlySorted(a) && StrictlySorted(b) && forall g :: g in a <==> g in b
    ensures a == b
  {
    StrictMultiset(a);
    StrictMultiset(b);
    assert Elements(a) == Elements(b);
    SortedIsUnique(a, b);
  }

  /** What the groups of a list cache hold, as a matcher. */
  ghost function ContentOf(re: RegexEngine, content: H.Content): Matcher {
    (g, name) => H.Hit(re, content, g, name)
  }

  /** `l` answers as the content of `cache` does. */
  ghost predicate Reflects(l: Matcher, cache: L.ListCache)
    reads cache
  {
    forall g, n {:trigger H.Hit(cache.re, cache.content, g, n)} :: l(g, n) <==> H.Hit(cache.re, cache.content, g, n)
  }

  lemma ContentReflects(cache: L.ListCache)
    ensures Reflects(ContentOf(cache.re, cache.content), cache)
  {
  }

  /** `determineAllowlistOnlyGroups`: groups with allowlist sources and no denylist, not even an empty one. */
  function AllowlistOnlyGroups(allowSources: map<string, nat>, denylists: set<string>): set<string> {
    set g | g in allowSources && allowSources[g] > 0 && g !in denylists
  }

  method DetermineAllowlistOnlyGroups(allowSources: map<string, nat>, denylists: set<string>)
    returns (result: set<string>)
    ensures forall g :: g in result <==> g in allowSources && allowSources[g] > 0 && g !in denylists
  {
    result := {};
    var todo := allowSources.Keys;
    while todo != {}
      invariant todo <= allowSources.Keys
      invariant forall g :: g in result <==>
        g in allowSources && g !in todo && allowSources[g] > 0 && g !in denylists
      decreases todo
    {
      var g :| g in todo;
      todo := todo - {g};
      if allowSources[g] > 0 && g !in denylists {
        result := result + {g};
      }
    }
  }

  class BlockingResolver {
    const deny: L.ListCache
    const allow: L.ListCache
    const denylists: set<string>
    /** How many sources each allowlist group is configured with. */
    const allowSources: map<string, nat>
    const allowlistOnlyGroups: set<string>
    const clientGroups: map<string, seq<string>>
    const id: Identification
    var disabledGroups: seq<string>

    /** List caches only ever load groups of the configuration. */
    ghost predicate Valid()
      reads this, deny, allow, deny.repr, allow.repr
    {
      && deny.Valid() && allow.Valid()
      && H.Groups(deny.content) <= denylists && H.Groups(allow.content) <= allowSources.Keys
      && allowlistOnlyGroups == AllowlistOnlyGroups(allowSources, denylists)
    }

    constructor (deny: L.ListCache, allow: L.ListCache, denylists: set<string>, allowSources: map<string, nat>,
                 clientGroups: map<string, seq<string>>, id: Identification)
      requires deny.Valid() && H.Groups(deny.content) <= denylists
      requires allow.Valid() && H.Groups(allow.content) <= allowSources.Keys
      ensures Valid() && disabledGroups == []
    {
      this.deny, this.allow, this.denylists, this.allowSources := deny, allow, denylists, allowSources;
      var only := DetermineAllowlistOnlyGroups(allowSources, denylists);
      allowlistOnlyGroups := only;
      this.clientGroups, this.id, disabledGroups := clientGroups, id, [];
    }

    /** An identifier of the client configuration names the client. */
    predicate Identifies(identifier: string, client: Client) {
      || (exists n :: n in client.names && id.nameMatches(identifier, n))
      || identifier == client.ip
      || id.cidrContains(identifier, client.ip)
      || (IsFqdn(identifier) && id.hostHasIp(identifier, client.ip))
    }

    ghost function OwnGroups(client: Client): set<string> {
      set i, g | i in clientGroups && Identifies(i, client) && g in clientGroups[i] :: g
    }

    /** The groups of all identifiers of the client, or the default groups if there are none. */
    ghost function AssignedGroups(client: Client): set<string> {
      if OwnGroups(client) != {} then OwnGroups(client)
      else if DEFAULT_GROUP in clientGroups then Elements(clientGroups[DEFAULT_GROUP])
      else {}
    }

    ghost function ActiveGroups(client: Client): set<string>
      reads this
    {
      AssignedGroups(client) - Elements(disabledGroups)
    }

    ghost function SituationOf(client: Client): Situation
      reads this, deny, allow
    {
      Situation(ActiveGroups(client), ContentOf(allow.re, allow.content), ContentOf(deny.re, deny.content),
                AllowlistOnlyGroups(allowSources, denylists), denylists)
    }

    /**
      Once all groups are disabled, as `Disable` does for an empty request, no denylist group is
      active, and no other group is in the denylist.
     */
    lemma DisabledIsInactive(client: Client)
      requires Valid() && multiset(disabledGroups) == multiset(denylists) + multiset{DEFAULT_GROUP}
      ensures var s := SituationOf(client); s.active !! s.denylists && forall g, n :: s.deny(g, n) ==> g in s.denylists
    {
      forall g | g in denylists ensures g in disabledGroups {
        assert g in multiset(disabledGroups);
      }
      forall g, n | SituationOf(client).deny(g, n) ensures g in denylists {
        assert g in H.Groups(deny.content);
      }
    }

    predicate Gives(identifier: string, g: string) {
      identifier in clientGroups && g in clientGroups[identifier]
    }

    /** One of the first `n` names of the client matches the identifier. */
    predicate Named(identifier: string, client: Client, n: nat)
      requires n <= |client.names|
    {
      exists i :: 0 <= i < n && id.nameMatches(identifier, client.names[i])
    }

    predicate Addressed(identifier: string, client: Client) {
      id.cidrContains(identifier, client.ip) || (IsFqdn(identifier) && id.hostHasIp(identifier, client.ip))
    }

    /** A pass over the client configuration that appends the groups of all selected identifiers. */
    method CollectWhere(select: string -> bool) returns (groups: seq<string>)
      ensures forall g :: g in groups <==> exists k :: Gives(k, g) && select(k)
    {
      groups := [];
      var todo := clientGroups.Keys;
      while todo != {}
        invariant todo <= clientGroups.Keys
        invariant forall g :: g in groups <==> exists k :: Gives(k, g) && select(k) && k !in todo
        decreases todo
      {
        var k :| k in todo;
        todo := todo - {k};
        if select(k) {
          groups := groups + clientGroups[k];
        }
      }
    }

    /** Identifier `k` of the configuration gives the client group `g`: by name, address, network or host name. */
    predicate GivesTo(k: string, g: string, client: Client) {
      && k in clientGroups && g in clientGroups[k]
      && (|| (exists n :: n in client.names && id.nameMatches(k, n))
          || k == client.ip || id.cidrContains(k, client.ip)
          || ('.' in TrimDots(k) && id.hostHasIp(k, client.ip)))
    }

    /** The active groups are those that some identifier gives, or else the default ones; less the disabled ones. */
    lemma ActiveGroupsAre(client: Client)
      ensures forall g :: g in ActiveGroups(client) <==>
        && g !in disabledGroups
        && if exists k, h :: GivesTo(k, h, client) then exists k :: GivesTo(k, g, client)
           else "default" in clientGroups && g in clientGroups["default"]
    {
      forall g ensures g in OwnGroups(client) <==> exists k :: GivesTo(k, g, client) {
        if k :| k in clientGroups && Identifies(k, client) && g in clientGroups[k] {
          assert GivesTo(k, g, client);
        }
      }
      assert (exists k, h :: GivesTo(k, h, client)) <==> OwnGroups(client) != {} by {
        if k, h :| GivesTo(k, h, client) {
          assert h in OwnGroups(client);
        }
        if h :| h in OwnGroups(client) {
          var k :| GivesTo(k, h, client);
        }
      }
      assert forall g :: g in Elements(disabledGroups) <==> g in disabledGroups;
      assert DEFAULT_GROUP == "default";
    }

    /** `groupsToCheckForClient`, over one snapshot of the status. */
    method GroupsToCheckForClient(client: Client) returns (result: seq<string>)
      ensures Sorted(result)
      ensures forall g :: g in result <==> g in ActiveGroups(client)
    {
      var groups: seq<string> := [];
      for i := 0 to |client.names|
        invariant forall g :: g in groups <==> exists k :: Gives(k, g) && Named(k, client, i)
      {
        var more := CollectWhere(k => id.nameMatches(k, client.names[i]));
        groups := groups + more;
        assert forall k :: Named(k, client, i + 1) <==> Named(k, client, i) || id.nameMatches(k, client.names[i]);
      }
      if client.ip in clientGroups {
        groups := groups + clientGroups[client.ip];
      }
      var more := CollectWhere(k => Addressed(k, client));
      groups := groups + more;
      OwnGroupsAre(client, groups);
      if groups == [] {
        groups := if DEFAULT_GROUP in clientGroups then clientGroups[DEFAULT_GROUP] else [];
      }
      assert forall g :: g in groups <==> g in AssignedGroups(client);
      var active := Active(groups);
      result := SortStrings(active);
      assert forall g :: g in result <==> g in multiset(result);
      assert forall g :: g in active <==> g in multiset(active);
    }

    method Active(groups: seq<string>) returns (active: seq<string>)
      ensures forall g :: g in active <==> g in groups && g !in disabledGroups
    {
      active := [];
      for i := 0 to |groups|
        invariant forall g :: g in active <==> g in groups[..i] && g !in disabledGroups
      {
        assert groups[..i + 1] == groups[..i] + [groups[i]];
        if groups[i] !in disabledGroups {
          active := active + [groups[i]];
        }
      }
      assert groups[..|groups|] == groups;
    }

    lemma OwnGroupsAre(client: Client, groups: seq<string>)
      requires forall g :: g in groups <==>
        || (exists k :: Gives(k, g) && Named(k, client, |client.names|))
        || Gives(client.ip, g)
        || (exists k :: Gives(k, g) && Addressed(k, client))
      ensures forall g :: g in groups <==> g in OwnGroups(client)
      ensures groups == [] <==> OwnGroups(client) == {}
    {
      forall k
        ensures Identifies(k, client) <==> Named(k, client, |client.names|) || k == client.ip || Addressed(k, client)
      {
        if n :| n in client.names && id.nameMatches(k, n) {
          var i :| 0 <= i < |client.names| && client.names[i] == n;
          assert Named(k, client, |client.names|);
        }
      }
      forall g ensures g in OwnGroups(client) <==> exists k :: Gives(k, g) && Identifies(k, client) {
        if k :| Gives(k, g) && Identifies(k, client) {
          assert k in clientGroups && g in clientGroups[k];
        }
      }
      if groups != [] {
        assert groups[0] in groups;
      }
    }

    /** `ListCache.Match` over the active groups. */
    method Matches(cache: L.ListCache, groups: seq<string>, name: string, ghost l: Matcher)
      returns (matched: seq<string>)
      requires cache.Valid() && Reflects(l, cache)
      ensures StrictlySorted(matched) && (matched != [] <==> Listed(l, Elements(groups), name))
      ensures forall g :: g in matched <==> g in Elements(groups) && l(g, name)
    {
      hide H.Hit;
      matched := cache.Match(name, groups);
      assert forall g :: g in matched <==> g in Elements(groups) && l(g, name);
      if matched != [] {
        assert matched[0] in matched;
      }
    }

    /** `hasAllowlistOnlyAllowed`. */
    method HasAllowlistOnlyAllowed(groups: seq<string>) returns (found: bool)
      requires allowlistOnlyGroups == AllowlistOnlyGroups(allowSources, denylists)
      ensures found <==>
        exists g :: g in groups && g in allowSources && allowSources[g] > 0 && g !in denylists
    {
      for i := 0 to |groups|
        invariant forall j :: 0 <= j < i ==> groups[j] !in allowlistOnlyGroups
      {
        if groups[i] in allowlistOnlyGroups {
          return true;
        }
      }
      return false;
    }

    /** `Resolve` for one question; `answer` is what the next resolver returns, if it succeeds. */
    method Resolve(client: Client, name: string, answer: Option<seq<Record>>) returns (v: Verdict)
      requires Valid()
      ensures Policy(SituationOf(client), name, answer, v)
      ensures AnswerRule(SituationOf(client), name, answer, v)
    {
      hide Policy, AnswerRule;
      v := Decide(client, name, answer);
      PolicyFollowsAnswers(SituationOf(client), name, answer, v);
    }

    method Decide(client: Client, name: string, answer: Option<seq<Record>>) returns (v: Verdict)
      requires Valid()
      ensures Policy(SituationOf(client), name, answer, v)
    {
      hide L.ListCache.Valid, ContentOf, AssignedGroups, StrictlySorted, Sorted;
      var groups := GroupsToCheckForClient(client);
      ghost var s := SituationOf(client);
      ContentReflects(allow);
      ContentReflects(deny);
      hide Reflects;
      assert s.active == Elements(groups);
      if groups == [] {
        return Passed;
      }
      var verdict := HandleDenylist(groups, name, s);
      if verdict.Some? {
        return verdict.value;
      }
      if answer.Some? {
        var i, denied := InspectAnswer(groups, answer.value, s);
        if denied != [] {
          var kind := EntryToCheck(answer.value[i]).1;
          assert AnswerBlocked(s, answer.value, i, kind, denied);
          return Blocked(AnswerListed(kind, denied));
        }
      }
      return Passed;
    }

    /** `handleDenylist`: decides by the name alone, if that is enough. */
    method HandleDenylist(groups: seq<string>, name: string, ghost s: Situation) returns (v: Option<Verdict>)
      requires Reflects(s.allow, allow) && Reflects(s.deny, deny) && allow.Valid() && deny.Valid()
      requires s.active == Elements(groups) && s.allowlistOnly == allowlistOnlyGroups
      requires allowlistOnlyGroups == AllowlistOnlyGroups(allowSources, denylists)
      ensures v.Some? <==> Listed(s.allow, s.active, name) || HasAllowlistOnly(s) || Listed(s.deny, s.active, name)
      ensures v.Some? ==> forall answer :: Policy(s, name, answer, v.value)
    {
      hide L.ListCache.Valid, Reflects;
      var matched := Matches(allow, groups, name, s.allow);
      if matched != [] {
        return Some(Passed);
      }
      var allowlistOnly := HasAllowlistOnlyAllowed(groups);
      assert forall g :: g in groups <==> g in s.active;
      if allowlistOnly {
        return Some(Blocked(AllowlistOnly));
      }
      matched := Matches(deny, groups, name, s.deny);
      if matched != [] {
        return Some(Blocked(NameListed(matched)));
      }
      return None;
    }

    /** Which active groups block one record of the answer. */
    method CheckRecord(groups: seq<string>, r: Record, ghost s: Situation) returns (denied: seq<string>)
      requires deny.Valid() && allow.Valid() && s.active == Elements(groups)
      requires Reflects(s.allow, allow) && Reflects(s.deny, deny)
      ensures denied != [] <==> BadRecord(s, r)
      ensures denied != [] ==> Names(denied, s, EntryToCheck(r).0)
    {
      var entry := EntryToCheck(r).0;
      if entry == "" {
        return [];
      }
      var allowed := Matches(allow, groups, entry, s.allow);
      if allowed != [] {
        return [];
      }
      denied := Matches(deny, groups, entry, s.deny);
    }

    /** The loop over the records that the next resolver returned: stops at the first bad one. */
    method InspectAnswer(groups: seq<string>, answer: seq<Record>, ghost s: Situation)
      returns (i: nat, denied: seq<string>)
      requires deny.Valid() && allow.Valid() && s.active == Elements(groups)
      requires Reflects(s.allow, allow) && Reflects(s.deny, deny)
      ensures i <= |answer| && forall j :: 0 <= j < i ==> !BadRecord(s, answer[j])
      ensures denied != [] <==> i < |answer|
      ensures denied != [] ==> BadRecord(s, answer[i]) && Names(denied, s, EntryToCheck(answer[i]).0)
    {
      i, denied := 0, [];
      while i < |answer|
        invariant i <= |answer| && denied == []
        invariant forall j :: 0 <= j < i ==> !BadRecord(s, answer[j])
      {
        denied := CheckRecord(groups, answer[i], s);
        if denied != [] {
          return;
        }
        i := i + 1;
      }
    }
  }
}
