/**
  What is visible of list loads that run side by side: every load fills its own factories and then
  finishes the member caches one after the other, each under that member's lock
  (`lists/list_cache.go`, `chained_grouped_cache.go`, `in_memory_grouped_cache.go`).
 */
module ListHistory {
  import opened Text
  import opened TrieRuns
  import opened StringStore
  import opened ListEntries

  /** The member caches, in chain order. */
  datatype Member = Regex | Wildcard | Strings

  function Rank(m: Member): nat {
    match m
    case Regex => 0
    case Wildcard => 1
    case Strings => 2
  }

  /** For every member and group, the entries of the load that the member last finished. */
  datatype Content = Content(
    regex: map<string, seq<string>>,
    wildcard: map<string, seq<string>>,
    strings: map<string, seq<string>>)

  const EMPTY := Content(map[], map[], map[])

  function Of(c: Content, m: Member): map<string, seq<string>> {
    match m
    case Regex => c.regex
    case Wildcard => c.wildcard
    case Strings => c.strings
  }

  function Put(c: Content, m: Member, group: string, entries: seq<string>): Content {
    match m
    case Regex => c.(regex := c.regex[group := entries])
    case Wildcard => c.(wildcard := c.wildcard[group := entries])
    case Strings => c.(strings := c.strings[group := entries])
  }

  function Groups(c: Content): set<string> {
    c.regex.Keys + c.wildcard.Keys + c.strings.Keys
  }

  /** A load takes entries until it is given up or begins to finish; `done` members are finished then. */
  datatype Phase = Filling | Finishing(done: nat) | Ended

  datatype Load = Load(group: string, entries: seq<string>, phase: Phase)

  datatype State = State(loads: map<nat, Load>, content: Content)

  /** A step of one of the loads; `Abort` covers every error that keeps a load from being committed. */
  datatype Event =
    | Refresh(id: nat, group: string)
    | Add(id: nat, entry: string)
    | Abort(id: nat)
    | FinishMember(id: nat, member: Member)

  predicate Enabled(st: State, e: Event) {
    match e
    case Refresh(id, group) => id !in st.loads
    case Add(id, entry) => id in st.loads && st.loads[id].phase.Filling?
    case Abort(id) => id in st.loads && st.loads[id].phase.Filling?
    case FinishMember(id, m) => id in st.loads && !st.loads[id].phase.Ended? && Done(st.loads[id]) == Rank(m)
  }

  function Done(load: Load): nat {
    if load.phase.Finishing? then load.phase.done else 0
  }

  /** A load after it was given an entry: a lone slash panics, which ends the load. */
  function Extended(load: Load, entry: string): Load {
    if Panics(entry) then load.(phase := Ended) else load.(entries := load.entries + [entry])
  }

  function Next(st: State, e: Event): State
    requires Enabled(st, e)
  {
    match e
    case Refresh(id, group) => st.(loads := st.loads[id := Load(group, [], Filling)])
    case Add(id, entry) => st.(loads := st.loads[id := Extended(st.loads[id], entry)])
    case Abort(id) => st.(loads := st.loads[id := st.loads[id].(phase := Ended)])
    case FinishMember(id, m) =>
      var load := st.loads[id];
      State(st.loads[id := load.(phase := Finishing(Rank(m) + 1))], Put(st.content, m, load.group, load.entries))
  }

  function After(events: seq<Event>): State {
    if events == [] then State(map[], EMPTY)
    else
      var before, e := After(events[..|events| - 1]), events[|events| - 1];
      if Enabled(before, e) then Next(before, e) else before
  }

  /** Every event was possible when it happened. */
  ghost predicate Happens(events: seq<Event>) {
    forall i :: 0 <= i < |events| ==> Enabled(After(events[..i]), events[i])
  }

  lemma HappensSnoc(events: seq<Event>, e: Event)
    ensures Happens(events + [e]) <==> Happens(events) && Enabled(After(events), e)
    ensures Enabled(After(events), e) ==> After(events + [e]) == Next(After(events), e)
  {
    hide After, Enabled;
    var all := events + [e];
    assert all[..|events|] == events;
    forall i | 0 <= i < |events| ensures all[..i] == events[..i] && all[i] == events[i] {}
    if Happens(events) && Enabled(After(events), e) {
      forall i | 0 <= i < |all| ensures Enabled(After(all[..i]), all[i]) {
        if i < |events| { assert Enabled(After(events[..i]), events[i]); }
      }
    }
    if Happens(all) {
      assert Enabled(After(all[..|events|]), all[|events|]);
      forall i | 0 <= i < |events| ensures Enabled(After(events[..i]), events[i]) {
        assert Enabled(After(all[..i]), all[i]);
      }
    }
    AfterSnoc(events, e);
  }

  lemma AfterSnoc(events: seq<Event>, e: Event)
    ensures Enabled(After(events), e) ==> After(events + [e]) == Next(After(events), e)
  {
    assert (events + [e])[..|events|] == events;
  }

  /** The last event of a history, and the history before it. */
  lemma Unsnoc(events: seq<Event>) returns (init: seq<Event>, last: Event)
    requires Happens(events) && events != []
    ensures events == init + [last] && Happens(init) && Enabled(After(init), last)
    ensures After(events) == Next(After(init), last)
    ensures init == events[..|events| - 1] && last == events[|events| - 1]
  {
    init, last := events[..|events| - 1], events[|events| - 1];
    assert events == init + [last];
    HappensSnoc(init, last);
  }

  /** What an event gives to load `id`. */
  function Given(e: Event, id: nat): seq<string> {
    if e.Add? && e.id == id && !Panics(e.entry) then [e.entry] else []
  }

  /** What load `id` was given. */
  function Entries(events: seq<Event>, id: nat): seq<string> {
    if events == [] then []
    else
      Entries(events[..|events| - 1], id) + Given(events[|events| - 1], id)
  }

  /** What an event does to a load. */
  lemma StepOfLoad(st: State, e: Event, id: nat)
    requires Enabled(st, e)
    ensures var st' := Next(st, e);
      && (e.Refresh? && e.id == id ==>
            id !in st.loads && id in st'.loads && st'.loads[id] == Load(e.group, [], Filling))
      && (!(e.Refresh? && e.id == id) ==>
            && (id in st'.loads <==> id in st.loads)
            && (id in st.loads ==> st'.loads[id].group == st.loads[id].group)
            && (id in st.loads ==> st'.loads[id].entries == st.loads[id].entries + Given(e, id)))
      && (e.id == id && !e.Refresh? ==> id in st.loads)
  {
    hide Panics;
    assert forall l: seq<string> :: l + [] == l;
  }

  lemma StepOfFinish(st: State, e: Event, id: nat, m: Member)
    requires Enabled(st, e)
    ensures var st' := Next(st, e);
      (id in st'.loads && Rank(m) < Done(st'.loads[id]))
      <==> e == FinishMember(id, m) || (id in st.loads && Rank(m) < Done(st.loads[id]))
  {
    hide Panics;
  }

  lemma StepOfContent(st: State, e: Event)
    requires Enabled(st, e)
    ensures Next(st, e).content == if e.FinishMember?
      then Put(st.content, e.member, st.loads[e.id].group, st.loads[e.id].entries) else st.content
  {
    hide Panics, Put;
  }

  /** The loads of a state are what the history says of them. */
  lemma LoadsAre(events: seq<Event>, id: nat)
    requires Happens(events)
    ensures var loads := After(events).loads;
      && (id in loads <==> exists g :: Refresh(id, g) in events)
      && (id in loads ==> loads[id].entries == Entries(events, id))
      && (forall g :: Refresh(id, g) in events ==> id in loads && loads[id].group == g)
  {
    hide After, Entries;
    EntriesAre(events, id);
    StartedAre(events, id);
    if id in After(events).loads {
      assert Refresh(id, After(events).loads[id].group) in events;
    }
  }

  lemma {:induction false} EntriesAre(events: seq<Event>, id: nat)
    requires Happens(events)
    ensures Entries(events, id) == if id in After(events).loads then After(events).loads[id].entries else []
  {
    hide Next, Enabled;
    if events != [] {
      var init, last := Unsnoc(events);
      EntriesAre(init, id);
      StepOfLoad(After(init), last, id);
    }
  }

  lemma {:induction false} StartedAre(events: seq<Event>, id: nat)
    requires Happens(events)
    ensures forall g :: Refresh(id, g) in events <==> id in After(events).loads && After(events).loads[id].group == g
  {
    hide Next, Enabled;
    if events != [] {
      var init, last := Unsnoc(events);
      StartedAre(init, id);
      StepOfLoad(After(init), last, id);
      assert forall g :: Refresh(id, g) in events <==> Refresh(id, g) in init || last == Refresh(id, g);
    }
  }

  /** A load has finished exactly the members before its position in the chain. */
  lemma {:induction false} FinishedAre(events: seq<Event>, id: nat, m: Member)
    requires Happens(events)
    ensures FinishMember(id, m) in events <==> id in After(events).loads && Rank(m) < Done(After(events).loads[id])
  {
    hide Next, Enabled;
    if events != [] {
      var init, last := Unsnoc(events);
      FinishedAre(init, id, m);
      StepOfFinish(After(init), last, id, m);
    }
  }

  /** Event `e` finishes member `m` for group `g`. */
  predicate FinishesFor(events: seq<Event>, e: Event, m: Member, g: string) {
    e.FinishMember? && e.member == m && Refresh(e.id, g) in events
  }

  predicate IsLastFinish(events: seq<Event>, m: Member, g: string, i: int) {
    && 0 <= i < |events| && FinishesFor(events, events[i], m, g)
    && forall j :: i < j < |events| ==> !FinishesFor(events, events[j], m, g)
  }

  /**
    In every history of refreshes, added entries, failures and finishes, by any number of loads, each
    member holds for each group exactly the entries of the load that finished on that member last.
   */
  lemma {:induction false} LastFinishWins(events: seq<Event>, m: Member, g: string)
    requires Happens(events)
    ensures g in Of(After(events).content, m) <==> exists i :: IsLastFinish(events, m, g, i)
    ensures forall i :: IsLastFinish(events, m, g, i) ==>
      Of(After(events).content, m)[g] == Entries(events, events[i].id)
  {
    if events != [] {
      var init, last := Unsnoc(events);
      LastFinishWins(init, m, g);
      if last.FinishMember? {
        LoadsAre(events, last.id);
        LoadsAre(init, last.id);
      }
      if FinishesFor(events, last, m, g) {
        assert IsLastFinish(events, m, g, |init|);
        forall i | IsLastFinish(events, m, g, i) ensures i == |init| {}
      } else {
        NotPut(init, last, events, m, g);
        forall i ensures IsLastFinish(events, m, g, i) <==> IsLastFinish(init, m, g, i) {
          SameFinish(init, last, events, m, g, i);
        }
        forall i | IsLastFinish(init, m, g, i) ensures Entries(events, events[i].id) == Entries(init, init[i].id) {
          FinishedTakesNoMore(init, last, i);
        }
      }
    }
  }

  lemma NotPut(init: seq<Event>, last: Event, events: seq<Event>, m: Member, g: string)
    requires Happens(events) && events == init + [last] && Happens(init) && Enabled(After(init), last)
    requires After(events) == Next(After(init), last) && !FinishesFor(events, last, m, g)
    ensures (g in Of(After(events).content, m) <==> g in Of(After(init).content, m))
    ensures g in Of(After(init).content, m) ==> Of(After(events).content, m)[g] == Of(After(init).content, m)[g]
  {
    hide After, Next;
    StepOfContent(After(init), last);
    if last.FinishMember? {
      LoadsAre(init, last.id);
      var h :| Refresh(last.id, h) in init;
      assert Refresh(last.id, h) in events;
    }
  }

  lemma SameFinish(init: seq<Event>, last: Event, events: seq<Event>, m: Member, g: string, i: int)
    requires Happens(events) && events == init + [last] && Happens(init) && Enabled(After(init), last)
    requires !FinishesFor(events, last, m, g)
    ensures IsLastFinish(events, m, g, i) <==> IsLastFinish(init, m, g, i)
  {
    forall j | 0 <= j < |init|
      ensures events[j] == init[j] && (FinishesFor(events, events[j], m, g) <==> FinishesFor(init, init[j], m, g))
    {
      if events[j].FinishMember? && last == Refresh(events[j].id, g) {
        assert init[j] in init;
        FinishedAre(init, init[j].id, init[j].member);
      }
    }
    assert events[|init|] == last;
  }

  lemma FinishedTakesNoMore(init: seq<Event>, last: Event, i: int)
    requires Happens(init) && Enabled(After(init), last) && 0 <= i < |init| && init[i].FinishMember?
    ensures Entries(init + [last], init[i].id) == Entries(init, init[i].id)
  {
    hide After, Next, Panics;
    assert (init + [last])[..|init|] == init;
    assert init[i] in init;
    FinishedAre(init, init[i].id, init[i].member);
    assert Given(last, init[i].id) == [];
    assert Entries(init, init[i].id) + [] == Entries(init, init[i].id);
  }

  // Loads that are not committed.

  function Without(events: seq<Event>, id: nat): seq<Event> {
    if events == [] then []
    else
      var e := events[|events| - 1];
      Without(events[..|events| - 1], id) + if e.id == id then [] else [e]
  }

  /** The state without load `id`. */
  function Less(st: State, id: nat): State {
    st.(loads := st.loads - {id})
  }

  lemma LessOfNone(id: nat)
    ensures Less(State(map[], EMPTY), id) == State(map[], EMPTY)
  {
  }

  lemma StepWithout(st: State, e: Event, id: nat)
    requires Enabled(st, e) && (e.FinishMember? ==> e.id != id)
    ensures e.id == id ==> Less(Next(st, e), id) == Less(st, id)
    ensures e.id != id ==> Enabled(Less(st, id), e) && Next(Less(st, id), e) == Less(Next(st, e), id)
  {
    hide Panics, Put;
  }

  /** A load that never finishes a member, for whatever reason, leaves no trace: the history without it is the same. */
  lemma {:induction false} UnfinishedLeavesNoTrace(events: seq<Event>, id: nat)
    requires Happens(events) && forall m :: FinishMember(id, m) !in events
    ensures Happens(Without(events, id))
    ensures After(Without(events, id)) == Less(After(events), id)
  {
    LessOfNone(id);
    hide Next, Enabled, Less;
    if events != [] {
      var init, last := Unsnoc(events);
      forall m ensures FinishMember(id, m) !in init { assert FinishMember(id, m) !in events; }
      UnfinishedLeavesNoTrace(init, id);
      StepWithout(After(init), last, id);
      if last.id == id {
        assert Without(events, id) == Without(init, id) + [] == Without(init, id);
      } else {
        HappensSnoc(Without(init, id), last);
      }
    }
  }

  // Whole groups.

  /** All members hold the entries of one load of the group. */
  predicate Uniform(c: Content, g: string, entries: seq<string>) {
    forall m :: g in Of(c, m) && Of(c, m)[g] == entries
  }

  /** Load `id` was the last to finish member `m` for group `g`. */
  ghost predicate IsLastOn(events: seq<Event>, m: Member, g: string, id: nat) {
    exists i :: IsLastFinish(events, m, g, i) && events[i].id == id
  }

  /** The group is in one piece: the same load was the last to finish on all members. */
  ghost predicate InOnePiece(events: seq<Event>, g: string, id: nat) {
    forall m :: IsLastOn(events, m, g, id)
  }

  /** Load `id` finished the member, and another load of the group finished it later. */
  predicate Overtaken(events: seq<Event>, m: Member, g: string, id: nat) {
    exists i, j :: 0 <= i < j < |events| && events[i] == FinishMember(id, m) && FinishesFor(events, events[j], m, g)
      && events[j].id != id
  }

  lemma OnceOnly(events: seq<Event>, i: nat, j: nat)
    requires Happens(events) && i < j < |events| && events[i].FinishMember? && events[j].FinishMember?
    requires events[i].id == events[j].id
    ensures events[i].member != events[j].member
  {
    var before := events[..j];
    HappensPrefix(events, j);
    assert events[i] in before by { assert before[i] == events[i]; }
    FinishedAre(before, events[i].id, events[i].member);
    assert Enabled(After(events[..j]), events[j]);
  }

  lemma HappensPrefix(events: seq<Event>, k: nat)
    requires Happens(events) && k <= |events|
    ensures Happens(events[..k])
  {
    forall i | 0 <= i < k ensures Enabled(After(events[..k][..i]), events[..k][i]) {
      assert events[..k][..i] == events[..i] && events[..k][i] == events[i];
    }
  }

  /**
    The exact condition: a load that has finished the last member of the chain is the one that all
    members of its group hold if and only if no other load of the group finished a member after it.
   */
  lemma InOnePieceIff(events: seq<Event>, g: string, id: nat)
    requires Happens(events) && Refresh(id, g) in events && FinishMember(id, Strings) in events
    ensures InOnePiece(events, g, id) <==> forall m :: !Overtaken(events, m, g, id)
  {
    forall m ensures IsLastOn(events, m, g, id) <==> !Overtaken(events, m, g, id) {
      FinishedAre(events, id, Strings);
      FinishedAre(events, id, m);
      LastUnlessOvertaken(events, m, g, id);
    }
  }

  lemma LastUnlessOvertaken(events: seq<Event>, m: Member, g: string, id: nat)
    requires Happens(events) && Refresh(id, g) in events && FinishMember(id, m) in events
    ensures IsLastOn(events, m, g, id) <==> !Overtaken(events, m, g, id)
  {
    var i :| 0 <= i < |events| && events[i] == FinishMember(id, m);
    forall k | 0 <= k < |events| && events[k] == events[i] ensures k == i {
      if k < i { OnceOnly(events, k, i); }
      if i < k { OnceOnly(events, i, k); }
    }
    assert FinishesFor(events, events[i], m, g);
    if IsLastOn(events, m, g, id) {
      var k :| IsLastFinish(events, m, g, k) && events[k].id == id;
      assert events[k] == events[i];
    }
    if !Overtaken(events, m, g, id) {
      forall j | i < j < |events| ensures !FinishesFor(events, events[j], m, g) {
        assert events[j] != events[i];
      }
      assert IsLastFinish(events, m, g, i);
    }
  }

  /** A group in one piece holds the entries of that load, everywhere. */
  lemma OnePieceIsUniform(events: seq<Event>, g: string, id: nat)
    requires Happens(events) && InOnePiece(events, g, id)
    ensures Uniform(After(events).content, g, Entries(events, id))
  {
    forall m ensures g in Of(After(events).content, m) && Of(After(events).content, m)[g] == Entries(events, id) {
      LastFinishWins(events, m, g);
      assert IsLastOn(events, m, g, id);
    }
  }

  // Lookups.

  /** One of the members hits on what it holds for the group. */
  ghost predicate Hit(re: RegexEngine, c: Content, g: string, name: string) {
    || (g in c.regex && RegexHit(re, c.regex[g], name))
    || (g in c.wildcard && HasParentIn(WildcardsOf(c.wildcard[g]), name))
    || (g in c.strings && ToLower(name) in Normalized(StringsOf(c.strings[g])))
  }

  /** The members hold the same for the group. */
  predicate SameGroup(c: Content, c': Content, g: string) {
    forall m :: (g in Of(c, m) <==> g in Of(c', m)) && (g in Of(c, m) ==> Of(c, m)[g] == Of(c', m)[g])
  }

  lemma SameGroupHits(re: RegexEngine, c: Content, c': Content, g: string, name: string)
    requires SameGroup(c, c', g)
    ensures Hit(re, c, g, name) <==> Hit(re, c', g, name)
  {
    assert Of(c, Regex) == c.regex && Of(c, Wildcard) == c.wildcard && Of(c, Strings) == c.strings;
  }

  /** A uniform group hits exactly the names that some entry of its load matches. */
  lemma UniformHits(re: RegexEngine, c: Content, g: string, entries: seq<string>, name: string)
    requires Uniform(c, g, entries)
    ensures Hit(re, c, g, name) <==> GroupMatches(re, entries, name)
  {
    assert g in Of(c, Regex) && g in Of(c, Wildcard) && g in Of(c, Strings);
    ChainIsComplete(re, entries, name);
  }

  /**
    When the last load to finish the chain was not overtaken on any member, a lookup in its group sees
    its entries and nothing else.
   */
  lemma LookupsSeeOneLoad(re: RegexEngine, events: seq<Event>, g: string, id: nat, name: string)
    requires Happens(events) && Refresh(id, g) in events && FinishMember(id, Strings) in events
    requires forall m :: !Overtaken(events, m, g, id)
    ensures Hit(re, After(events).content, g, name) <==> GroupMatches(re, Entries(events, id), name)
  {
    InOnePieceIff(events, g, id);
    OnePieceIsUniform(events, g, id);
    UniformHits(re, After(events).content, g, Entries(events, id), name);
  }

  ghost predicate Leads(events: seq<Event>, st: State) {
    Happens(events) && After(events) == st
  }

  predicate StepsTo(st: State, e: Event, st': State) {
    Enabled(st, e) && Next(st, e) == st'
  }

  lemma LeadsTwice(events: seq<Event>, st: State, e: Event, st1: State, e': Event, st2: State)
    requires Leads(events, st) && StepsTo(st, e, st1) && StepsTo(st1, e', st2)
    ensures Leads(events + [e, e'], st2)
  {
    hide Enabled, Next, Happens, After;
    HappensSnoc(events, e);
    HappensSnoc(events + [e], e');
    assert events + [e] + [e'] == events + [e, e'];
  }

  /** Two loads of one group: the second finishes all members while the first is between its regexes and its names. */
  function Crossing(g: string, a: string, b: string): seq<Event> {
    [] + [Refresh(0, g), Refresh(1, g)] + [Add(0, a), Add(1, b)]
    + [FinishMember(0, Regex), FinishMember(1, Regex)]
    + [FinishMember(1, Wildcard), FinishMember(1, Strings)]
    + [FinishMember(0, Wildcard), FinishMember(0, Strings)]
  }

  lemma CrossingMixes(g: string, a: string, b: string)
    requires !Panics(a) && !Panics(b)
    ensures Happens(Crossing(g, a, b))
    ensures After(Crossing(g, a, b)).content == Content(map[g := [b]], map[g := [a]], map[g := [a]])
  {
    hide Panics;
    var none := State(map[], EMPTY);
    var both := State(map[0 := Load(g, [], Filling), 1 := Load(g, [], Filling)], EMPTY);
    var full := Two(g, a, b, Filling, Filling, EMPTY);
    var first := Two(g, a, b, Finishing(1), Finishing(1), Content(map[g := [b]], map[], map[]));
    var second := Two(g, a, b, Finishing(1), Finishing(3), Content(map[g := [b]], map[g := [b]], map[g := [b]]));
    var third := Two(g, a, b, Finishing(3), Finishing(3), Content(map[g := [b]], map[g := [a]], map[g := [a]]));
    assert Leads([], none);
    CrossingFills(g, a, b);
    CrossingFinishes(g, a, b);
    hide Two, StepsTo, Leads;
    LeadsTwice([], none, Refresh(0, g), State(map[0 := Load(g, [], Filling)], EMPTY), Refresh(1, g), both);
    var e1 := [] + [Refresh(0, g), Refresh(1, g)];
    LeadsTwice(e1, both, Add(0, a), State(map[0 := Load(g, [a], Filling), 1 := Load(g, [], Filling)], EMPTY),
               Add(1, b), full);
    var e2 := e1 + [Add(0, a), Add(1, b)];
    LeadsTwice(e2, full, FinishMember(0, Regex),
               Two(g, a, b, Finishing(1), Filling, Content(map[g := [a]], map[], map[])),
               FinishMember(1, Regex), first);
    var e3 := e2 + [FinishMember(0, Regex), FinishMember(1, Regex)];
    LeadsTwice(e3, first, FinishMember(1, Wildcard),
               Two(g, a, b, Finishing(1), Finishing(2), Content(map[g := [b]], map[g := [b]], map[])),
               FinishMember(1, Strings), second);
    var e4 := e3 + [FinishMember(1, Wildcard), FinishMember(1, Strings)];
    LeadsTwice(e4, second, FinishMember(0, Wildcard),
               Two(g, a, b, Finishing(2), Finishing(3), Content(map[g := [b]], map[g := [a]], map[g := [b]])),
               FinishMember(0, Strings), third);
    assert Leads(Crossing(g, a, b), third);
    CrossingEnds(g, a, b, third);
  }

  lemma CrossingEnds(g: string, a: string, b: string, st: State)
    requires Leads(Crossing(g, a, b), st)
    ensures Happens(Crossing(g, a, b)) && After(Crossing(g, a, b)) == st
  {
    hide Crossing;
  }

  function Two(g: string, a: string, b: string, p: Phase, q: Phase, c: Content): State {
    State(map[0 := Load(g, [a], p), 1 := Load(g, [b], q)], c)
  }

  lemma CrossingFills(g: string, a: string, b: string)
    requires !Panics(a) && !Panics(b)
    ensures var none, one := State(map[], EMPTY), State(map[0 := Load(g, [], Filling)], EMPTY);
      var both := State(map[0 := Load(g, [], Filling), 1 := Load(g, [], Filling)], EMPTY);
      var part := State(map[0 := Load(g, [a], Filling), 1 := Load(g, [], Filling)], EMPTY);
      && StepsTo(none, Refresh(0, g), one) && StepsTo(one, Refresh(1, g), both)
      && StepsTo(both, Add(0, a), part) && StepsTo(part, Add(1, b), Two(g, a, b, Filling, Filling, EMPTY))
  {
    hide Panics;
    assert [] + [a] == [a] && [] + [b] == [b];
  }

  lemma CrossingFinishes(g: string, a: string, b: string)
    ensures var ra, rb := Content(map[g := [a]], map[], map[]), Content(map[g := [b]], map[], map[]);
      var wb, sb := Content(map[g := [b]], map[g := [b]], map[]), Content(map[g := [b]], map[g := [b]], map[g := [b]]);
      var wa := Content(map[g := [b]], map[g := [a]], map[g := [b]]);
      var sa := Content(map[g := [b]], map[g := [a]], map[g := [a]]);
      && StepsTo(Two(g, a, b, Filling, Filling, EMPTY), FinishMember(0, Regex), Two(g, a, b, Finishing(1), Filling, ra))
      && StepsTo(Two(g, a, b, Finishing(1), Filling, ra), FinishMember(1, Regex),
                 Two(g, a, b, Finishing(1), Finishing(1), rb))
      && StepsTo(Two(g, a, b, Finishing(1), Finishing(1), rb), FinishMember(1, Wildcard),
                 Two(g, a, b, Finishing(1), Finishing(2), wb))
      && StepsTo(Two(g, a, b, Finishing(1), Finishing(2), wb), FinishMember(1, Strings),
                 Two(g, a, b, Finishing(1), Finishing(3), sb))
      && StepsTo(Two(g, a, b, Finishing(1), Finishing(3), sb), FinishMember(0, Wildcard),
                 Two(g, a, b, Finishing(2), Finishing(3), wa))
      && StepsTo(Two(g, a, b, Finishing(2), Finishing(3), wa), FinishMember(0, Strings),
                 Two(g, a, b, Finishing(3), Finishing(3), sa))
  {
    var ra, rb := Content(map[g := [a]], map[], map[]), Content(map[g := [b]], map[], map[]);
    var wb, sb := Content(map[g := [b]], map[g := [b]], map[]), Content(map[g := [b]], map[g := [b]], map[g := [b]]);
    var wa := Content(map[g := [b]], map[g := [a]], map[g := [b]]);
    assert map[g := [a]][g := [b]] == map[g := [b]] && map[g := [b]][g := [a]] == map[g := [a]];
    hide StepsTo, Two;
    FirstFinishes(g, a, b, Filling, Filling, EMPTY, Regex);
    SecondFinishes(g, a, b, Finishing(1), Filling, ra, Regex);
    SecondFinishes(g, a, b, Finishing(1), Finishing(1), rb, Wildcard);
    SecondFinishes(g, a, b, Finishing(1), Finishing(2), wb, Strings);
    FirstFinishes(g, a, b, Finishing(1), Finishing(3), sb, Wildcard);
    FirstFinishes(g, a, b, Finishing(2), Finishing(3), wa, Strings);
  }

  lemma FirstFinishes(g: string, a: string, b: string, p: Phase, q: Phase, c: Content, m: Member)
    requires if p.Finishing? then p.done == Rank(m) else p.Filling? && m == Regex
    ensures StepsTo(Two(g, a, b, p, q, c), FinishMember(0, m),
                    Two(g, a, b, Finishing(Rank(m) + 1), q, Put(c, m, g, [a])))
  {
  }

  lemma SecondFinishes(g: string, a: string, b: string, p: Phase, q: Phase, c: Content, m: Member)
    requires if q.Finishing? then q.done == Rank(m) else q.Filling? && m == Regex
    ensures StepsTo(Two(g, a, b, p, q, c), FinishMember(1, m),
                    Two(g, a, b, p, Finishing(Rank(m) + 1), Put(c, m, g, [b])))
  {
  }

  /**
    Both loads have finished, and the group answers for the name of the one and the pattern of the
    other: no single load explains what is seen.
   */
  lemma OvertakenGroupIsMixed(re: RegexEngine, g: string, a: string, b: string, n: string)
    requires a != "" && !IsRegex(a) && '*' !in a && KeepsRegex(re, b)
    requires re.matches(Pattern(b), n) && ToLower(n) != ToLower(a) && !re.matches(Pattern(b), a)
    ensures var c := After(Crossing(g, a, b)).content;
      && Happens(Crossing(g, a, b)) && Hit(re, c, g, n) && Hit(re, c, g, a)
      && !GroupMatches(re, [a], n) && !GroupMatches(re, [b], a)
  {
    hide Crossing, RegexesOf, StringsOf, WildcardsOf, IsRegex, Pattern, Happens, After, HasParentIn;
    CrossingMixes(g, a, b);
    OneEntry(re, a);
    OneEntry(re, b);
    assert Pattern(b) in RegexesOf(re, [b]) && a in StringsOf([a]);
  }

  lemma OneEntry(re: RegexEngine, e: string)
    ensures RegexesOf(re, [e]) == if KeepsRegex(re, e) then [Pattern(e)] else []
    ensures StringsOf([e]) == if !IsRegex(e) && '*' !in e then [e] else []
  {
    ShareSnoc(re, [], e);
    assert [] + [e] == [e];
  }
}
