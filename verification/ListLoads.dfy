/**
  Loads of list groups that run side by side on one cache (`refresh` and `createCacheForGroup` of
  `lists/list_cache.go`).
 */
module ListLoads {
  import opened Text
  import opened ListEntries
  import opened ListHistory
  import L = ListCache

  /** How the producers of a group ended. */
  datatype Outcome = NoError | Transient | Permanent

  /** A failed load is dropped if it brought no entry or may be retried. */
  predicate Commits(entries: seq<string>, outcome: Outcome) {
    outcome.NoError? || (entries != [] && outcome.Permanent?)
  }

  datatype Result = Committed | Failed | Panicked

  /** The steps of one load that is not interrupted, as far as it comes. */
  function LoadEvents(id: nat, group: string, entries: seq<string>, outcome: Outcome): seq<Event> {
    [Refresh(id, group)] + AddEvents(id, Taken(entries)) +
    if "/" in entries then []
    else if Commits(entries, outcome) then
      [FinishMember(id, Regex), FinishMember(id, Wildcard), FinishMember(id, Strings)]
    else [Abort(id)]
  }

  function AddEvents(id: nat, entries: seq<string>): seq<Event> {
    seq(|entries|, i requires 0 <= i < |entries| => Add(id, entries[i]))
  }

  /** The entries up to the first lone slash, and that one. */
  function Taken(entries: seq<string>): seq<string> {
    if entries == [] then []
    else if entries[0] == "/" then ["/"]
    else [entries[0]] + Taken(entries[1..])
  }

  lemma {:induction false} TakenUpTo(entries: seq<string>, i: nat)
    requires i < |entries| && entries[i] == "/" && "/" !in entries[..i]
    ensures Taken(entries) == entries[..i + 1]
  {
    if i > 0 {
      assert entries[..i][0] == entries[0] && entries[1..][..i - 1] == entries[..i][1..];
      TakenUpTo(entries[1..], i - 1);
      assert entries[..i + 1] == [entries[0]] + entries[1..][..i];
    }
  }

  lemma {:induction false} TakenAll(entries: seq<string>)
    requires "/" !in entries
    ensures Taken(entries) == entries
  {
    if entries != [] {
      TakenAll(entries[1..]);
    }
  }

  lemma AddEventsSnoc(id: nat, entries: seq<string>, i: nat)
    requires i < |entries|
    ensures AddEvents(id, entries[..i + 1]) == AddEvents(id, entries[..i]) + [Add(id, entries[i])]
  {
  }

  /** Factory `f`, made of objects in `region`, holds what its load was given. */
  ghost predicate Fills(re: RegexEngine, f: L.GroupFactory, load: Load, region: set<object>)
    reads region
  {
    && f.wildcards.trie in region && f.Footprint() <= region
    && f.Valid() && f.re == re && f.group == load.group && f.entries == load.entries
  }

  /** Different loads have nothing in common, and what is still being filled does not belong to the cache. */
  ghost predicate Separate(loads: map<nat, Load>, regions: map<nat, set<object>>, cache: object, own: set<object>) {
    && (forall i, j :: i in regions && j in regions && i != j ==> regions[i] !! regions[j])
    && (forall i :: i in regions ==> cache !in regions[i])
    && (forall i :: i in regions && i in loads && loads[i].phase.Filling? ==> regions[i] !! own)
  }

  lemma GrowingStaysSeparate(loads: map<nat, Load>, regions: map<nat, set<object>>, cache: object, own: set<object>,
                             repr: set<object>, id: nat, load: Load, region: set<object>)
    requires Separate(loads, regions, cache, own) && id in regions && id in loads && loads[id].phase.Filling?
    requires cache in repr && own <= repr && forall i :: i in regions ==> regions[i] <= repr
    requires (region - regions[id]) !! repr
    ensures Separate(loads[id := load], regions[id := region], cache, own)
  {
    forall i | i in regions && i != id ensures regions[i] !! region {
      assert regions[i] <= repr && regions[i] !! regions[id];
    }
  }

  lemma FinishingStaysSeparate(loads: map<nat, Load>, regions: map<nat, set<object>>, cache: object, own: set<object>,
                               own': set<object>, id: nat, load: Load)
    requires Separate(loads, regions, cache, own) && id in regions && !load.phase.Filling?
    requires own' <= own + regions[id]
    ensures Separate(loads[id := load], regions, cache, own')
  {
  }

  class Loader {
    const cache: L.ListCache
    var live: map<nat, L.GroupFactory>
    ghost var history: seq<Event>
    /** The objects of every load, and all objects. */
    ghost var regions: map<nat, set<object>>
    ghost var repr: set<object>

    ghost predicate Valid()
      reads this, cache, repr
    {
      && Owns(regions, repr) && cache.Valid()
      && Happens(history) && cache.content == After(history).content
      && Matches(After(history).loads, live, regions)
      && Separate(After(history).loads, regions, cache, cache.repr)
    }

    ghost predicate Owns(regions: map<nat, set<object>>, repr: set<object>)
      reads cache
    {
      this !in repr && cache in repr && cache.repr <= repr && forall i :: i in regions ==> regions[i] <= repr
    }

    /** Every load has its factory. */
    ghost predicate Matches(loads: map<nat, Load>, live: map<nat, L.GroupFactory>, regions: map<nat, set<object>>)
      reads set i, o | i in regions && o in regions[i] :: o
    {
      && live.Keys == loads.Keys == regions.Keys
      && forall i :: i in live ==> Fills(cache.re, live[i], loads[i], regions[i])
    }

    constructor (cache: L.ListCache)
      requires cache.Valid() && cache.content == EMPTY
      ensures Valid() && this.cache == cache && history == []
    {
      hide L.ListCache.Valid;
      this.cache := cache;
      live, history, regions, repr := map[], [], map[], {cache} + cache.repr;
    }

    /** Makes `e` part of the history, once the heap is as it is after `e`. */
    method Record(e: Event, live: map<nat, L.GroupFactory>, ghost regions: map<nat, set<object>>,
                  ghost repr: set<object>)
      requires Owns(regions, repr) && cache.Valid()
      requires Happens(history) && Enabled(After(history), e)
      requires var st := Next(After(history), e);
        && cache.content == st.content && Matches(st.loads, live, regions)
        && Separate(st.loads, regions, cache, cache.repr)
      modifies this
      ensures Valid() && history == old(history) + [e] && this.live == live && this.repr == repr
      ensures After(history) == Next(After(old(history)), e)
    {
      hide Happens, After, Fills, Separate, L.ListCache.Valid, Next, Enabled;
      HappensSnoc(history, e);
      this.live, this.regions, this.repr, history := live, regions, repr, history + [e];
    }

    /** A load of the group begins. */
    method Begin(id: nat, group: string)
      requires Valid() && id !in After(history).loads
      modifies this
      ensures After(history) == Next(After(old(history)), Refresh(id, group))
      ensures Valid() && history == old(history) + [Refresh(id, group)] && fresh(repr - old(repr))
    {
      hide Happens, After, L.ListCache.Valid, L.GroupFactory.Valid, Fills;
      var f := NewFactory(group);
      ghost var region := f.Footprint();
      assert region !! repr;
      ghost var loads := Next(After(history), Refresh(id, group)).loads;
      forall i | i in loads ensures Fills(cache.re, live[id := f][i], loads[i], regions[id := region][i]) {}
      Record(Refresh(id, group), live[id := f], regions[id := region], repr + region);
    }

    method NewFactory(group: string) returns (f: L.GroupFactory)
      ensures fresh(f.Footprint()) && Fills(cache.re, f, Load(group, [], Filling), f.Footprint())
    {
      hide L.GroupFactory.Valid;
      f := cache.Refresh(group);
    }

    /** The load is given an entry; a lone slash ends it. */
    method AddEntry(id: nat, entry: string) returns (panicked: bool)
      requires Valid() && id in After(history).loads && After(history).loads[id].phase.Filling?
      modifies this, repr
      ensures After(history) == Next(After(old(history)), Add(id, entry))
      ensures Valid() && history == old(history) + [Add(id, entry)] && fresh(repr - old(repr))
      ensures (panicked <==> entry == "/") && cache.content == old(cache.content)
    {
      hide Happens, After, L.ListCache.Valid, L.GroupFactory.Valid, Fills, Extended;
      ghost var load := After(history).loads[id];
      ghost var region;
      panicked, region := Give(live[id], load, regions[id], entry);
      ghost var loads := Next(After(history), Add(id, entry)).loads;
      forall i | i in live ensures Fills(cache.re, live[i], loads[i], regions[id := region][i]) {
        assert i != id ==> regions[i] !! regions[id];
      }
      assert this !in region && cache.Valid() && cache.repr == old(cache.repr) && cache.content == old(cache.content);
      GrowingStaysSeparate(After(history).loads, regions, cache, cache.repr, repr, id, loads[id], region);
      hide Separate;
      Record(Add(id, entry), live, regions[id := region], repr + region);
    }

    /** One factory is given an entry, which touches nothing outside its region. */
    method Give(f: L.GroupFactory, ghost load: Load, ghost region: set<object>, entry: string)
      returns (panicked: bool, ghost region': set<object>)
      requires Fills(cache.re, f, load, region)
      modifies region
      ensures panicked <==> entry == "/"
      ensures region <= region' && fresh(region' - region)
      ensures Fills(cache.re, f, Extended(load, entry), region')
    {
      hide L.GroupFactory.Valid, Panics;
      PanicsOnSlash(entry);
      var r := f.AddEntry(entry);
      panicked, region' := r.Panicked?, region + f.Footprint();
    }

    /** The load is given up. */
    method GiveUp(id: nat)
      requires Valid() && id in After(history).loads && After(history).loads[id].phase.Filling?
      modifies this
      ensures After(history) == Next(After(old(history)), Abort(id))
      ensures Valid() && history == old(history) + [Abort(id)] && repr == old(repr)
    {
      hide Happens, After, L.ListCache.Valid, L.GroupFactory.Valid, Fills;
      PhaseFills(live[id], After(history).loads[id], regions[id], Ended);
      Record(Abort(id), live, regions, repr);
    }

    lemma PhaseFills(f: L.GroupFactory, load: Load, region: set<object>, phase: Phase)
      requires Fills(cache.re, f, load, region)
      ensures Fills(cache.re, f, load.(phase := phase), region)
    {
    }

    /** The load finishes the next member of the chain. */
    method Finish(id: nat, m: Member)
      requires Valid() && Enabled(After(history), FinishMember(id, m))
      modifies this, cache
      ensures After(history) == Next(After(old(history)), FinishMember(id, m))
      ensures Valid() && history == old(history) + [FinishMember(id, m)] && repr == old(repr)
      ensures cache.content == After(history).content && After(old(history)).content == old(cache.content)
    {
      hide Happens, After, L.ListCache.Valid, L.GroupFactory.Valid, Fills, Put;
      ghost var load := After(history).loads[id];
      PhaseFills(live[id], load, regions[id], Finishing(Rank(m) + 1));
      ghost var own := cache.repr;
      TakeOver(live[id], load, regions[id], m);
      ghost var loads := Next(After(history), FinishMember(id, m)).loads;
      forall i | i in live ensures Fills(cache.re, live[i], loads[i], regions[i]) {
        assert cache !in regions[i];
      }
      FinishingStaysSeparate(After(history).loads, regions, cache, own, cache.repr, id, loads[id]);
      hide Separate;
      Record(FinishMember(id, m), live, regions, repr);
    }

    /** The cache takes over what the factory holds for the member, and at most objects of the region. */
    method TakeOver(f: L.GroupFactory, ghost load: Load, ghost region: set<object>, m: Member)
      requires cache.Valid() && Fills(cache.re, f, load, region) && cache !in region
      modifies cache
      ensures cache.Valid() && cache.content == Put(old(cache.content), m, load.group, load.entries)
      ensures cache.repr <= old(cache.repr) + region
    {
      hide L.ListCache.Valid, L.GroupFactory.Valid, Put;
      match m {
        case Regex => cache.FinishRegex(f);
        case Wildcard => cache.FinishWildcard(f);
        case Strings => cache.FinishStrings(f);
      }
    }

    /** Lookups see what the history has made of the members, and nothing of a load that has not finished. */
    method Match(search: string, groups: seq<string>) returns (result: seq<string>)
      requires Valid()
      ensures StrictlySorted(result)
      ensures forall g :: g in result <==> g in groups && Hit(cache.re, After(history).content, g, search)
    {
      hide Happens, After, L.ListCache.Valid, Fills, Hit;
      result := cache.Match(search, groups);
    }

    /** `Finish` of the chain, without interruption: the group then is in one piece. */
    method FinishAll(id: nat)
      requires Valid() && id in After(history).loads && After(history).loads[id].phase.Filling?
      modifies this, cache
      ensures Valid() && history == old(history) +
        [FinishMember(id, Regex), FinishMember(id, Wildcard), FinishMember(id, Strings)]
      ensures var load := After(old(history)).loads[id]; Uniform(cache.content, load.group, load.entries)
      ensures forall g :: g != After(old(history)).loads[id].group ==> SameGroup(cache.content, old(cache.content), g)
    {
      hide Happens, After, Valid;
      Finish(id, Regex);
      Finish(id, Wildcard);
      Finish(id, Strings);
    }

    /** The consumer of a load: feeds the entries to the factory until one panics, and notes whether there was one. */
    method Consume(id: nat, group: string, entries: seq<string>) returns (hasEntries: bool, panicked: bool)
      requires Valid() && id in After(history).loads && After(history).loads[id] == Load(group, [], Filling)
      modifies this, repr
      ensures Valid() && history == old(history) + AddEvents(id, Taken(entries)) && fresh(repr - old(repr))
      ensures (panicked <==> "/" in entries) && (!panicked ==> (hasEntries <==> entries != []))
      ensures !panicked ==> id in After(history).loads && After(history).loads[id] == Load(group, entries, Filling)
      ensures cache.content == old(cache.content) && After(history).content == After(old(history)).content
    {
      hide Happens, After, Valid, Panics;
      hasEntries, panicked := false, false;
      assert history == history + AddEvents(id, entries[..0]);
      for i := 0 to |entries|
        invariant Valid() && history == old(history) + AddEvents(id, entries[..i]) && fresh(repr - old(repr))
        invariant id in After(history).loads && After(history).loads[id] == Load(group, entries[..i], Filling)
        invariant "/" !in entries[..i] && hasEntries == (i > 0) && !panicked
        invariant cache.content == old(cache.content) && After(history).content == After(old(history)).content
      {
        AddEventsSnoc(id, entries, i);
        PanicsOnSlash(entries[i]);
        assert entries[..i + 1] == entries[..i] + [entries[i]];
        panicked := AddEntry(id, entries[i]);
        if panicked {
          TakenUpTo(entries, i);
          return;
        }
        hasEntries := true;
      }
      assert entries[..|entries|] == entries;
      TakenAll(entries);
    }

    /**
      `createCacheForGroup`, without interruption: the entries go to a new factory, and the load is
      committed unless it failed without entries or transiently, or panicked.
     */
    method CreateCacheForGroup(id: nat, group: string, entries: seq<string>, outcome: Outcome) returns (r: Result)
      requires Valid() && id !in After(history).loads
      modifies this, cache, repr
      ensures Valid() && history == old(history) + LoadEvents(id, group, entries, outcome)
      ensures r.Panicked? <==> "/" in entries
      ensures r.Committed? <==>
        "/" !in entries && match outcome case NoError => true case Transient => false case Permanent => entries != []
      ensures !r.Committed? ==>
        forall g, name :: Hit(cache.re, cache.content, g, name) <==> Hit(cache.re, old(cache.content), g, name)
      ensures r.Committed? ==>
        && (forall name :: Hit(cache.re, cache.content, group, name) <==> GroupMatches(cache.re, entries, name))
        && (forall g, name :: g != group ==>
              (Hit(cache.re, cache.content, g, name) <==> Hit(cache.re, old(cache.content), g, name)))
    {
      hide Happens, After, Valid, AddEvents, Taken, GroupMatches;
      Begin(id, group);
      var hasEntries, panicked := Consume(id, group, entries);
      if panicked {
        return Panicked;
      }
      if !outcome.NoError? && (!hasEntries || outcome.Transient?) {
        GiveUp(id);
        return Failed;
      }
      FinishAll(id);
      forall name ensures Hit(cache.re, cache.content, group, name) <==> GroupMatches(cache.re, entries, name) {
        UniformHits(cache.re, cache.content, group, entries, name);
      }
      forall g, name | g != group
        ensures Hit(cache.re, cache.content, g, name) <==> Hit(cache.re, old(cache.content), g, name)
      {
        SameGroupHits(cache.re, cache.content, old(cache.content), g, name);
      }
      return Committed;
    }
  }
}
