/**
  `lists/list_cache.go` over `chained_grouped_cache.go` and `in_memory_grouped_cache.go`: groups of
  list entries, loaded through a chain of factories and swapped in when a load finishes.
 */
module ListCache {
  import opened Text
  import opened Sequences
  import opened Wrappers
  import opened Split
  import opened TrieRuns
  import opened Trie
  import opened StringStore
  import opened ListEntries
  import opened ListHistory

  /** `wildcardCacheFactory` and `wildcardCache`, over the heap trie. */
  class WildcardCacheFactory {
    const trie: LabelTrie
    var cnt: nat

    ghost predicate Valid()
      reads this, trie, trie.nodes.Values
    {
      trie.Valid() && AllClean(trie.inserted) && cnt == |trie.inserted|
    }

    constructor ()
      ensures Valid() && fresh(trie) && trie.inserted == []
      ensures forall o :: o in trie.nodes.Values ==> fresh(o)
    {
      trie := new LabelTrie();
      cnt := 0;
    }

    /** `addEntry`: takes every entry with a '*', keeps the supported ones. */
    method AddEntry(entry: string) returns (handled: bool)
      requires Valid()
      modifies this, trie, trie.nodes.Values
      ensures Valid() && (handled <==> '*' in entry)
      ensures trie.inserted == old(trie.inserted) +
        if IsSupportedWildcard(entry) then [NormalizeWildcard(entry)] else []
      ensures forall o :: o in trie.nodes.Values && o !in old(trie.nodes).Values ==> fresh(o)
    {
      GlobsPositive(entry);
      if Globs(entry) == 0 {
        return false;
      }
      handled := true;
      if IsSupportedWildcard(entry) {
        NormalizedIsClean(entry);
        Insert(NormalizeWildcard(entry));
      }
    }

    method Insert(key: string)
      requires Valid() && Clean(Labels(key))
      modifies this, trie, trie.nodes.Values
      ensures Valid() && trie.inserted == old(trie.inserted) + [key]
      ensures forall o :: o in trie.nodes.Values && o !in old(trie.nodes).Values ==> fresh(o)
    {
      hide LabelTrie.Valid, AllClean;
      AllCleanSnoc(trie.inserted, key);
      trie.Insert(key);
      cnt := cnt + 1;
    }
  }

  /** How adding an entry ends. */
  datatype Addition = Handled | NotHandled | Panicked

  /** The factories of one refresh, in chain order: regex, wildcard, string. */
  class GroupFactory {
    const re: RegexEngine
    const group: string
    var regexes: seq<string>
    const wildcards: WildcardCacheFactory
    const strings: StringCacheFactory
    ghost var entries: seq<string>

    ghost predicate Valid()
      reads this, strings, wildcards, wildcards.trie, wildcards.trie.nodes.Values
    {
      && regexes == RegexesOf(re, entries)
      && wildcards.Valid() && wildcards.trie.inserted == WildcardsOf(entries)
      && strings.Valid() && strings.added == StringsOf(entries)
    }

    ghost function Footprint(): set<object>
      reads wildcards.trie
    {
      {this, strings, wildcards, wildcards.trie} + wildcards.trie.nodes.Values
    }

    constructor (re: RegexEngine, group: string)
      ensures Valid() && this.group == group && this.re == re && entries == []
      ensures fresh(Footprint())
    {
      hide WildcardCacheFactory.Valid, StringCacheFactory.Valid;
      this.re, this.group := re, group;
      regexes, entries := [], [];
      wildcards := new WildcardCacheFactory();
      strings := new StringCacheFactory();
    }

    /**
      `chainedGroupFactory.AddEntry`: the first factory that takes the entry keeps it. A lone slash
      panics in the regex factory, before anything has changed.
     */
    method AddEntry(entry: string) returns (r: Addition)
      requires Valid()
      modifies Footprint()
      ensures Valid() && r == (if entry == "/" then Panicked else Handled)
      ensures entries == old(entries) + (if entry == "/" then [] else [entry])
      ensures fresh(Footprint() - old(Footprint()))
    {
      hide WildcardCacheFactory.Valid, StringCacheFactory.Valid, IsRegex, IsSupportedWildcard, NormalizeWildcard;
      ShareSnoc(re, entries, entry);
      PanicsOnSlash(entry);
      assert entries + [] == entries;
      r := Offer(entry);
      entries := if r.Panicked? then entries else entries + [entry];
    }

    method Offer(entry: string) returns (r: Addition)
      requires wildcards.Valid() && strings.Valid()
      modifies this`regexes, strings, wildcards, wildcards.trie, wildcards.trie.nodes.Values
      ensures r == (if Panics(entry) then Panicked else Handled) && wildcards.Valid() && strings.Valid()
      ensures regexes == old(regexes) + if KeepsRegex(re, entry) then [Pattern(entry)] else []
      ensures wildcards.trie.inserted == old(wildcards.trie.inserted) +
        if !IsRegex(entry) && IsSupportedWildcard(entry) then [NormalizeWildcard(entry)] else []
      ensures strings.added == old(strings.added) + if !IsRegex(entry) && '*' !in entry then [entry] else []
      ensures forall o :: o in wildcards.trie.nodes.Values && o !in old(wildcards.trie.nodes).Values ==> fresh(o)
      ensures Panics(entry) ==> wildcards.trie.nodes == old(wildcards.trie.nodes)
    {
      hide WildcardCacheFactory.Valid, StringCacheFactory.Valid;
      GlobsPositive(entry);
      r := AddRegex(entry);
      if r.NotHandled? {
        var handled := wildcards.AddEntry(entry);
        if !handled {
          handled := strings.AddEntry(entry);
        }
        r := if handled then Handled else NotHandled;
      }
    }

    /** `regexCacheFactory.addEntry`: takes every entry between slashes, keeps those that compile. */
    method AddRegex(entry: string) returns (r: Addition)
      modifies this`regexes
      ensures r == if !IsRegex(entry) then NotHandled else if entry == "/" then Panicked else Handled
      ensures regexes == old(regexes) + if KeepsRegex(re, entry) then [Pattern(entry)] else []
    {
      PanicsOnSlash(entry);
      if !HasPrefix(entry, "/") || !HasSuffix(entry, "/") {
        return NotHandled;
      }
      if |entry| - 1 < 1 {
        return Panicked;
      }
      var pattern := TrimSpace(entry[1..|entry| - 1]);
      if re.compiles(pattern) {
        regexes := regexes + [pattern];
      }
      return Handled;
    }
  }

  /** `sort.Strings(maps.Keys(m))`. */
  method SortedKeys(keys: set<string>) returns (sorted: seq<string>)
    ensures StrictlySorted(sorted)
    ensures forall g :: g in sorted <==> g in keys
  {
    sorted := [];
    var todo := keys;
    while todo != {}
      invariant todo <= keys && StrictlySorted(sorted)
      invariant forall g :: g in sorted <==> g in keys - todo
      decreases todo
    {
      var g :| g in todo;
      var ix := SearchStrings(sorted, g);
      InsertSorted(sorted, g, ix);
      ghost var before := sorted;
      sorted := sorted[..ix] + [g] + sorted[ix..];
      assert before == before[..ix] + before[ix..];
      assert forall h :: h in sorted <==> h in before || h == g;
      todo := todo - {g};
    }
  }

  function Lookup(m: map<string, seq<string>>, g: string): seq<string> {
    if g in m then m[g] else []
  }

  /** `finishFn`: an empty cache removes the group. */
  function Swap(m: map<string, seq<string>>, g: string, cache: seq<string>): (r: map<string, seq<string>>)
    ensures Lookup(r, g) == cache && r.Keys <= m.Keys + {g}
    ensures forall h :: h != g ==> Lookup(r, h) == Lookup(m, h)
  {
    if cache != [] then m[g := cache] else m - {g}
  }

  function SwapPacked(m: map<string, Packed>, g: string, cache: Option<Packed>): map<string, Packed> {
    if cache.Some? then m[g := cache.value] else m - {g}
  }

  /** The regex member holds, for every group, the patterns of the load it last finished. */
  ghost predicate RegexesHold(re: RegexEngine, loaded: map<string, seq<string>>, regexes: map<string, seq<string>>) {
    regexes.Keys <= loaded.Keys && forall g :: g in loaded ==> Lookup(regexes, g) == RegexesOf(re, loaded[g])
  }

  /** The wildcard member holds, for every group, the keys of the load it last finished. */
  ghost predicate KeysHold(loaded: map<string, seq<string>>, keys: map<string, seq<string>>) {
    keys.Keys <= loaded.Keys && forall g :: g in loaded ==> Lookup(keys, g) == WildcardsOf(loaded[g])
  }

  /** Group `g` of the string member holds the names among `entries`, packed, or nothing if there are none. */
  ghost predicate NamesHold(entries: seq<string>, g: string, strings: map<string, Packed>,
                            buckets: map<string, Buckets>)
  {
    var share := Normalized(StringsOf(entries));
    if share == {} then g !in strings
    else
      && g in strings && g in buckets
      && Ordered(buckets[g]) && Stored(buckets[g]) == share && strings[g] == JoinAll(buckets[g])
  }

  /** The string member holds, for every group, the names of the load it last finished. */
  ghost predicate StringsHold(loaded: map<string, seq<string>>, strings: map<string, Packed>,
                              buckets: map<string, Buckets>)
  {
    strings.Keys <= loaded.Keys && forall g :: g in loaded ==> NamesHold(loaded[g], g, strings, buckets)
  }

  lemma SwapKeepsRegexes(re: RegexEngine, loaded: map<string, seq<string>>, regexes: map<string, seq<string>>,
                         g: string, entries: seq<string>)
    requires RegexesHold(re, loaded, regexes)
    ensures RegexesHold(re, loaded[g := entries], Swap(regexes, g, RegexesOf(re, entries)))
  {
    hide RegexesOf;
  }

  lemma SwapKeepsKeys(loaded: map<string, seq<string>>, keys: map<string, seq<string>>, g: string, entries: seq<string>)
    requires KeysHold(loaded, keys)
    ensures KeysHold(loaded[g := entries], Swap(keys, g, WildcardsOf(entries)))
  {
    hide WildcardsOf;
  }

  /** Finishing the string member replaces one group and leaves the others alone. */
  lemma SwapKeepsStrings(loaded: map<string, seq<string>>, strings: map<string, Packed>, buckets: map<string, Buckets>,
                         g: string, entries: seq<string>, packed: Option<Packed>, tmp: Buckets)
    requires StringsHold(loaded, strings, buckets)
    requires Ordered(tmp) && Stored(tmp) == Normalized(StringsOf(entries))
    requires packed.None? <==> Stored(tmp) == {}
    requires packed.Some? ==> packed.value == JoinAll(tmp)
    ensures StringsHold(loaded[g := entries], SwapPacked(strings, g, packed), buckets[g := tmp])
  {
    var loaded', strings', buckets' := loaded[g := entries], SwapPacked(strings, g, packed), buckets[g := tmp];
    hide Ordered, Stored, Normalized, StringsOf, JoinAll;
    forall h | h in loaded' ensures NamesHold(loaded'[h], h, strings', buckets') {
      if h != g { assert NamesHold(loaded[h], h, strings, buckets); }
    }
  }

  /** The trie of every group holds the keys of the group, and is made of objects in `repr`. */
  ghost predicate TriesHold(tries: map<string, LabelTrie>, keys: map<string, seq<string>>, repr: set<object>)
    reads repr
  {
    tries.Keys == keys.Keys && forall g :: g in tries ==> TrieHolds(tries[g], keys[g], repr)
  }

  ghost predicate TrieHolds(trie: LabelTrie, keys: seq<string>, repr: set<object>)
    reads repr
  {
    && trie in repr && trie.nodes.Values <= repr
    && trie.Valid() && trie.inserted == keys && AllClean(keys)
  }

  function SwapTrie(m: map<string, LabelTrie>, g: string, cnt: nat, trie: LabelTrie): map<string, LabelTrie> {
    if cnt == 0 then m - {g} else m[g := trie]
  }

  lemma SwapKeepsTries(tries: map<string, LabelTrie>, keys: map<string, seq<string>>, repr: set<object>, g: string,
                       w: WildcardCacheFactory, repr': set<object>)
    requires TriesHold(tries, keys, repr) && w.Valid() && repr' == repr + {w.trie} + w.trie.nodes.Values
    ensures TriesHold(SwapTrie(tries, g, w.cnt, w.trie), Swap(keys, g, w.trie.inserted), repr')
  {
    hide LabelTrie.Valid, AllClean;
    var tries' := SwapTrie(tries, g, w.cnt, w.trie);
    var keys' := Swap(keys, g, w.trie.inserted);
    forall h | h in tries' ensures h in keys' && TrieHolds(tries'[h], keys'[h], repr') {
      if h == g {
        assert TrieHolds(w.trie, w.trie.inserted, repr');
      } else {
        assert h in tries && TrieHolds(tries[h], keys[h], repr);
      }
    }
  }

  class ListCache {
    const re: RegexEngine
    var regexes: map<string, seq<string>>
    var wildcards: map<string, LabelTrie>
    var strings: map<string, Packed>
    /** For every member and group, the entries of the load that the member last finished. */
    ghost var content: Content
    ghost var buckets: map<string, Buckets>
    /** The keys inserted into the trie of every group, and the objects those tries are made of. */
    ghost var keys: map<string, seq<string>>
    ghost var repr: set<object>

    /** The members hold their shares of what was loaded. */
    ghost predicate Shared()
      reads this
    {
      && RegexesHold(re, content.regex, regexes)
      && KeysHold(content.wildcard, keys)
      && StringsHold(content.strings, strings, buckets)
    }

    ghost predicate Valid()
      reads this, repr
    {
      this !in repr && Shared() && TriesHold(wildcards, keys, repr)
    }

    constructor (re: RegexEngine)
      ensures Valid() && this.re == re && content == EMPTY && repr == {}
    {
      this.re := re;
      regexes, wildcards, strings, content, buckets := map[], map[], map[], EMPTY, map[];
      keys, repr := map[], {};
    }

    /** `Refresh` of the chain: a new factory, invisible to lookups until it is finished. */
    method Refresh(group: string) returns (f: GroupFactory)
      ensures f.Valid() && f.re == re && f.group == group && f.entries == []
      ensures fresh(f.Footprint())
    {
      f := new GroupFactory(re, group);
    }

    /** `Finish` of the regex member. */
    method FinishRegex(f: GroupFactory)
      requires Valid() && f.Valid() && f.re == re
      modifies this
      ensures Valid() && content == Put(old(content), Regex, f.group, f.entries) && repr == old(repr)
      ensures wildcards == old(wildcards) && strings == old(strings)
    {
      hide WildcardCacheFactory.Valid, StringCacheFactory.Valid, TriesHold;
      hide RegexesHold, KeysHold, StringsHold, RegexesOf;
      SwapKeepsRegexes(re, content.regex, regexes, f.group, f.entries);
      content := content.(regex := content.regex[f.group := f.entries]);
      regexes := Swap(regexes, f.group, f.regexes);
    }

    /** `Finish` of the wildcard member: the trie of the factory becomes that of the group. */
    method FinishWildcard(f: GroupFactory)
      requires Valid() && f.Valid() && f.re == re
      modifies this
      ensures Valid() && content == Put(old(content), Wildcard, f.group, f.entries)
      ensures repr == old(repr) + {f.wildcards.trie} + f.wildcards.trie.nodes.Values
      ensures regexes == old(regexes) && strings == old(strings)
    {
      hide WildcardCacheFactory.Valid, StringCacheFactory.Valid, TriesHold;
      hide RegexesHold, KeysHold, StringsHold, WildcardsOf;
      var g, w := f.group, f.wildcards;
      ghost var repr' := repr + {w.trie} + w.trie.nodes.Values;
      SwapKeepsKeys(content.wildcard, keys, g, f.entries);
      SwapKeepsTries(wildcards, keys, repr, g, w, repr');
      ReplaceTries(SwapTrie(wildcards, g, w.cnt, w.trie), content.wildcard[g := f.entries],
                   Swap(keys, g, w.trie.inserted), repr');
    }

    method ReplaceTries(wildcards: map<string, LabelTrie>, ghost loaded: map<string, seq<string>>,
                        ghost keys: map<string, seq<string>>, ghost repr: set<object>)
      requires Shared() && KeysHold(loaded, keys) && TriesHold(wildcards, keys, repr) && this !in repr
      modifies this
      ensures Valid() && content == old(content).(wildcard := loaded) && this.repr == repr
      ensures regexes == old(regexes) && strings == old(strings)
    {
      hide RegexesHold, KeysHold, StringsHold, TriesHold;
      this.wildcards, this.keys, this.repr := wildcards, keys, repr;
      content := content.(wildcard := loaded);
    }

    /** `Finish` of the string member. */
    method FinishStrings(f: GroupFactory)
      requires Valid() && f.Valid() && f.re == re
      modifies this
      ensures Valid() && content == Put(old(content), Strings, f.group, f.entries) && repr == old(repr)
      ensures regexes == old(regexes) && wildcards == old(wildcards)
    {
      hide WildcardCacheFactory.Valid, TriesHold, RegexesHold, KeysHold, StringsHold;
      hide StringsOf, Ordered, StringStore.Stored, JoinAll;
      var g := f.group;
      var packed := f.strings.Create();
      SwapKeepsStrings(content.strings, strings, buckets, g, f.entries, packed, f.strings.tmp);
      content := content.(strings := content.strings[g := f.entries]);
      buckets := buckets[g := f.strings.tmp];
      strings := SwapPacked(strings, g, packed);
    }

    /** `regexCache.contains` on the group's patterns. */
    method RegexContains(g: string, search: string) returns (found: bool)
      ensures found <==> g in regexes && exists p :: p in regexes[g] && re.matches(p, search)
    {
      found := false;
      if g in regexes {
        for i := 0 to |regexes[g]|
          invariant !found
          invariant forall j :: 0 <= j < i ==> !re.matches(regexes[g][j], search)
        {
          if re.matches(regexes[g][i], search) {
            return true;
          }
        }
      }
    }

    /** `wildcardCache.contains` on the group's trie. */
    method WildcardContains(g: string, search: string) returns (found: bool)
      requires Valid()
      ensures found <==> g in keys && HasParentIn(keys[g], search)
    {
      if g !in wildcards {
        assert g !in keys.Keys;
        return false;
      }
      assert g in keys.Keys && TrieHolds(wildcards[g], keys[g], repr);
      found := wildcards[g].HasParentOf(search);
    }

    /** `stringMap.contains` on the group's packed names. */
    method StringContains(g: string, search: string) returns (found: bool)
      requires Shared()
      ensures found <==> StringHits(g, search)
    {
      hide RegexesHold, KeysHold, Normalized, StringsOf;
      if g !in strings {
        assert g in content.strings ==> NamesHold(content.strings[g], g, strings, buckets);
        return false;
      }
      assert g in strings.Keys && g in content.strings && NamesHold(content.strings[g], g, strings, buckets);
      found := Contains(strings[g], search, buckets[g]);
    }

    /** `InMemoryGroupedCache.Contains` of the regex member. */
    method RegexGroups(search: string, groups: seq<string>) returns (hits: seq<string>)
      requires Shared()
      ensures forall g :: g in hits <==> g in groups && RegexHits(g, search)
    {
      hide Shared, RegexHit;
      hits := [];
      for i := 0 to |groups|
        invariant forall g :: g in hits <==> g in groups[..i] && RegexHits(g, search)
      {
        var found := RegexContains(groups[i], search);
        GroupHits(groups[i], search);
        assert groups[..i + 1] == groups[..i] + [groups[i]];
        hits := if found then hits + [groups[i]] else hits;
      }
      assert groups[..|groups|] == groups;
    }

    /** `InMemoryGroupedCache.Contains` of the wildcard member. */
    method WildcardGroups(search: string, groups: seq<string>) returns (hits: seq<string>)
      requires Valid()
      ensures forall g :: g in hits <==> g in groups && WildcardHits(g, search)
    {
      hide Shared, TriesHold, HasParentIn, WildcardsOf;
      hits := [];
      for i := 0 to |groups|
        invariant forall g :: g in hits <==> g in groups[..i] && WildcardHits(g, search)
      {
        var found := WildcardContains(groups[i], search);
        GroupHits(groups[i], search);
        assert groups[..i + 1] == groups[..i] + [groups[i]];
        hits := if found then hits + [groups[i]] else hits;
      }
      assert groups[..|groups|] == groups;
    }

    /** `InMemoryGroupedCache.Contains` of the string member. */
    method StringGroups(search: string, groups: seq<string>) returns (hits: seq<string>)
      requires Shared()
      ensures forall g :: g in hits <==> g in groups && StringHits(g, search)
    {
      hide Shared, Normalized, StringsOf;
      hits := [];
      for i := 0 to |groups|
        invariant forall g :: g in hits <==> g in groups[..i] && StringHits(g, search)
      {
        var found := StringContains(groups[i], search);
        assert groups[..i + 1] == groups[..i] + [groups[i]];
        hits := if found then hits + [groups[i]] else hits;
      }
      assert groups[..|groups|] == groups;
    }

    /**
      `ListCache.Match`: asks every member of the chain about the groups, collects the hits in a
      set and sorts them.
     */
    method Match(search: string, groups: seq<string>) returns (result: seq<string>)
      requires Valid()
      ensures StrictlySorted(result)
      ensures forall g :: g in result <==> g in groups && Hit(re, content, g, search)
    {
      hide Shared, TriesHold, RegexHit, Normalized, StringsOf, WildcardsOf, HasParentIn, StrictlySorted;
      var byRegex := RegexGroups(search, groups);
      var byWildcard := WildcardGroups(search, groups);
      var byString := StringGroups(search, groups);
      result := SortedKeys(Elements(byRegex) + Elements(byWildcard) + Elements(byString));
    }

    ghost predicate RegexHits(g: string, search: string)
      reads this
    {
      g in content.regex && RegexHit(re, content.regex[g], search)
    }

    ghost predicate WildcardHits(g: string, search: string)
      reads this
    {
      g in content.wildcard && HasParentIn(WildcardsOf(content.wildcard[g]), search)
    }

    ghost predicate StringHits(g: string, search: string)
      reads this
    {
      g in content.strings && ToLower(search) in Normalized(StringsOf(content.strings[g]))
    }

    /** What the members hold for a group answers for the entries they last finished. */
    lemma GroupHits(g: string, search: string)
      requires Shared()
      ensures RegexHits(g, search) <==> g in regexes && exists p :: p in regexes[g] && re.matches(p, search)
      ensures WildcardHits(g, search) <==> g in keys && HasParentIn(keys[g], search)
    {
      hide StringsHold, RegexesOf, WildcardsOf;
      assert g in regexes ==> g in regexes.Keys;
      assert g in keys ==> g in keys.Keys;
      assert g in content.regex ==> Lookup(regexes, g) == RegexesOf(re, content.regex[g]);
      assert g in content.wildcard ==> Lookup(keys, g) == WildcardsOf(content.wildcard[g]);
    }
  }
}
