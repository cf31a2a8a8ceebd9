/**
  Which member cache takes a list entry and what the entry then matches
  (`cache/stringcache/string_caches.go`, chain order of `lists/list_cache.go`).
 */
module ListEntries {
  import opened Text
  import opened Split
  import opened TrieRuns
  import opened StringStore

  /** The regular expression library: which patterns compile and what they match. */
  datatype RegexEngine = RegexEngine(compiles: string -> bool, matches: (string, string) -> bool)

  predicate IsRegex(entry: string) {
    HasPrefix(entry, "/") && HasSuffix(entry, "/")
  }

  /** Cutting the slashes off a lone slash is out of range: the regex factory panics. */
  predicate Panics(entry: string) {
    IsRegex(entry) && |entry| < 2
  }

  lemma PanicsOnSlash(entry: string)
    ensures Panics(entry) <==> entry == "/"
  {
    assert |entry| == 1 ==> entry == [entry[0]] && entry[..1] == entry;
  }

  function Pattern(entry: string): string {
    if |entry| < 2 then "" else TrimSpace(entry[1..|entry| - 1])
  }

  /** The regex factory keeps the entry. */
  predicate KeepsRegex(re: RegexEngine, entry: string) {
    IsRegex(entry) && !Panics(entry) && re.compiles(Pattern(entry))
  }

  /** `strings.Count(entry, "*")`. */
  function Globs(entry: string): nat {
    if entry == "" then 0 else (if entry[0] == '*' then 1 else 0) + Globs(entry[1..])
  }

  predicate IsSupportedWildcard(entry: string) {
    HasPrefix(entry, "*.") && Globs(entry) == 1
  }

  /** `normalizeWildcard`: "*.Example.com." becomes "example.com". */
  function NormalizeWildcard(domain: string): (r: string)
    ensures IsLower(r)
    ensures r == "" || (r[0] != '.' && r[|r| - 1] != '.')
  {
    hide TrimDots, TrimLeftAll, ToLower;
    var trimmed := TrimDots(TrimLeftAll(ToLower(domain), '*'));
    LowerKeepsDots(trimmed);
    ToLower(trimmed)
  }

  lemma LowerKeepsDots(s: string)
    ensures IsLower(ToLower(s)) && forall i :: 0 <= i < |s| ==> (ToLower(s)[i] == '.' <==> s[i] == '.')
  {
  }

  /** Normalised wildcards are keys for which the trie answers exactly. */
  lemma NormalizedIsClean(domain: string)
    ensures Clean(Labels(NormalizeWildcard(domain)))
  {
    CleanKeys(NormalizeWildcard(domain));
  }

  /** What an entry matches, wherever it is stored. */
  ghost predicate EntryMatches(re: RegexEngine, entry: string, name: string) {
    if IsRegex(entry) then KeepsRegex(re, entry) && re.matches(Pattern(entry), name)
    else if '*' in entry then
      && IsSupportedWildcard(entry)
      && NormalizeWildcard(entry) != ""
      && Labels(NormalizeWildcard(entry)) <= Labels(name)
    else entry != "" && ToLower(entry) == ToLower(name)
  }

  ghost predicate GroupMatches(re: RegexEngine, entries: seq<string>, name: string) {
    exists e :: e in entries && EntryMatches(re, e, name)
  }

  // The share of a list that each member of the chain keeps: an entry goes to the first member that takes it.

  ghost function RegexesOf(re: RegexEngine, entries: seq<string>): seq<string> {
    if entries == [] then []
    else
      var init, e := entries[..|entries| - 1], entries[|entries| - 1];
      RegexesOf(re, init) + if KeepsRegex(re, e) then [Pattern(e)] else []
  }

  ghost function WildcardsOf(entries: seq<string>): seq<string> {
    if entries == [] then []
    else
      var init, e := entries[..|entries| - 1], entries[|entries| - 1];
      WildcardsOf(init) + if !IsRegex(e) && IsSupportedWildcard(e) then [NormalizeWildcard(e)] else []
  }

  ghost function StringsOf(entries: seq<string>): seq<string> {
    if entries == [] then []
    else
      var init, e := entries[..|entries| - 1], entries[|entries| - 1];
      StringsOf(init) + if !IsRegex(e) && '*' !in e then [e] else []
  }

  lemma {:induction false} GlobsPositive(entry: string)
    ensures Globs(entry) == 0 <==> '*' !in entry
  {
    if entry != "" {
      GlobsPositive(entry[1..]);
      assert entry == [entry[0]] + entry[1..];
    }
  }

  /** An entry adds to the share of exactly one member, or to none if that member rejects it. */
  lemma {:induction false} ShareSnoc(re: RegexEngine, entries: seq<string>, e: string)
    ensures RegexesOf(re, entries + [e]) == RegexesOf(re, entries) + if KeepsRegex(re, e) then [Pattern(e)] else []
    ensures WildcardsOf(entries + [e])
         == WildcardsOf(entries) + if !IsRegex(e) && IsSupportedWildcard(e) then [NormalizeWildcard(e)] else []
    ensures StringsOf(entries + [e]) == StringsOf(entries) + if !IsRegex(e) && '*' !in e then [e] else []
    ensures IsSupportedWildcard(e) ==> '*' in e
  {
    var list := entries + [e];
    assert list[..|list| - 1] == entries;
    GlobsPositive(e);
  }

  lemma {:induction false} RegexShare(re: RegexEngine, entries: seq<string>, p: string)
    ensures p in RegexesOf(re, entries) <==> exists e :: e in entries && KeepsRegex(re, e) && Pattern(e) == p
  {
    hide KeepsRegex, Pattern;
    if entries != [] {
      var init, e := entries[..|entries| - 1], entries[|entries| - 1];
      assert entries == init + [e];
      RegexShare(re, init, p);
    }
  }

  /** Entry `e` becomes trie key `w`. */
  predicate GivesWildcard(e: string, w: string) {
    !IsRegex(e) && IsSupportedWildcard(e) && NormalizeWildcard(e) == w
  }

  lemma {:induction false} WildcardShare(entries: seq<string>, w: string)
    ensures w in WildcardsOf(entries) <==> exists e :: e in entries && GivesWildcard(e, w)
  {
    if entries != [] {
      var init, last := entries[..|entries| - 1], entries[|entries| - 1];
      assert entries == init + [last];
      assert forall e :: e in entries <==> e in init || e == last;
      WildcardShare(init, w);
      assert w in WildcardsOf(entries) <==> w in WildcardsOf(init) || GivesWildcard(last, w);
    }
  }

  lemma {:induction false} StringShare(entries: seq<string>, s: string)
    ensures s in StringsOf(entries) <==> s in entries && !IsRegex(s) && '*' !in s
  {
    if entries != [] {
      var init, e := entries[..|entries| - 1], entries[|entries| - 1];
      assert entries == init + [e];
      StringShare(init, s);
    }
  }

  ghost predicate RegexHit(re: RegexEngine, entries: seq<string>, name: string) {
    exists p :: p in RegexesOf(re, entries) && re.matches(p, name)
  }

  /** One of the three member caches hits exactly when some entry of the list matches. */
  lemma ChainIsComplete(re: RegexEngine, entries: seq<string>, name: string)
    ensures GroupMatches(re, entries, name)
       <==> (|| RegexHit(re, entries, name)
             || HasParentIn(WildcardsOf(entries), name)
             || ToLower(name) in Normalized(StringsOf(entries)))
  {
    if GroupMatches(re, entries, name) {
      var e :| e in entries && EntryMatches(re, e, name);
      if IsRegex(e) {
        RegexShare(re, entries, Pattern(e));
      } else if '*' in e {
        WildcardShare(entries, NormalizeWildcard(e));
        assert GivesWildcard(e, NormalizeWildcard(e));
      } else {
        StringShare(entries, e);
        assert e in StringsOf(entries) && e != "";
      }
    }
    if RegexHit(re, entries, name) {
      var p :| p in RegexesOf(re, entries) && re.matches(p, name);
      RegexShare(re, entries, p);
    }
    if HasParentIn(WildcardsOf(entries), name) {
      var w :| w in WildcardsOf(entries) && w != "" && Labels(w) <= Labels(name);
      WildcardShare(entries, w);
      var e :| e in entries && GivesWildcard(e, w);
      GlobsPositive(e);
      assert EntryMatches(re, e, name);
    }
    if ToLower(name) in Normalized(StringsOf(entries)) {
      var s :| s in StringsOf(entries) && s != "" && ToLower(s) == ToLower(name);
      StringShare(entries, s);
      assert EntryMatches(re, s, name);
    }
  }

  /** The documented meaning of "*.example.com": the domain itself and everything below it, in lower case. */
  lemma WildcardMeaning(re: RegexEngine, domain: string, name: string)
    requires Proper(domain) && '*' !in domain && Proper(name)
    ensures EntryMatches(re, "*." + domain, name) <==> IsParentOrSelf(ToLower(domain), name)
  {
    var entry := "*." + domain;
    assert !IsRegex(entry) && '*' in entry by { assert entry[0] == '*'; }
    WildcardOfDomain(domain);
    LowerKeepsProper(domain);
    PrefixIsSuffix(ToLower(domain), name);
  }

  lemma LowerKeepsProper(domain: string)
    requires Proper(domain)
    ensures Proper(ToLower(domain)) && ('*' !in domain ==> '*' !in ToLower(domain))
  {
  }

  lemma WildcardOfDomain(domain: string)
    requires Proper(domain) && '*' !in domain
    ensures IsSupportedWildcard("*." + domain) && NormalizeWildcard("*." + domain) == ToLower(domain)
  {
    var low := ToLower(domain);
    SupportedForm(domain);
    LowerKeepsProper(domain);
    assert ToLower("*." + domain) == "*." + low;
    assert ToLower(low) == low by { LowerFixpoint(low); }
    assert TrimLeftAll("*." + low, '*') == "." + low by {
      assert "*." + low == "*" + ("." + low);
      TrimLeftOne("." + low, '*');
    }
    assert TrimDots("." + low) == low by {
      TrimLeftOne(low, '.');
    }
  }

  lemma SupportedForm(domain: string)
    requires '*' !in domain
    ensures IsSupportedWildcard("*." + domain)
  {
    var entry := "*." + domain;
    GlobsPositive(domain);
    assert entry[1..] == "." + domain && entry[1..][1..] == domain;
    assert Globs(entry) == 1 + Globs(entry[1..]);
    assert Globs(entry[1..]) == Globs(entry[1..][1..]);
    assert entry[..2] == "*.";
  }

  lemma TrimLeftOne(s: string, c: char)
    requires s == "" || s[0] != c
    ensures TrimLeftAll([c] + s, c) == s
  {
    assert ([c] + s)[1..] == s;
  }

  // The kinds of entries, by their form.

  /** Regexes are the entries between slashes; the pattern is what is between, without white space around it. */
  lemma RegexForm(entry: string)
    ensures IsRegex(entry) <==> entry == "/" || exists x :: entry == "/" + x + "/"
    ensures forall x :: entry == "/" + x + "/" ==> !Panics(entry) && Pattern(entry) == TrimSpace(x)
  {
    if IsRegex(entry) && |entry| >= 2 {
      var x := entry[1..|entry| - 1];
      assert entry[..1] == "/" && entry[|entry| - 1..] == "/";
      assert entry == "/" + x + "/";
    }
    assert |entry| == 1 && IsRegex(entry) ==> entry == "/" by { PanicsOnSlash(entry); }
    forall x | entry == "/" + x + "/" ensures IsRegex(entry) && !Panics(entry) && Pattern(entry) == TrimSpace(x) {
      assert entry[..1] == "/" && entry[|entry| - 1..] == "/" && entry[1..|entry| - 1] == x;
    }
  }

  /** The supported wildcards are "*." followed by a text without '*'. */
  lemma WildcardForm(entry: string)
    ensures IsSupportedWildcard(entry) <==> exists d :: entry == "*." + d && '*' !in d
  {
    if IsSupportedWildcard(entry) {
      var d := entry[2..];
      assert entry == "*." + d;
      GlobsOfForm(d);
      GlobsPositive(d);
    }
    if d :| entry == "*." + d && '*' !in d {
      SupportedForm(d);
    }
  }

  lemma GlobsOfForm(d: string)
    ensures Globs("*." + d) == 1 + Globs(d)
  {
    var entry := "*." + d;
    assert entry[1..] == "." + d && entry[1..][1..] == d;
  }

  /** Such a wildcard is stored as the text behind "*.", in lower case and without dots at the ends. */
  lemma NormalizedForm(d: string)
    requires '*' !in d
    ensures NormalizeWildcard("*." + d) == TrimDots(ToLower(d))
  {
    var low := ToLower(d);
    LowerOfForm(d);
    StarIsTrimmed(low);
    LeadingDotIsTrimmed(low);
    TrimmedIsLower(low);
    hide ToLower, TrimLeftAll, TrimDots;
  }

  lemma LowerOfForm(d: string)
    ensures ToLower("*." + d) == "*." + ToLower(d) && IsLower(ToLower(d))
  {
  }

  lemma StarIsTrimmed(s: string)
    ensures TrimLeftAll("*." + s, '*') == "." + s
  {
    assert "*." + s == "*" + ("." + s);
    TrimLeftOne("." + s, '*');
  }

  lemma LeadingDotIsTrimmed(s: string)
    ensures TrimDots("." + s) == TrimDots(s)
  {
    assert TrimLeftAll("." + s, '.') == TrimLeftAll(s, '.') by { assert ("." + s)[1..] == s; }
    hide TrimLeftAll, TrimRightAll;
  }

  lemma TrimmedIsLower(s: string)
    requires IsLower(s)
    ensures ToLower(TrimDots(s)) == TrimDots(s)
  {
    hide TrimDots;
    var before, behind := TrimDotsCuts(s);
    var r := TrimDots(s);
    assert forall i :: 0 <= i < |r| ==> r[i] == s[|before| + i];
    LowerFixpoint(r);
  }

  /** A plain entry matches the names that are equal to it up to case; an empty one matches nothing. */
  lemma PlainMeaning(re: RegexEngine, entry: string, name: string)
    requires !IsRegex(entry) && '*' !in entry
    ensures EntryMatches(re, entry, name) <==>
      entry != "" && |entry| == |name| && forall i :: 0 <= i < |name| ==> SameLetter(entry[i], name[i])
  {
    SameUpToCase(entry, name);
  }

  /** A regex entry matches what its pattern matches, if that compiles. */
  lemma RegexMeaning(re: RegexEngine, x: string, name: string)
    ensures EntryMatches(re, "/" + x + "/", name) <==> re.compiles(TrimSpace(x)) && re.matches(TrimSpace(x), name)
    ensures !EntryMatches(re, "/", name)
  {
    var entry := "/" + x + "/";
    RegexForm(entry);
    PanicsOnSlash("/");
    assert Pattern(entry) == TrimSpace(x) && IsRegex(entry) && !Panics(entry);
  }

  /** A wildcard with the '*' anywhere else, or with several, matches nothing. */
  lemma UnsupportedMeaning(re: RegexEngine, entry: string, name: string)
    requires !IsRegex(entry) && '*' in entry && !exists d :: entry == "*." + d && '*' !in d
    ensures !EntryMatches(re, entry, name)
  {
    WildcardForm(entry);
  }
}
