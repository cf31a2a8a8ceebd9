/** `resolver/blocking_resolver.go`: enabling and disabling of blocking on one instance. */
module BlockingStatus {
  import opened Text
  import opened StringStore

  /** What the lock protects; `armed` says that a timer is pending which will enable blocking again. */
  datatype Status = Status(enabled: bool, disabledGroups: seq<string>, armed: bool)

  const DEFAULT_GROUP := "default"

  /** `internalEnableBlocking`. */
  function Enable(s: Status): Status {
    Status(true, [], false)
  }

  predicate AllKnown(known: seq<string>, groups: seq<string>) {
    forall g :: g in groups ==> g in known
  }

  /** `internalDisableBlocking`: an unknown group fails the call, after the timer was stopped. */
  function Disable(known: seq<string>, s: Status, timed: bool, groups: seq<string>): (Status, bool) {
    if groups == [] then (Status(false, known, timed), true)
    else if AllKnown(known, groups) then (Status(false, groups, timed), true)
    else (s.(armed := false), false)
  }

  /** Blocking is enabled exactly when no group is disabled, and only known groups are. */
  ghost predicate Consistent(known: seq<string>, s: Status) {
    (s.enabled <==> s.disabledGroups == []) && AllKnown(known, s.disabledGroups)
  }

  lemma StepsKeepConsistent(known: seq<string>, s: Status, timed: bool, groups: seq<string>)
    requires Consistent(known, s) && DEFAULT_GROUP in known
    ensures Consistent(known, Enable(s)) && Consistent(known, Disable(known, s, timed, groups).0)
  {
  }

  lemma InsertKeepsSorted(a: seq<string>, x: string, ix: nat)
    requires Sorted(a) && ix <= |a|
    requires forall i :: 0 <= i < ix ==> Less(a[i], x)
    requires forall i :: ix <= i < |a| ==> AtMost(x, a[i])
    ensures Sorted(a[..ix] + [x] + a[ix..])
    ensures multiset(a[..ix] + [x] + a[ix..]) == multiset(a) + multiset{x}
  {
    hide Less, AtMost;
    var r := a[..ix] + [x] + a[ix..];
    assert a == a[..ix] + a[ix..];
    forall i, j | 0 <= i < j < |r| ensures AtMost(r[i], r[j]) {
      if i < ix && j == ix { BelowIsAtMost(a[i], x); }
      else if i < ix < j { assert AtMost(a[i], a[j - 1]); }
    }
  }

  lemma BelowIsAtMost(a: string, b: string)
    requires Less(a, b)
    ensures AtMost(a, b)
  {
  }

  /** `slices.Sort`, by insertion. */
  method SortStrings(input: seq<string>) returns (sorted: seq<string>)
    ensures Sorted(sorted) && multiset(sorted) == multiset(input)
  {
    sorted := [];
    for i := 0 to |input|
      invariant Sorted(sorted) && multiset(sorted) == multiset(input[..i])
    {
      var x := input[i];
      var ix := SearchStrings(sorted, x);
      InsertKeepsSorted(sorted, x, ix);
      sorted := sorted[..ix] + [x] + sorted[ix..];
      assert input[..i + 1] == input[..i] + [x];
    }
    assert input[..|input|] == input;
  }

  /** The order in which map keys are visited does not show in the sorted list. */
  lemma {:induction false} SortedIsUnique(a: seq<string>, b: seq<string>)
    requires Sorted(a) && Sorted(b) && multiset(a) == multiset(b)
    ensures a == b
  {
    hide Less, AtMost, Sorted;
    assert |a| == |multiset(a)| == |b|;
    if a != [] {
      var n := |a| - 1;
      SameLast(a, b);
      InitIsSorted(a);
      InitIsSorted(b);
      SameRest(a, b);
      SortedIsUnique(a[..n], b[..n]);
      assert a == a[..n] + [a[n]] && b == b[..n] + [b[n]];
    }
  }

  lemma SameLast(a: seq<string>, b: seq<string>)
    requires Sorted(a) && Sorted(b) && multiset(a) == multiset(b) && a != [] && b != []
    ensures a[|a| - 1] == b[|b| - 1]
  {
    LastIsGreatest(a, b);
    LastIsGreatest(b, a);
    LessTotal(a[|a| - 1], b[|b| - 1]);
    hide Less, Sorted;
  }

  lemma SameRest(a: seq<string>, b: seq<string>)
    requires multiset(a) == multiset(b) && a != [] && b != [] && a[|a| - 1] == b[|b| - 1]
    ensures multiset(a[..|a| - 1]) == multiset(b[..|b| - 1])
  {
    SplitLast(a);
    SplitLast(b);
  }

  lemma InitIsSorted(a: seq<string>)
    requires Sorted(a) && a != []
    ensures Sorted(a[..|a| - 1])
  {
    hide AtMost;
  }

  lemma SplitLast(a: seq<string>)
    requires a != []
    ensures multiset(a[..|a| - 1]) == multiset(a) - multiset{a[|a| - 1]}
  {
    assert a == a[..|a| - 1] + [a[|a| - 1]];
  }

  lemma LastIsGreatest(a: seq<string>, b: seq<string>)
    requires Sorted(a) && multiset(a) == multiset(b) && b != [] && a != []
    ensures AtMost(b[|b| - 1], a[|a| - 1])
  {
    hide Less;
    assert b[|b| - 1] in multiset(a);
  }

  class StatusHolder {
    const denylists: set<string>
    var enabled: bool
    var disabledGroups: seq<string>
    var armed: bool

    ghost function View(): Status
      reads this
    {
      Status(enabled, disabledGroups, armed)
    }

    constructor (denylists: set<string>)
      ensures this.denylists == denylists && View() == Status(true, [], false)
    {
      this.denylists := denylists;
      enabled, disabledGroups, armed := true, [], false;
    }

    /** `retrieveAllBlockingGroups`: the keys of the denylists, in any order, and the default group; sorted. */
    method RetrieveAllBlockingGroups() returns (groups: seq<string>)
      ensures Sorted(groups) && multiset(groups) == multiset(denylists) + multiset{DEFAULT_GROUP}
    {
      var keys: seq<string> := [];
      var todo := denylists;
      while todo != {}
        invariant todo <= denylists && multiset(keys) == multiset(denylists - todo)
        decreases todo
      {
        var k :| k in todo;
        keys := keys + [k];
        assert denylists - (todo - {k}) == (denylists - todo) + {k};
        todo := todo - {k};
      }
      assert denylists - {} == denylists;
      groups := SortStrings(keys + [DEFAULT_GROUP]);
    }

    method InternalEnableBlocking()
      modifies this
      ensures View() == Enable(old(View()))
      ensures enabled && disabledGroups == [] && !armed
    {
      armed := false;
      enabled := true;
      disabledGroups := [];
    }

    /** Every requested group is looked up by binary search in the sorted list of groups. */
    method InternalDisableBlocking(timed: bool, groups: seq<string>) returns (ok: bool, ghost known: seq<string>)
      modifies this
      ensures Sorted(known) && multiset(known) == multiset(denylists) + multiset{DEFAULT_GROUP}
      ensures (View(), ok) == Disable(known, old(View()), timed, groups)
      ensures ok <==> forall g :: g in groups ==> g in denylists || g == "default"
      ensures ok ==> !enabled && armed == timed && disabledGroups == if groups == [] then known else groups
      ensures !ok ==> enabled == old(enabled) && disabledGroups == old(disabledGroups) && !armed
    {
      armed := false;
      var all := RetrieveAllBlockingGroups();
      known := all;
      forall g ensures g in all <==> g in denylists || g == DEFAULT_GROUP {
        assert g in all <==> g in multiset(all);
      }
      if groups == [] {
        disabledGroups := all;
      } else {
        for k := 0 to |groups|
          invariant AllKnown(all, groups[..k])
          invariant View() == old(View()).(armed := false)
        {
          var i := SearchStrings(all, groups[k]);
          FoundAtIndex(all, groups[k], i);
          if i >= |all| || all[i] != groups[k] {
            return false, all;
          }
          assert groups[..k + 1] == groups[..k] + [groups[k]];
        }
        assert groups[..|groups|] == groups;
        disabledGroups := groups;
      }
      enabled := false;
      armed := timed;
      return true, all;
    }
  }
}
