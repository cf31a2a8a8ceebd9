/** What a whole sequence of inserts leaves in the trie, independent of how the nodes are arranged. */
module TrieRuns {
  import opened Text
  import opened Split
  import opened TrieShape

  /** The key set after inserting `list` in order; empty keys are ignored. */
  ghost function Inserted(list: seq<string>): set<Path> {
    if list == [] then {}
    else
      var before, last := Inserted(list[..|list| - 1]), list[|list| - 1];
      if last == "" then before else Added(before, Labels(last))
  }

  lemma InsertedSnoc(list: seq<string>, key: string)
    ensures Inserted(list + [key]) == if key == "" then Inserted(list) else Added(Inserted(list), Labels(key))
  {
    assert (list + [key])[..|list|] == list;
  }

  ghost function Wanted(list: seq<string>): set<Path> {
    set k | k in list && k != "" :: Labels(k)
  }

  /** `key`, or one of its parents, was inserted. */
  predicate HasParentIn(list: seq<string>, key: string) {
    exists k :: k in list && k != "" && Labels(k) <= Labels(key)
  }

  ghost predicate IsMinimal(s: set<Path>, p: Path) {
    p in s && forall q :: q in s && q <= p ==> q == p
  }

  ghost function Minimal(s: set<Path>): set<Path> {
    set p | p in s && IsMinimal(s, p)
  }

  lemma {:induction false} MinimalBelow(s: set<Path>, p: Path) returns (m: Path)
    requires p in s
    ensures m in Minimal(s) && m <= p
    decreases |p|
  {
    if IsMinimal(s, p) {
      m := p;
    } else {
      var q :| q in s && q <= p && q != p;
      m := MinimalBelow(s, q);
    }
  }

  lemma CoveredByMinimal(s: set<Path>, p: Path)
    ensures Covered(Minimal(s), p) <==> Covered(s, p)
  {
    if Covered(s, p) {
      var k :| k in s && k <= p;
      var m := MinimalBelow(s, k);
      assert m <= p;
    }
  }

  lemma AddToMinimal(s: set<Path>, p: Path)
    ensures Added(Minimal(s), p) == Minimal(s + {p})
  {
    CoveredByMinimal(s, p);
    if Covered(s, p) {
      var c :| c in s && c <= p;
      forall k
        ensures k in Minimal(s) <==> k in Minimal(s + {p})
      {
        if k in Minimal(s) && p <= k {
          assert c <= k;
        }
        if k in Minimal(s + {p}) && k == p {
          assert c == p;
        }
      }
    } else {
      forall k
        ensures k in Added(Minimal(s), p) <==> k in Minimal(s + {p})
      {
        if k in Minimal(s) && !(p <= k) {
          assert IsMinimal(s + {p}, k);
        }
      }
    }
  }

  /** The surviving keys are exactly the inserted keys that have no other inserted key as a parent. */
  lemma {:induction false} SurvivorsAreMinimal(list: seq<string>)
    ensures Inserted(list) == Minimal(Wanted(list))
  {
    if list != [] {
      var init, last := list[..|list| - 1], list[|list| - 1];
      assert list == init + [last];
      SurvivorsAreMinimal(init);
      if last == "" {
        assert Wanted(list) == Wanted(init);
      } else {
        assert Wanted(list) == Wanted(init) + {Labels(last)};
        AddToMinimal(Wanted(init), Labels(last));
      }
    }
  }

  lemma {:induction false} NoSurvivorHidesAnother(list: seq<string>, p: Path, q: Path)
    requires p in Inserted(list) && q in Inserted(list) && p <= q
    ensures p == q
  {
    SurvivorsAreMinimal(list);
  }

  lemma CoveredIffParentInserted(list: seq<string>, key: string)
    ensures Covered(Inserted(list), Labels(key)) <==> HasParentIn(list, key)
  {
    SurvivorsAreMinimal(list);
    CoveredByMinimal(Wanted(list), Labels(key));
    if HasParentIn(list, key) {
      var k :| k in list && k != "" && Labels(k) <= Labels(key);
      assert Labels(k) in Wanted(list);
    }
  }

  /** Two lists with the same entries leave the same keys, whatever their order and repetitions. */
  lemma OrderIsIrrelevant(a: seq<string>, b: seq<string>)
    requires forall k :: k in a <==> k in b
    ensures Inserted(a) == Inserted(b)
  {
    SurvivorsAreMinimal(a);
    SurvivorsAreMinimal(b);
    assert Wanted(a) == Wanted(b);
  }

  ghost predicate AllClean(list: seq<string>) {
    forall k :: k in list && k != "" ==> Clean(Labels(k))
  }

  lemma AllCleanSnoc(list: seq<string>, key: string)
    requires AllClean(list) && Clean(Labels(key))
    ensures AllClean(list + [key])
  {
  }
}
