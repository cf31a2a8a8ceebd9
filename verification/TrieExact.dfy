/** What a trie answers beyond the parents it was given, in terms of the inserted keys alone. */
module TrieExact {
  import opened Text
  import opened Split
  import opened TrieShape
  import opened TrieRuns

  // An invariant of the node structure: what ends in an empty label is never alone.

  /** A cell that ends a key in an empty label has another cell beside it. */
  ghost predicate Partnered(cells: map<string, Cell>) {
    forall l :: l in cells && (l == "" || cells[l] == Leaf([""])) ==> exists m :: m in cells && m != l
  }

  /** Nothing comes after an empty label. */
  predicate Final(cells: map<string, Cell>) {
    "" in cells ==> cells[""] == Leaf([])
  }

  ghost predicate Neat(s: Shape) {
    forall p :: p in s ==> NeatNode(s[p], p)
  }

  ghost predicate NeatNode(cells: map<string, Cell>, p: Path) {
    Final(cells) && (p != [] ==> Partnered(cells))
  }

  lemma PutPartnered(cells: map<string, Cell>, l: string, tail: Path)
    requires if l in cells then tail == [] && (l == "" ==> Partnered(cells)) else cells != map[]
    ensures Partnered(cells[l := Leaf(tail)])
  {
    var cells' := cells[l := Leaf(tail)];
    forall x | x in cells' && (x == "" || cells'[x] == Leaf([""])) ensures exists m :: m in cells' && m != x {
      if x != l {
        assert l in cells';
      } else if l in cells {
        var m :| m in cells && m != l;
        assert m in cells';
      } else {
        var m :| m in cells;
        assert m in cells';
      }
    }
  }

  lemma SetLeafNeat(s: Shape, at: Path, l: string, tail: Path)
    requires Ok(s) && Neat(s) && at in s && (l !in s[at] || tail == []) && (l == "" ==> tail == [])
    ensures Neat(SetLeaf(s, at, l, tail))
  {
    var s' := SetLeaf(s, at, l, tail);
    assert NeatNode(s[at], at);
    forall p | p in s' ensures NeatNode(s'[p], p) {
      if p != at {
        assert p in s && NeatNode(s[p], p);
      } else if at != [] {
        PutPartnered(s[at], l, tail);
      }
    }
  }

  lemma BranchPartnered(cells: map<string, Cell>, l: string)
    requires l != ""
    ensures Partnered(cells[l := Branch])
  {
    assert l in cells[l := Branch];
  }

  lemma GraftNeat(s: Shape, at: Path, l: string, sub: Shape)
    requires Neat(s) && at in s && l in s[at] && l != ""
    requires Neat(sub) && [] in sub && Partnered(sub[[]])
    ensures Neat(Graft(s, at, l, sub))
  {
    var s', base := Graft(s, at, l, sub), at + [l];
    forall p | p in s' ensures NeatNode(s'[p], p) {
      if p == at {
        assert NeatNode(s[at], at);
        BranchPartnered(s[at], l);
      } else if IsBelow(base, p, sub) {
        assert NeatNode(sub[p[|base|..]], p[|base|..]);
      } else {
        assert p in s && NeatNode(s[p], p);
      }
    }
  }

  /** A root that leads to another node has a cell that ends nothing. */
  lemma RootPartnered(s: Shape, at: Path)
    requires Ok(s) && Neat(s) && at in s && at != []
    ensures Partnered(s[[]])
  {
    assert Linked(s, at);
    assert IsBranch(s, at[..0], at[0]) && at[..0] == [];
    assert NeatNode(s[[]], []);
    assert at[0] in s[[]] && at[0] != "";
  }

  /** A new key leaves a root that was not empty partnered. */
  lemma NewKeyPartners(s: Shape, keys: set<Path>, l: string, tail: Path)
    requires Ok(s) && Neat(s) && Describes(s, keys) && s[[]] != map[]
    requires l !in s[[]] || tail == []
    requires !Covered(keys, [l] + tail)
    ensures Partnered(SetLeaf(s, [], l, tail)[[]])
  {
    EmptyKeyCovers(s, keys);
    assert tail == [] ==> [l] + tail == [l];
    PutPartnered(s[[]], l, tail);
  }

  lemma EmptyKeyCovers(s: Shape, keys: set<Path>)
    requires Ok(s) && Neat(s) && Describes(s, keys)
    ensures "" in s[[]] ==> Covered(keys, [""])
  {
    assert NeatNode(s[[]], []);
    if "" in s[[]] {
      KeyOfLeaf(s, [], "");
      assert [] + [""] + [] == [""];
    }
  }

  // Reading the wrong hits off the keys.

  /** There is a key behind every cell. */
  lemma {:induction false} KeyBehind(s: Shape, at: Path, l: string, bound: nat) returns (k: Path)
    requires Ok(s) && at in s && l in s[at] && forall p :: p in s ==> |p| <= bound
    ensures HasKey(s, k) && at + [l] <= k
    decreases bound - |at|
  {
    if s[at][l].Leaf? {
      KeyOfLeaf(s, at, l);
      k := at + [l] + s[at][l].tail;
    } else {
      assert IsBranch(s, at, l);
      var m :| m in s[at + [l]];
      k := KeyBehind(s, at + [l], m, bound);
      assert at + [l] <= at + [l] + [m] <= k;
    }
  }

  lemma {:induction false} LongestPath(paths: set<Path>) returns (longest: Path)
    requires paths != {}
    ensures longest in paths && forall p :: p in paths ==> |p| <= |longest|
  {
    longest :| longest in paths;
    var others := paths - {longest};
    assert forall p :: p in paths ==> p == longest || p in others;
    if others != {} {
      var other := LongestPath(others);
      longest := if |other| > |longest| then other else longest;
    }
  }

  /** A trie without children holds no key, and a trie with children holds one. */
  lemma EmptyRootEmptyTrie(s: Shape, keys: set<Path>)
    requires Ok(s) && Describes(s, keys)
    ensures s[[]] == map[] <==> keys == {}
  {
    if k :| k in keys {
      var i :| LeafAt(s, k, i);
      RootNotEmpty(s, k[..i]);
    }
    if s[[]] != map[] {
      var p := LongestPath(s.Keys);
      var l :| l in s[[]];
      var k := KeyBehind(s, [], l, |p|);
      assert k in keys;
    }
  }

  /** A stored key that is one empty label longer than `p`, in a leaf of the last node of `p`. */
  predicate Spurious(s: Shape, p: Path) {
    p != [] && LeafAt(s, p + [""], |p| - 1)
  }

  /**
    The keys make `p` a wrong hit: one of them is `p` with an empty label behind it, no other one lies
    below `p`, and unless `p` is a single label another one lies below the parent of `p`.
   */
  ghost predicate Misled(keys: set<Path>, p: Path) {
    && p != [] && p + [""] in keys
    && (forall k :: k in keys && p <= k ==> k == p + [""])
    && (|p| == 1 || exists k :: k in keys && k != p + [""] && p[..|p| - 1] <= k)
  }

  lemma SpuriousIsMisled(s: Shape, keys: set<Path>, p: Path)
    requires Ok(s) && Neat(s) && Describes(s, keys) && Spurious(s, p)
    ensures Misled(keys, p)
  {
    var n := |p| - 1;
    var at, l, q := p[..n], p[n], p + [""];
    assert p == at + [l] && q[..n] == at && q[n] == l && q[n + 1..] == [""];
    assert HasKey(s, q);
    forall k | k in keys && p <= k ensures k == q {
      BelowLeaf(s, keys, at, l, k, []);
      assert k == at + [l] + k[|at| + 1..];
    }
    if |p| > 1 {
      assert NeatNode(s[at], at);
      OtherKeyBehind(s, keys, at, l);
    }
  }

  /** A node with a second cell holds a key that does not go through the first one. */
  lemma OtherKeyBehind(s: Shape, keys: set<Path>, at: Path, l: string)
    requires Ok(s) && Describes(s, keys) && at in s && exists m :: m in s[at] && m != l
    ensures exists k :: k in keys && at <= k && !(at + [l] <= k)
  {
    var m :| m in s[at] && m != l;
    var longest := LongestPath(s.Keys);
    var k := KeyBehind(s, at, m, |longest|);
    StepCut(at, m);
    StepCut(at, l);
    assert k in keys && at <= k && k[|at|] == m;
  }

  lemma EmptyCellIsNotAlone(s: Shape, keys: set<Path>, p: Path)
    requires Ok(s) && Neat(s) && Describes(s, keys) && p != []
    ensures p in s && "" in s[p] ==> exists k :: k in keys && p <= k && k != p + [""]
  {
    if p in s && "" in s[p] {
      assert NeatNode(s[p], p);
      OtherKeyBehind(s, keys, p, "");
    }
  }

  lemma MisledIsSpurious(s: Shape, keys: set<Path>, p: Path)
    requires Ok(s) && Neat(s) && Describes(s, keys) && Misled(keys, p)
    ensures Spurious(s, p)
  {
    hide Ok, Neat, Describes, LeafAt, Misled;
    MisledKey(s, keys, p);
    var i :| LeafAt(s, p + [""], i);
    NotInCellOfEmptyLabel(s, keys, p, i);
    NotAboveParent(s, keys, p, i);
  }

  lemma MisledKey(s: Shape, keys: set<Path>, p: Path)
    requires Describes(s, keys) && Misled(keys, p)
    ensures p != [] && HasKey(s, p + [""])
  {
    hide HasKey;
  }

  lemma NotInCellOfEmptyLabel(s: Shape, keys: set<Path>, p: Path, i: int)
    requires Ok(s) && Neat(s) && Describes(s, keys) && Misled(keys, p) && LeafAt(s, p + [""], i)
    ensures 0 <= i < |p|
  {
    assert (p + [""])[..|p|] == p && (p + [""])[|p|] == "";
    EmptyCellIsNotAlone(s, keys, p);
    hide Ok, Neat, Describes;
  }

  lemma NotAboveParent(s: Shape, keys: set<Path>, p: Path, i: int)
    requires Ok(s) && Describes(s, keys) && Misled(keys, p) && LeafAt(s, p + [""], i)
    ensures i >= |p| - 1
  {
    var n, q := |p| - 1, p + [""];
    hide Ok, Describes;
    if 0 <= i < n {
      assert q[..n] == p[..n];
      var k :| k in keys && k != q && p[..n] <= k;
      OnlyKeyBehindLeaf(s, keys, q, i, k, n);
    }
  }

  lemma SpuriousIff(s: Shape, keys: set<Path>, p: Path)
    requires Ok(s) && Neat(s) && Describes(s, keys)
    ensures Spurious(s, p) <==> Misled(keys, p)
  {
    hide Ok, Neat, Describes, Spurious, Misled;
    if Spurious(s, p) { SpuriousIsMisled(s, keys, p); }
    if Misled(keys, p) { MisledIsSpurious(s, keys, p); }
  }

  lemma OnlyKeyBehindLeaf(s: Shape, keys: set<Path>, q: Path, i: nat, k: Path, n: nat)
    requires Ok(s) && Describes(s, keys) && LeafAt(s, q, i) && i < n <= |q| && k in keys && q[..n] <= k
    ensures k == q
  {
    var at, l := q[..i], q[i];
    assert at + [l] == q[..n][..i + 1] == k[..i + 1] && at + [l] <= k;
    BelowLeaf(s, keys, at, l, k, []);
    assert q == at + [l] + q[i + 1..] && k == at + [l] + k[i + 1..];
  }

  // Lists.

  /** What a trie answers after inserting `list`, as `LabelTrie.HasParentOf` shows. */
  ghost predicate Answers(list: seq<string>, key: string) {
    HasParentIn(list, key) || Misled(Minimal(Wanted(list)), Labels(key))
  }

  /** Answers depend on the set of inserted keys only, whatever these are. */
  lemma AnswersIgnoreOrder(a: seq<string>, b: seq<string>, key: string)
    requires forall k :: k in a <==> k in b
    ensures Answers(a, key) <==> Answers(b, key)
  {
    assert Wanted(a) == Wanted(b);
  }

  /** Key `k` of the list makes the name without its empty label a wrong hit. */
  ghost predicate Misleads(list: seq<string>, k: string) {
    var q := Labels(k);
    k != "" && |q| >= 2 && q[|q| - 1] == "" && Misled(Minimal(Wanted(list)), q[..|q| - 1])
  }

  /** A name with all labels of `k` but the last one, if that is empty. */
  function WithoutLast(k: string): string
    decreases |k|
  {
    var (top, rest) := SplitTld(k);
    if rest == "" || Labels(rest) == [""] then top else WithoutLast(rest) + "." + top
  }

  lemma {:induction false} WithoutLastLabels(k: string)
    requires |Labels(k)| >= 2 && Labels(k)[|Labels(k)| - 1] == ""
    ensures WithoutLast(k) != "" && Labels(WithoutLast(k)) + [""] == Labels(k)
    decreases |k|
  {
    hide Labels, WithoutLast, SplitTld, Tail;
    var (top, rest) := SplitTld(k);
    UnfoldLast(k, top, rest);
    var q := Labels(rest);
    EmptyEnd(top, q);
    if |q| == 1 {
      SingleLabel(top);
    } else {
      WithoutLastLabels(rest);
      JoinedLabels(WithoutLast(rest), top);
      Regroup(top, Labels(WithoutLast(rest)));
    }
  }

  lemma UnfoldLast(k: string, top: string, rest: string)
    requires (top, rest) == SplitTld(k) && |Labels(k)| >= 2
    ensures Labels(k) == [top] + Labels(rest) && top != "" && '.' !in top && |rest| < |k|
    ensures WithoutLast(k) == if Labels(rest) == [""] then top else WithoutLast(rest) + "." + top
  {
    SplitShape(k, top, rest);
  }

  lemma EmptyEnd(top: string, q: Path)
    requires q != [] && ([top] + q)[|q|] == ""
    ensures q[|q| - 1] == "" && (q == [""] <==> |q| == 1)
  {
  }

  lemma Regroup(top: string, p: Path)
    ensures [top] + p + [""] == [top] + (p + [""])
  {
  }

  lemma JoinedLabels(below: string, top: string)
    requires below != "" && top != "" && '.' !in top
    ensures Labels(below + "." + top) == [top] + Labels(below)
  {
    var name := below + "." + top;
    assert name[|name| - 1] == top[|top| - 1] != '.';
    assert TrimRightAll(name, '.') == name;
    assert name[|below|] == '.' && name[|below| + 1..] == top;
    LastIndexIs(name, '.', |below|);
    assert name[..|below|] == below;
  }

  /** The name that a misleading key makes a hit, though neither it nor a parent of it is in the list. */
  lemma MisleadingName(list: seq<string>, k: string)
    requires Misleads(list, k)
    ensures Answers(list, WithoutLast(k)) && !HasParentIn(list, WithoutLast(k))
  {
    hide Labels, Minimal, Wanted, Inserted, HasParentIn, WithoutLast, Misled, Covered;
    var q := Labels(k);
    WithoutLastLabels(k);
    assert q[..|q| - 1] == Labels(WithoutLast(k));
    LongerKey(Minimal(Wanted(list)), q);
    SurvivorsAreMinimal(list);
    CoveredIffParentInserted(list, WithoutLast(k));
    AboveMinimal(Wanted(list), q, q[..|q| - 1]);
  }

  lemma LongerKey(keys: set<Path>, q: Path)
    requires |q| >= 2 && q[|q| - 1] == "" && Misled(keys, q[..|q| - 1])
    ensures q in keys && q[..|q| - 1] <= q && q[..|q| - 1] != q
  {
    assert q[..|q| - 1] + [""] == q;
  }

  lemma AboveMinimal(s: set<Path>, q: Path, p: Path)
    requires q in Minimal(s) && p <= q && p != q
    ensures !Covered(Minimal(s), p)
  {
    forall c | c in Minimal(s) ensures !(c <= p) {
      assert c <= p ==> c <= q;
    }
  }

  lemma KeyThatMisleads(list: seq<string>, p: Path)
    requires Misled(Minimal(Wanted(list)), p)
    ensures exists k :: k in list && Misleads(list, k)
  {
    hide Labels;
    var k :| k in list && k != "" && Labels(k) == p + [""];
    assert (p + [""])[..|p|] == p;
    assert Misleads(list, k);
  }

  /** All lookups are exact if and only if no key of the list is a misleading one. */
  lemma ExactIff(list: seq<string>)
    ensures (forall key :: Answers(list, key) <==> HasParentIn(list, key))
       <==> (forall k :: k in list ==> !Misleads(list, k))
  {
    if k :| k in list && Misleads(list, k) {
      MisleadingName(list, k);
    }
    forall key | Misled(Minimal(Wanted(list)), Labels(key)) ensures exists k :: k in list && Misleads(list, k) {
      KeyThatMisleads(list, Labels(key));
    }
  }

  /** Lists without such keys, as `CleanKeys` describes them, are exact. */
  lemma CleanIsExact(list: seq<string>, key: string)
    requires AllClean(list)
    ensures Answers(list, key) <==> HasParentIn(list, key)
  {
    forall k | k in list ensures !Misleads(list, k) {}
    ExactIff(list);
  }

  /** Any key of two labels whose second one is empty, such as "..com", misleads on its own. */
  lemma LoneKeyMisleads(k: string)
    requires |Labels(k)| == 2 && Labels(k)[1] == ""
    ensures Misleads([k], k)
  {
    var q := Labels(k);
    assert k != "" by { assert SplitTld("") == ("", ""); }
    hide Labels;
    assert Wanted([k]) == {q};
    LoneKeyMisled(q);
  }

  lemma LoneKeyMisled(q: Path)
    requires |q| == 2 && q[1] == ""
    ensures Misled(Minimal({q}), q[..1])
  {
    assert q[..1] + [""] == q;
    assert IsMinimal({q}, q);
    assert Minimal({q}) == {q};
  }
}
