/**
  The value of a label trie: for the path of every parent node, its children. A child is either
  another parent node (`Branch`) or the remaining labels of one key (`Leaf`).
 */
module TrieShape {
  import opened Text

  datatype Cell = Branch | Leaf(tail: Path)

  type Shape = map<Path, map<string, Cell>>

  predicate IsBranch(s: Shape, p: Path, l: string) {
    p in s && l in s[p] && s[p][l].Branch?
  }

  /** Every label of `p` is a branch of the node before it. */
  ghost predicate Linked(s: Shape, p: Path) {
    forall i :: 0 <= i < |p| ==> IsBranch(s, p[..i], p[i])
  }

  /** Parent nodes are linked from the root, branches lead to nodes, and only the root may be empty. */
  ghost predicate Ok(s: Shape) {
    && [] in s
    && (forall p {:trigger Linked(s, p)} :: p in s ==> Linked(s, p))
    && (forall p, l :: IsBranch(s, p, l) ==> p + [l] in s)
    && (forall p :: p in s && p != [] ==> s[p] != map[])
  }

  /** Key `k` ends in the leaf that hangs off the node of its first `i` labels. */
  predicate LeafAt(s: Shape, k: Path, i: int) {
    0 <= i < |k| && k[..i] in s && k[i] in s[k[..i]] && s[k[..i]][k[i]] == Leaf(k[i + 1..])
  }

  ghost predicate HasKey(s: Shape, k: Path) {
    exists i :: LeafAt(s, k, i)
  }

  ghost predicate Describes(s: Shape, keys: set<Path>) {
    forall k :: k in keys <==> HasKey(s, k)
  }

  ghost predicate Covered(keys: set<Path>, p: Path) {
    exists k :: k in keys && k <= p
  }

  /** The key set after an insert: nothing changes below a known parent, else children of `p` give way to `p`. */
  ghost function Added(keys: set<Path>, p: Path): set<Path> {
    if Covered(keys, p) then keys else (set k | k in keys && !(p <= k)) + {p}
  }

  lemma PrefixCut(p: Path, q: Path, i: nat)
    requires p <= q && i < |p|
    ensures q[..i] == p[..i] && q[i] == p[i]
  {
    assert q[..|p|] == p;
    assert q[..i] == q[..|p|][..i];
  }

  lemma StepCut(at: Path, l: string)
    ensures (at + [l])[..|at|] == at && (at + [l])[|at|] == l
  {
  }

  /** No key ends in a leaf on the way to a node, and keys past a node go through its cells. */
  lemma LeafBelow(s: Shape, k: Path, i: int, at: Path)
    requires Ok(s) && LeafAt(s, k, i) && at in s
    ensures !(k <= at)
    ensures at <= k ==> |at| <= i
    ensures at <= k && |at| < i ==> IsBranch(s, at, k[|at|])
  {
    assert Linked(s, at) && Linked(s, k[..i]);
    if k <= at {
      PrefixCut(k, at, i);
      assert false;
    } else if at <= k {
      if i < |at| {
        PrefixCut(at, k, i);
        assert false;
      }
      if |at| < i {
        assert IsBranch(s, k[..i][..|at|], k[..i][|at|]);
        assert k[..i][..|at|] == at;
      }
    }
  }

  /** A key that shares the step `at`, `l` with the trie is found behind the cell at that step. */
  lemma Locate(s: Shape, k: Path, at: Path, l: string, full: Path)
    requires Ok(s) && HasKey(s, k) && at in s && at + [l] <= full
    requires k <= full || full <= k
    ensures at + [l] <= k && l in s[at]
    ensures s[at][l].Leaf? ==> k == at + [l] + s[at][l].tail
    ensures s[at][l].Branch? ==> |k| > |at| + 1
  {
    var i :| LeafAt(s, k, i);
    StepCut(at, l);
    assert at <= full;
    assert at <= k || k <= at;
    LeafBelow(s, k, i, at);
    assert at <= k && |at| < |k| && at + [l] <= k;
    assert k[|at|] == l && k[..|at|] == at;
    if i == |at| {
      assert k == k[..i] + [k[i]] + k[i + 1..];
    }
  }

  lemma RootNotEmpty(s: Shape, at: Path)
    requires Ok(s) && at in s
    ensures at != [] ==> s[[]] != map[]
  {
    assert Linked(s, at);
    if at != [] {
      assert IsBranch(s, at[..0], at[0]) && at[..0] == [];
    }
  }

  lemma AddedToNone(p: Path)
    ensures Added({}, p) == {p}
  {
  }

  /** Writing a leaf at `at`, `l`: everything below that step is dropped. */
  function SetLeaf(s: Shape, at: Path, l: string, tail: Path): Shape
    requires at in s
  {
    (map p | p in s && !(at + [l] <= p) :: s[p])[at := s[at][l := Leaf(tail)]]
  }

  lemma ExtendPrefix(base: Path, p: Path, m: string)
    ensures base <= p + [m] <==> base <= p || base == p + [m]
  {
    assert (p + [m])[..|p|] == p;
    if base <= p + [m] && |base| <= |p| {
      assert (p + [m])[..|base|] == p[..|base|];
    }
  }

  lemma StepEqual(at: Path, l: string, p: Path, m: string)
    ensures at + [l] == p + [m] <==> at == p && l == m
  {
    StepCut(at, l);
    StepCut(p, m);
  }

  lemma SetLeafOk(s: Shape, at: Path, l: string, tail: Path)
    requires Ok(s) && at in s
    ensures Ok(SetLeaf(s, at, l, tail)) && SetLeaf(s, at, l, tail)[[]] != map[]
  {
    var s', base := SetLeaf(s, at, l, tail), at + [l];
    assert l in s'[at];
    RootNotEmpty(s, at);
    forall p | p in s' ensures Linked(s', p) {
      assert !(base <= p) && Linked(s, p) by { ExtendPrefix(base, at, l); }
      forall i | 0 <= i < |p| ensures IsBranch(s', p[..i], p[i]) {
        StepOff(base, p, i);
        StepEqual(at, l, p[..i], p[i]);
      }
    }
    forall p, m | IsBranch(s', p, m)
      ensures p + [m] in s'
    {
      assert IsBranch(s, p, m);
      ExtendPrefix(base, p, m);
      StepEqual(at, l, p, m);
    }
  }

  lemma SetLeafKeys(s: Shape, at: Path, l: string, tail: Path, k: Path)
    requires Ok(s) && at in s
    ensures HasKey(SetLeaf(s, at, l, tail), k)
       <==> k == at + [l] + tail || (HasKey(s, k) && !(at + [l] <= k))
  {
    var s', base := SetLeaf(s, at, l, tail), at + [l];
    SetLeafOk(s, at, l, tail);
    StepCut(at, l);
    var added := base + tail;
    assert LeafAt(s', added, |at|) by {
      assert added[..|at|] == at && added[|at| + 1..] == tail;
    }
    if base <= k {
      if HasKey(s', k) {
        Locate(s', k, at, l, k);
      }
    } else {
      hide SetLeaf, LeafAt, Ok;
      forall i ensures LeafAt(s', k, i) <==> LeafAt(s, k, i) {
        SameLeafOff(s, at, l, tail, k, i);
      }
    }
  }

  lemma SameLeafOff(s: Shape, at: Path, l: string, tail: Path, k: Path, i: int)
    requires at in s && !(at + [l] <= k)
    ensures LeafAt(SetLeaf(s, at, l, tail), k, i) <==> LeafAt(s, k, i)
  {
    if 0 <= i < |k| {
      StepOff(at + [l], k, i);
      StepEqual(at, l, k[..i], k[i]);
    }
  }

  lemma StepOff(base: Path, k: Path, i: nat)
    requires i < |k| && !(base <= k)
    ensures !(base <= k[..i]) && base != k[..i] + [k[i]]
  {
    assert k[..i] <= k && k[..i] + [k[i]] == k[..i + 1] <= k;
  }

  predicate IsBelow<V>(base: Path, p: Path, sub: map<Path, V>) {
    base <= p && p[|base|..] in sub
  }

  /** The nodes of `sub` seen from the root when `sub` hangs below `base`. */
  function Lifted<V>(base: Path, sub: map<Path, V>): (r: map<Path, V>)
    ensures forall p :: p in r <==> IsBelow(base, p, sub)
    ensures forall p :: IsBelow(base, p, sub) ==> r[p] == sub[p[|base|..]]
  {
    assert forall q :: q in sub ==> (base + q)[|base|..] == q;
    assert forall p: Path :: base <= p ==> p == base + p[|base|..];
    var paths := set q | q in sub :: base + q;
    assert forall p :: IsBelow(base, p, sub) ==> p in paths;
    map p | p in paths :: sub[p[|base|..]]
  }

  /** Writing the leaf of a new key, or of a key that ends here, is what an insert does to the key set. */
  lemma SetLeafAdds(s: Shape, keys: set<Path>, at: Path, l: string, tail: Path)
    requires Ok(s) && Describes(s, keys) && at in s && (l !in s[at] || tail == [])
    ensures Describes(SetLeaf(s, at, l, tail), Added(keys, at + [l] + tail))
  {
    var full := at + [l] + tail;
    forall k
      ensures k in Added(keys, full) <==> HasKey(SetLeaf(s, at, l, tail), k)
    {
      SetLeafKeys(s, at, l, tail, k);
      if k in keys && at + [l] <= k {
        Locate(s, k, at, l, k);
      }
      if Covered(keys, full) {
        var c :| c in keys && c <= full;
        Locate(s, c, at, l, full);
        assert full <= full + [];
      }
    }
  }

  /** Replacing the leaf at `at`, `l` by a branch to the trie `sub`. */
  function Graft(s: Shape, at: Path, l: string, sub: Shape): Shape
    requires at in s
  {
    (s + Lifted(at + [l], sub))[at := s[at][l := Branch]]
  }

  lemma GraftLookup(s: Shape, at: Path, l: string, sub: Shape, q: Path)
    requires at in s && q in s && !(at + [l] <= q)
    ensures q in Graft(s, at, l, sub) && Graft(s, at, l, sub)[q] == if q == at then s[at][l := Branch] else s[q]
  {
    assert !IsBelow(at + [l], q, sub);
  }

  /** Nothing of `s` lies below a leaf. */
  lemma LeafIsFinal(s: Shape, at: Path, l: string, p: Path)
    requires Ok(s) && at in s && l in s[at] && s[at][l].Leaf? && p in s
    ensures !(at + [l] <= p)
  {
    if |at| < |p| {
      assert Linked(s, p);
      assert IsBranch(s, p[..|at|], p[|at|]);
      StepEqual(at, l, p[..|at|], p[|at|]);
      assert p[..|at| + 1] == p[..|at|] + [p[|at|]];
    }
  }

  lemma GraftOk(s: Shape, at: Path, l: string, sub: Shape)
    requires Ok(s) && at in s && l in s[at] && s[at][l].Leaf?
    requires Ok(sub) && sub[[]] != map[]
    ensures Ok(Graft(s, at, l, sub))
  {
    var s', base := Graft(s, at, l, sub), at + [l];
    forall p | p in s ensures !(base <= p) { LeafIsFinal(s, at, l, p); }
    forall p | p in s' ensures Linked(s', p) {
      if p in s {
        GraftKeepsLinks(s, at, l, sub, p);
      } else {
        GraftLinked(s, at, l, sub, p);
      }
    }
    forall p, m | IsBranch(s', p, m) ensures p + [m] in s' {
      GraftBranches(s, at, l, sub, p, m);
    }
  }

  lemma GraftKeepsLinks(s: Shape, at: Path, l: string, sub: Shape, p: Path)
    requires Ok(s) && at in s && p in s && !(at + [l] <= p)
    ensures Linked(Graft(s, at, l, sub), p)
  {
    assert Linked(s, p);
    forall i | 0 <= i < |p| ensures IsBranch(Graft(s, at, l, sub), p[..i], p[i]) {
      assert IsBranch(s, p[..i], p[i]);
      StepOff(at + [l], p, i);
      GraftLookup(s, at, l, sub, p[..i]);
    }
  }

  lemma GraftBranches(s: Shape, at: Path, l: string, sub: Shape, p: Path, m: string)
    requires Ok(s) && at in s && Ok(sub) && IsBranch(Graft(s, at, l, sub), p, m)
    requires forall q :: q in s ==> !(at + [l] <= q)
    ensures p + [m] in Graft(s, at, l, sub)
  {
    var base := at + [l];
    if p in s {
      assert !IsBelow(base, p, sub);
      assert base[|base|..] == [] && IsBelow(base, base, sub);
      assert (p == at && m == l) || IsBranch(s, p, m);
    } else {
      assert IsBranch(sub, p[|base|..], m);
      assert (p + [m])[|base|..] == p[|base|..] + [m];
      assert IsBelow(base, p + [m], sub);
    }
  }

  lemma GraftRoot(s: Shape, at: Path, l: string, sub: Shape)
    requires Ok(s) && at in s
    ensures Graft(s, at, l, sub)[[]] != map[]
  {
    assert l in Graft(s, at, l, sub)[at];
    assert !IsBelow(at + [l], [], sub);
    RootNotEmpty(s, at);
  }

  lemma GraftLinked(s: Shape, at: Path, l: string, sub: Shape, p: Path)
    requires Ok(s) && at in s && l in s[at] && Ok(sub)
    requires IsBelow(at + [l], p, sub)
    requires forall q :: q in s ==> !(at + [l] <= q)
    ensures Linked(Graft(s, at, l, sub), p)
  {
    var s', base := Graft(s, at, l, sub), at + [l];
    var q := p[|base|..];
    StepCut(at, l);
    assert Linked(s, at) && Linked(sub, q);
    forall i | 0 <= i < |p| ensures IsBranch(s', p[..i], p[i]) {
      if i < |base| {
        PrefixCut(base, p, i);
        if i < |at| {
          assert IsBranch(s, at[..i], at[i]);
          assert base[..i] == at[..i];
        }
      } else {
        assert IsBranch(sub, q[..i - |base|], q[i - |base|]);
        assert p[..i][|base|..] == q[..i - |base|];
        assert IsBelow(base, p[..i], sub);
      }
    }
  }

  lemma GraftKeys(s: Shape, at: Path, l: string, sub: Shape, k: Path)
    requires Ok(s) && at in s && l in s[at] && s[at][l].Leaf?
    requires Ok(sub) && sub[[]] != map[]
    ensures HasKey(Graft(s, at, l, sub), k)
       <==> if at + [l] <= k then HasKey(sub, k[|at| + 1..]) else HasKey(s, k)
  {
    var s', base := Graft(s, at, l, sub), at + [l];
    forall p | p in s ensures !(base <= p) { LeafIsFinal(s, at, l, p); }
    if base <= k {
      GraftKeysBelow(s, at, l, sub, k);
    } else {
      if i :| LeafAt(s', k, i) {
        StepOff(base, k, i);
        StepEqual(at, l, k[..i], k[i]);
        assert LeafAt(s, k, i);
      }
      if i :| LeafAt(s, k, i) {
        StepOff(base, k, i);
        StepEqual(at, l, k[..i], k[i]);
        assert LeafAt(s', k, i);
      }
    }
  }

  lemma GraftKeysBelow(s: Shape, at: Path, l: string, sub: Shape, k: Path)
    requires Ok(s) && at in s && l in s[at] && s[at][l].Leaf?
    requires Ok(sub) && sub[[]] != map[] && at + [l] <= k
    requires forall q :: q in s ==> !(at + [l] <= q)
    ensures HasKey(Graft(s, at, l, sub), k) <==> HasKey(sub, k[|at| + 1..])
  {
    hide Ok, Graft;
    var s', base := Graft(s, at, l, sub), at + [l];
    var q := k[|base|..];
    GraftedBelow(s, at, l, sub);
    forall i | LeafAt(s', k, i) ensures LeafAt(sub, q, i - |base|) {
      GraftLeafDeep(s, at, l, sub, k, i);
      LiftedLeaf(s', base, sub, k, i - |base|);
    }
    forall j | LeafAt(sub, q, j) ensures LeafAt(s', k, j + |base|) {
      LiftedLeaf(s', base, sub, k, j);
    }
    assert HasKey(s', k) ==> HasKey(sub, q);
    assert HasKey(sub, q) ==> HasKey(s', k);
  }

  lemma GraftedBelow(s: Shape, at: Path, l: string, sub: Shape)
    requires at in s && forall q :: q in s ==> !(at + [l] <= q)
    ensures var s', base := Graft(s, at, l, sub), at + [l];
      && (forall p :: base <= p ==> (p in s' <==> p[|base|..] in sub))
      && (forall p :: base <= p && p in s' ==> s'[p] == sub[p[|base|..]])
  {
    var s', base := Graft(s, at, l, sub), at + [l];
    forall p: Path | base <= p ensures IsBelow(base, p, sub) <==> p in s' { }
  }

  lemma GraftLeafDeep(s: Shape, at: Path, l: string, sub: Shape, k: Path, i: int)
    requires Ok(s) && at in s && l in s[at] && s[at][l].Leaf? && Ok(sub) && sub[[]] != map[]
    requires at + [l] <= k && LeafAt(Graft(s, at, l, sub), k, i)
    ensures |at| + 1 <= i
  {
    var base := at + [l];
    GraftOk(s, at, l, sub);
    assert base[|base|..] == [];
    assert IsBelow(base, base, sub);
    LeafBelow(Graft(s, at, l, sub), k, i, base);
  }

  lemma LiftedLeaf(s: Shape, base: Path, sub: Shape, k: Path, j: nat)
    requires base <= k && j + |base| < |k|
    requires forall p :: base <= p ==> (p in s <==> p[|base|..] in sub)
    requires forall p :: base <= p && p in s ==> s[p] == sub[p[|base|..]]
    ensures LeafAt(s, k, j + |base|) <==> LeafAt(sub, k[|base|..], j)
  {
    var q := k[|base|..];
    var p := k[..j + |base|];
    assert base <= p && p[|base|..] == q[..j];
    assert k[j + |base| + 1..] == q[j + 1..];
  }

  /** Splitting a leaf into a branch that holds its key and a new one is what an insert does to the key set. */
  lemma GraftAdds(s: Shape, keys: set<Path>, at: Path, l: string, sub: Shape, tail: Path)
    requires Ok(s) && Describes(s, keys) && at in s && l in s[at] && s[at][l].Leaf?
    requires Ok(sub) && sub[[]] != map[]
    requires Describes(sub, Added({s[at][l].tail}, tail)) && !(s[at][l].tail <= tail)
    ensures Describes(Graft(s, at, l, sub), Added(keys, at + [l] + tail))
  {
    var base, kept := at + [l], s[at][l].tail;
    var full := base + tail;
    assert full[|base|..] == tail;
    forall k | k in keys && (k <= full || full <= k) ensures k == base + kept {
      Locate(s, k, at, l, full);
    }
    assert (base + kept)[|base|..] == kept;
    assert !Covered(keys, full);
    hide Graft, HasKey, Ok, Covered;
    forall k
      ensures k in Added(keys, full) <==> HasKey(Graft(s, at, l, sub), k)
    {
      if base <= k {
        GraftAddsBelow(s, keys, at, l, sub, tail, k);
      } else {
        GraftKeys(s, at, l, sub, k);
        assert !(full <= k) && k != full;
      }
    }
  }

  lemma GraftAddsBelow(s: Shape, keys: set<Path>, at: Path, l: string, sub: Shape, tail: Path, k: Path)
    requires Ok(s) && Describes(s, keys) && at in s && l in s[at] && s[at][l].Leaf?
    requires Ok(sub) && sub[[]] != map[]
    requires Describes(sub, Added({s[at][l].tail}, tail)) && !(s[at][l].tail <= tail)
    requires at + [l] <= k && !Covered(keys, at + [l] + tail)
    ensures k in Added(keys, at + [l] + tail) <==> HasKey(Graft(s, at, l, sub), k)
  {
    GraftKeys(s, at, l, sub, k);
    BelowLeaf(s, keys, at, l, k, tail);
    hide Graft, HasKey, Ok;
  }

  /** Below a leaf there is one key. */
  lemma BelowLeaf(s: Shape, keys: set<Path>, at: Path, l: string, k: Path, tail: Path)
    requires Ok(s) && Describes(s, keys) && at in s && l in s[at] && s[at][l].Leaf? && at + [l] <= k
    ensures k in keys <==> k[|at| + 1..] == s[at][l].tail
    ensures at + [l] + tail <= k <==> tail <= k[|at| + 1..]
    ensures k == at + [l] + tail <==> k[|at| + 1..] == tail
  {
    var base, q := at + [l], k[|at| + 1..];
    assert k == base + q;
    if k in keys {
      Locate(s, k, at, l, k);
    }
    if q == s[at][l].tail {
      KeyOfLeaf(s, at, l);
    }
    if base + tail <= k {
      assert tail == k[..|base| + |tail|][|base|..] == q[..|tail|];
    }
  }

  lemma KeyOfLeaf(s: Shape, at: Path, l: string)
    requires at in s && l in s[at] && s[at][l].Leaf?
    ensures HasKey(s, at + [l] + s[at][l].tail)
  {
    var k := at + [l] + s[at][l].tail;
    assert k[..|at|] == at && k[|at| + 1..] == s[at][l].tail;
    assert LeafAt(s, k, |at|);
  }
}
