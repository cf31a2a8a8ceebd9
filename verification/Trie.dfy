/** `trie/trie.go`: the semi-compressed label trie, as a mutable tree of parent nodes. */
module Trie {
  import opened Text
  import opened Split
  import opened TrieShape
  import opened TrieRuns
  import opened TrieExact

  datatype Node = Inner(parent: Parent) | Terminal(rest: string)

  /** The parent nodes of a trie by their paths. */
  type Tree = map<Path, Parent>

  /** A snapshot of the children of every node. */
  type Links = map<Path, map<string, Node>>

  ghost function Children(t: Tree): (c: Links)
    reads t.Values
    ensures c.Keys == t.Keys && forall p :: p in t ==> c[p] == t[p].children
  {
    map p | p in t :: t[p].children
  }

  predicate SameCell(t: Tree, p: Path, l: string, node: Node, cell: Cell) {
    match node
    case Terminal(rest) => cell == Leaf(Tail(rest))
    case Inner(q) => cell == Branch && p + [l] in t && t[p + [l]] == q
  }

  /** The children of node `p` are the cells that the shape gives it. */
  ghost predicate SameCells(t: Tree, p: Path, nodes: map<string, Node>, cells: map<string, Cell>) {
    nodes.Keys == cells.Keys && forall l :: l in cells ==> SameCell(t, p, l, nodes[l], cells[l])
  }

  predicate Distinct(t: Tree, p: Path, q: Path) {
    p in t && q in t && p != q ==> t[p] != t[q]
  }

  ghost predicate Injective(t: Tree) {
    forall p, q {:trigger Distinct(t, p, q)} :: Distinct(t, p, q)
  }

  ghost predicate Fits(root: Parent, t: Tree, c: Links, s: Shape) {
    && t.Keys == c.Keys == s.Keys
    && [] in t && t[[]] == root
    && Injective(t)
    && (forall p {:trigger SameCells(t, p, c[p], s[p])} :: p in t ==> SameCells(t, p, c[p], s[p]))
  }

  /** The heap below `root` is a tree (no node has two paths) and has shape `s`. */
  ghost predicate Represents(root: Parent, t: Tree, s: Shape)
    reads t.Values
  {
    Fits(root, t, Children(t), s)
  }

  lemma PutFits(root: Parent, t: Tree, c: Links, s: Shape, at: Path, top: string, rest: string, t': Tree, c': Links)
    requires Fits(root, t, c, s) && Ok(s) && at in t
    requires t' == map p | p in t && !(at + [top] <= p) :: t[p]
    requires c'.Keys == t'.Keys
    requires forall p :: p in t' ==> c'[p] == if p == at then c[at][top := Terminal(rest)] else c[p]
    ensures Fits(root, t', c', SetLeaf(s, at, top, Tail(rest)))
  {
    var base, s' := at + [top], SetLeaf(s, at, top, Tail(rest));
    assert !(base <= at);
    forall p, q ensures Distinct(t', p, q) { assert Distinct(t, p, q); }
    forall p | p in t'
      ensures SameCells(t', p, c'[p], s'[p])
    {
      assert SameCells(t, p, c[p], s[p]);
      forall l | l in s'[p] ensures SameCell(t', p, l, c'[p][l], s'[p][l]) {
        ExtendPrefix(base, p, l);
        StepEqual(at, top, p, l);
      }
    }
  }

  ghost function GraftedLinks(c: Links, at: Path, top: string, p: Parent, cp: Links): Links
    requires at in c
  {
    c[at := c[at][top := Inner(p)]] + Lifted(at + [top], cp)
  }

  lemma GraftFits(root: Parent, t: Tree, c: Links, s: Shape, at: Path, top: string,
                  p: Parent, tp: Tree, cp: Links, sp: Shape)
    requires Fits(root, t, c, s) && Ok(s) && at in t && top in s[at] && s[at][top].Leaf?
    requires Fits(p, tp, cp, sp) && t.Values !! tp.Values
    ensures Fits(root, t + Lifted(at + [top], tp), GraftedLinks(c, at, top, p, cp), Graft(s, at, top, sp))
  {
    var base := at + [top];
    var t', c', s' := t + Lifted(base, tp), GraftedLinks(c, at, top, p, cp), Graft(s, at, top, sp);
    forall q | q in t ensures !(base <= q) { LeafIsFinal(s, at, top, q); }
    assert t'.Keys == c'.Keys == s'.Keys by {
      LiftedKeys(base, tp, cp);
      LiftedKeys(base, tp, sp);
    }
    assert t'[[]] == root;
    GraftInjective(t, base, tp);
    forall q | q in t'
      ensures SameCells(t', q, c'[q], s'[q])
    {
      if q in t {
        GraftFitsAbove(root, t, c, s, at, top, p, tp, cp, sp, q);
      } else {
        GraftFitsBelow(t, c, s, at, top, p, tp, cp, sp, q);
      }
    }
  }

  lemma GraftFitsAbove(root: Parent, t: Tree, c: Links, s: Shape, at: Path, top: string,
                       p: Parent, tp: Tree, cp: Links, sp: Shape, q: Path)
    requires Fits(root, t, c, s) && at in t && top in s[at] && Fits(p, tp, cp, sp) && q in t
    requires forall r :: r in t ==> !(at + [top] <= r)
    ensures q in GraftedLinks(c, at, top, p, cp) && q in Graft(s, at, top, sp)
    ensures SameCells(t + Lifted(at + [top], tp), q, GraftedLinks(c, at, top, p, cp)[q], Graft(s, at, top, sp)[q])
  {
    hide Graft, GraftedLinks, Injective, Lifted;
    LinksLookup(c, at, top, p, cp, q);
    GraftLookup(s, at, top, sp, q);
    assert SameCells(t, q, c[q], s[q]) && [] in tp && tp[[]] == p;
    hide Fits;
    OldCells(t, at + [top], tp, q, c[q], s[q]);
    GraftedCell(t, at, top, p, tp);
  }

  lemma GraftFitsBelow(t: Tree, c: Links, s: Shape, at: Path, top: string,
                       p: Parent, tp: Tree, cp: Links, sp: Shape, q: Path)
    requires at in c && at in s && Fits(p, tp, cp, sp) && q !in t && q != at
    requires q in t + Lifted(at + [top], tp) && t.Keys == c.Keys == s.Keys
    ensures q in GraftedLinks(c, at, top, p, cp) && q in Graft(s, at, top, sp)
    ensures SameCells(t + Lifted(at + [top], tp), q, GraftedLinks(c, at, top, p, cp)[q], Graft(s, at, top, sp)[q])
  {
    var base := at + [top];
    assert IsBelow(base, q, tp) && IsBelow(base, q, cp) && IsBelow(base, q, sp);
    var r := q[|base|..];
    assert SameCells(tp, r, cp[r], sp[r]);
    GraftCells(t, base, tp, q, GraftedLinks(c, at, top, p, cp)[q], Graft(s, at, top, sp)[q]);
  }

  lemma LinksLookup(c: Links, at: Path, top: string, p: Parent, cp: Links, q: Path)
    requires at in c && q in c && !(at + [top] <= q)
    ensures q in GraftedLinks(c, at, top, p, cp)
    ensures GraftedLinks(c, at, top, p, cp)[q] == if q == at then c[at][top := Inner(p)] else c[q]
  {
    assert !IsBelow(at + [top], q, cp);
  }

  lemma OldCells(t: Tree, base: Path, tp: Tree, q: Path, nodes: map<string, Node>, cells: map<string, Cell>)
    requires SameCells(t, q, nodes, cells)
    requires forall p :: p in t ==> !(base <= p)
    ensures SameCells(t + Lifted(base, tp), q, nodes, cells)
  {
    forall l | l in cells ensures SameCell(t + Lifted(base, tp), q, l, nodes[l], cells[l]) {
      OldCell(t, base, tp, q, l, nodes[l], cells[l]);
    }
  }

  lemma GraftedCell(t: Tree, at: Path, top: string, p: Parent, tp: Tree)
    requires [] in tp && tp[[]] == p
    ensures SameCell(t + Lifted(at + [top], tp), at, top, Inner(p), Branch)
  {
    var base := at + [top];
    assert base[|base|..] == [];
    assert IsBelow(base, base, tp);
  }

  lemma OldCell(t: Tree, base: Path, tp: Tree, q: Path, l: string, node: Node, cell: Cell)
    requires SameCell(t, q, l, node, cell) && (q + [l] in t ==> !(base <= q + [l]))
    ensures SameCell(t + Lifted(base, tp), q, l, node, cell)
  {
    assert q + [l] in t ==> !IsBelow(base, q + [l], tp);
  }

  lemma GraftCells(t: Tree, base: Path, tp: Tree, q: Path, nodes: map<string, Node>, cells: map<string, Cell>)
    requires IsBelow(base, q, tp) && SameCells(tp, q[|base|..], nodes, cells)
    ensures SameCells(t + Lifted(base, tp), q, nodes, cells)
  {
    forall l | l in cells ensures SameCell(t + Lifted(base, tp), q, l, nodes[l], cells[l]) {
      assert SameCell(tp, q[|base|..], l, nodes[l], cells[l]);
      assert (q + [l])[|base|..] == q[|base|..] + [l];
      assert q[|base|..] + [l] in tp ==> IsBelow(base, q + [l], tp);
    }
  }

  lemma LiftedKeys<V, W>(base: Path, a: map<Path, V>, b: map<Path, W>)
    requires a.Keys == b.Keys
    ensures Lifted(base, a).Keys == Lifted(base, b).Keys
  {
    forall p ensures p in Lifted(base, a) <==> p in Lifted(base, b) {
      assert IsBelow(base, p, a) <==> IsBelow(base, p, b);
    }
  }

  lemma OneNodeChanged(t: Tree, c: Links, at: Path)
    requires at in t && c.Keys == t.Keys
    requires forall q :: q in t && q != at ==> t[q].children == c[q]
    ensures Children(t) == c[at := t[at].children]
  {
  }

  lemma LiftedValues(t: Tree, base: Path, tp: Tree)
    ensures forall o :: o in (t + Lifted(base, tp)).Values ==> o in t.Values || o in tp.Values
  {
    var lifted := Lifted(base, tp);
    forall q | q in t + lifted ensures (t + lifted)[q] in t.Values + tp.Values {
      if q in lifted {
        assert IsBelow(base, q, tp);
        assert tp[q[|base|..]] in tp.Values;
      } else {
        assert t[q] in t.Values;
      }
    }
  }

  lemma LiftedChildren(t: Tree, base: Path, tp: Tree)
    ensures Children(t + Lifted(base, tp)) == Children(t) + Lifted(base, Children(tp))
  {
    var a, b := Children(t + Lifted(base, tp)), Children(t) + Lifted(base, Children(tp));
    LiftedKeys(base, tp, Children(tp));
    forall q | q in a ensures a[q] == b[q] {
      if q in Lifted(base, tp) {
        assert IsBelow(base, q, tp) && IsBelow(base, q, Children(tp));
      }
    }
    assert a.Keys == b.Keys;
  }

  lemma GraftInjective(t: Tree, base: Path, tp: Tree)
    requires Injective(t) && Injective(tp) && t.Values !! tp.Values
    ensures Injective(t + Lifted(base, tp))
  {
    var lifted := Lifted(base, tp);
    var t' := t + lifted;
    forall p, q | p in t' && q in t' && p != q ensures t'[p] != t'[q] {
      assert Distinct(t, p, q);
      assert p in lifted ==> t'[p] in tp.Values && p == base + p[|base|..];
      assert q in lifted ==> t'[q] in tp.Values && q == base + q[|base|..];
      assert p !in lifted ==> t'[p] in t.Values;
      assert q !in lifted ==> t'[q] in t.Values;
      if p in lifted && q in lifted { assert Distinct(tp, p[|base|..], q[|base|..]); }
    }
  }

  /** `terminal.hasParentOf`: the labels of the terminal are a prefix of those searched for. */
  method TerminalHasParentOf(terminal: string, search: string) returns (found: bool)
    ensures found <==> terminal == "" || Labels(terminal) <= Labels(search)
  {
    if terminal == "" {
      return true;
    }
    var tKey, searchKey := terminal, search;
    while true
      invariant tKey != "" && |Labels(tKey)| <= |Labels(terminal)|
      invariant Labels(terminal) <= Labels(search) <==> Labels(tKey) <= Labels(searchKey)
      decreases |tKey|
    {
      var (tLabel, tRest) := SplitTld(tKey);
      var (searchLabel, searchRest) := SplitTld(searchKey);
      PrefixCons(tLabel, Tail(tRest), searchLabel, Tail(searchRest));
      assert Labels(tKey) == [tLabel] + Tail(tRest) && Labels(searchKey) == [searchLabel] + Tail(searchRest);
      if searchLabel != tLabel {
        return false;
      }
      if tRest == "" {
        return true;
      }
      if searchRest == "" {
        return false;
      }
      searchKey, tKey := searchRest, tRest;
    }
  }

  class Parent {
    /** Go's nil map is the empty map here. */
    var children: map<string, Node>

    constructor ()
      ensures children == map[]
    {
      children := map[];
    }

    /**
      `parent.hasParentOf`. Besides the stored parents of `key`, the walk accepts a terminal that
      is one empty label longer than `key`: splitting an empty rest yields an empty label.
     */
    method HasParentOf(key: string, ghost t: Tree, ghost s: Shape, ghost keys: set<Path>) returns (found: bool)
      requires Represents(this, t, s) && Ok(s) && Describes(s, keys)
      ensures found <==> Covered(keys, Labels(key)) || Spurious(s, Labels(key))
    {
      var n, k := this, key;
      ghost var at: Path := [];
      ghost var full := Labels(key);
      while true
        invariant at in t && t[at] == n && at + Labels(k) == full
        decreases |k|
      {
        var (top, rest) := SplitTld(k);
        assert Labels(k) == [top] + Tail(rest);
        StepPath(at, top, Tail(rest));
        assert SameCells(t, at, Children(t)[at], s[at]);
        if top !in n.children {
          MissIsFalse(s, keys, at, top, full);
          return false;
        }
        match n.children[top] {
          case Inner(child) =>
            if rest == "" {
              BranchIsFalse(s, keys, at, top, full);
              return false;
            }
            k, n, at := rest, child, at + [top];
          case Terminal(remaining) =>
            found := TerminalHasParentOf(remaining, rest);
            TerminalDecides(s, keys, at, top, full, Tail(remaining), Tail(rest));
            assert rest == "" ==> Labels(rest) == [""];
            return;
        }
      }
    }

    /**
      `parent.insert`. A nested insert starts either in an empty node or with a shorter key, which
      is why the recursion ends although a kept terminal may be longer than the new key.
     */
    method Insert(key: string, ghost t: Tree, ghost s: Shape, ghost keys: set<Path>)
      returns (ghost t': Tree, ghost s': Shape, ghost keys': set<Path>)
      requires Represents(this, t, s) && Ok(s) && Neat(s) && Describes(s, keys)
      modifies t.Values
      ensures Represents(this, t', s') && Ok(s') && Neat(s') && Describes(s', keys')
      ensures key != "" && s[[]] != map[] && !Covered(keys, Labels(key)) ==> Partnered(s'[[]])
      ensures keys' == if key == "" then keys else Added(keys, Labels(key))
      ensures key != "" ==> s'[[]] != map[]
      ensures forall o :: o in t'.Values && o !in t.Values ==> fresh(o)
      decreases if s[[]] == map[] then 0 else 1, |key|, 0
    {
      t', s', keys' := t, s, keys;
      if key == "" {
        return;
      }
      keys' := Added(keys, Labels(key));
      var n, k := this, key;
      ghost var at: Path := [];
      while true
        invariant t' == t && s' == s && keys' == Added(keys, Labels(key))
        invariant Represents(this, t, s)
        invariant at in t && t[at] == n && at + Labels(k) == Labels(key)
        invariant k != "" && |k| <= |key| && (at == [] ==> k == key)
        decreases |k|
      {
        var (top, rest) := SplitTld(k);
        ghost var full := Labels(key);
        assert Labels(k) == [top] + Tail(rest);
        StepPath(at, top, Tail(rest));
        assert SameCells(t, at, Children(t)[at], s[at]);
        if top !in n.children || rest == "" {
          t' := PutTerminal(this, n, top, rest, t, s, at);
          s' := SetLeaf(s, at, top, Tail(rest));
          RootNotEmpty(s, at);
          SetLeafOk(s, at, top, Tail(rest));
          SetLeafAdds(s, keys, at, top, Tail(rest));
          PutNeat(s, keys, at, k, full);
          return;
        }
        match n.children[top] {
          case Inner(child) =>
            k, n, at := rest, child, at + [top];
          case Terminal(remaining) =>
            var covered := TerminalHasParentOf(remaining, rest);
            LeafCovers(s, keys, at, top, full, Tail(remaining));
            AppendPrefix(at + [top], Tail(remaining), Tail(rest));
            assert top in s[at] && s[at] != map[];
            RootNotEmpty(s, at);
            if covered {
              return;
            }
            Split.SplitShape(k, top, rest);
            t', s' := SplitTerminal(this, n, top, remaining, rest, t, s, keys, at);
            return;
        }
      }
    }

    /** The two nested inserts: an empty node gets the terminal it replaces, then the new key. */
    method Fill(kept: string, rest: string) returns (ghost t: Tree, ghost s: Shape)
      requires children == map[] && kept != "" && rest != "" && !(Labels(kept) <= Labels(rest))
      modifies this
      ensures Represents(this, t, s) && Ok(s) && s[[]] != map[] && Neat(s) && Partnered(s[[]])
      ensures Describes(s, Added({Labels(kept)}, Labels(rest)))
      ensures this in t.Values && forall o :: o in t.Values && o != this ==> fresh(o)
      decreases 1, |rest|, 1
    {
      hide Represents, Ok, Neat, Describes, Added, Partnered, Labels;
      ghost var keys: set<Path>;
      t, s, keys := map[[] := this], map[[] := map[]], {};
      assert forall p :: p in t ==> t[p] == this;
      EmptyIsFine(this);
      t, s, keys := Insert(kept, t, s, keys);
      AddedToNone(Labels(kept));
      assert !Covered(keys, Labels(rest));
      t, s, keys := Insert(rest, t, s, keys);
      RootIsNode(this, t, s);
    }
  }

  lemma EmptyIsFine(n: Parent)
    requires n.children == map[]
    ensures var t: Tree, s: Shape := map[[] := n], map[[] := map[]];
      Represents(n, t, s) && Ok(s) && Neat(s) && Describes(s, {})
  {
    var t: Tree, s: Shape := map[[] := n], map[[] := map[]];
    assert forall p :: p in t ==> t[p] == n;
    assert Children(t) == map[[] := map[]];
  }

  lemma RootIsNode(root: Parent, t: Tree, s: Shape)
    requires Represents(root, t, s)
    ensures root in t.Values
  {
    assert t[[]] in t.Values;
  }

  /** A terminal that is in the way of `rest` becomes a parent node holding both. */
  method SplitTerminal(root: Parent, n: Parent, top: string, remaining: string, rest: string,
                       ghost t: Tree, ghost s: Shape, ghost keys: set<Path>, ghost at: Path)
    returns (ghost t': Tree, ghost s': Shape)
    requires Represents(root, t, s) && Ok(s) && Neat(s) && Describes(s, keys) && at in t && t[at] == n && top != ""
    requires top in s[at] && s[at][top] == Leaf(Tail(remaining))
    requires remaining != "" && rest != "" && !(Labels(remaining) <= Labels(rest))
    modifies n
    ensures Represents(root, t', s') && Ok(s') && Describes(s', Added(keys, at + [top] + Labels(rest)))
    ensures s'[[]] != map[] && Neat(s') && Partnered(s'[[]])
    ensures forall o :: o in t'.Values && o !in t.Values ==> fresh(o)
    decreases 1, |rest|, 3
  {
    hide Represents, Fits, Ok, Neat, Describes, Partnered, Added, Labels, Tail, Graft, Lifted, Children;
    OnlyAt(root, t, s, at);
    assert Tail(remaining) == Labels(remaining) by { TailOf(remaining); }
    ghost var c := Children(t);
    var p := LinkNew(n, top, t, c, at);
    ghost var tp, sp := FillLinked(p, remaining, rest, t, c, at, top);
    t', s' := t + Lifted(at + [top], tp), Graft(s, at, top, sp);
    SplitDone(root, t, c, s, keys, at, top, p, tp, sp, Labels(rest));
  }

  method LinkNew(n: Parent, top: string, ghost t: Tree, ghost c: Links, ghost at: Path) returns (p: Parent)
    requires at in t && t[at] == n && c == Children(t) && forall q :: q in t && q != at ==> t[q] != n
    modifies n
    ensures fresh(p) && p.children == map[] && p !in t.Values
    ensures t[at].children == c[at][top := Inner(p)] && forall q :: q in t && q != at ==> t[q].children == c[q]
  {
    p := new Parent();
    n.children := n.children[top := Inner(p)];
  }

  method FillLinked(p: Parent, kept: string, rest: string,
                    ghost t: Tree, ghost c: Links, ghost at: Path, ghost top: string)
    returns (ghost tp: Tree, ghost sp: Shape)
    requires p.children == map[] && p !in t.Values && kept != "" && rest != "" && !(Labels(kept) <= Labels(rest))
    requires at in t && at in c && t.Keys == c.Keys
    requires t[at].children == c[at][top := Inner(p)] && forall q :: q in t && q != at ==> t[q].children == c[q]
    modifies p
    ensures Represents(p, tp, sp) && Ok(sp) && sp[[]] != map[] && Neat(sp) && Partnered(sp[[]])
    ensures Describes(sp, Added({Labels(kept)}, Labels(rest)))
    ensures t.Values !! tp.Values && forall o :: o in tp.Values && o != p ==> fresh(o)
    ensures t[at].children == c[at][top := Inner(p)] && forall q :: q in t && q != at ==> t[q].children == c[q]
    decreases 1, |rest|, 2
  {
    hide Represents, Ok, Neat, Describes, Partnered, Added, Labels;
    assert forall q :: q in t ==> t[q] != p;
    tp, sp := p.Fill(kept, rest);
  }

  /** The new node is filled and linked: heap, shape and keys are as after the insert. */
  lemma SplitDone(root: Parent, t: Tree, c: Links, s: Shape, keys: set<Path>, at: Path, top: string,
                  p: Parent, tp: Tree, sp: Shape, tail: Path)
    requires Fits(root, t, c, s) && Ok(s) && Neat(s) && Describes(s, keys) && at in t && top != ""
    requires top in s[at] && s[at][top].Leaf? && !(s[at][top].tail <= tail)
    requires forall q :: q in t && q != at ==> t[q].children == c[q]
    requires t[at].children == c[at][top := Inner(p)]
    requires Represents(p, tp, sp) && t.Values !! tp.Values
    requires Ok(sp) && sp[[]] != map[] && Neat(sp) && Partnered(sp[[]])
    requires Describes(sp, Added({s[at][top].tail}, tail))
    ensures var t', s' := t + Lifted(at + [top], tp), Graft(s, at, top, sp);
      && Represents(root, t', s') && Ok(s') && Describes(s', Added(keys, at + [top] + tail))
      && s'[[]] != map[] && Neat(s') && Partnered(s'[[]])
      && forall o :: o in t'.Values ==> o in t.Values || o in tp.Values
  {
    hide Represents, Ok, Neat, Describes, Partnered, Added, Graft;
    GraftShape(s, keys, at, top, sp, tail);
    SplitHeap(root, t, c, s, at, top, p, tp, sp);
    LiftedValues(t, at + [top], tp);
  }

  lemma TailOf(rest: string)
    requires rest != ""
    ensures Tail(rest) == Labels(rest)
  {
  }

  lemma OnlyAt(root: Parent, t: Tree, s: Shape, at: Path)
    requires Represents(root, t, s) && at in t
    ensures Fits(root, t, Children(t), s) && forall q :: q in t && q != at ==> t[q] != t[at]
    ensures t.Keys == s.Keys && (t[at].children.Keys == s[at].Keys)
  {
    forall q | q in t && q != at ensures t[q] != t[at] { assert Distinct(t, q, at); }
    assert SameCells(t, at, Children(t)[at], s[at]);
  }

  lemma GraftShape(s: Shape, keys: set<Path>, at: Path, top: string, sub: Shape, tail: Path)
    requires Ok(s) && Neat(s) && Describes(s, keys) && at in s && top in s[at] && s[at][top].Leaf? && top != ""
    requires Ok(sub) && sub[[]] != map[] && Neat(sub) && Partnered(sub[[]])
    requires Describes(sub, Added({s[at][top].tail}, tail)) && !(s[at][top].tail <= tail)
    ensures var s' := Graft(s, at, top, sub);
      && Ok(s') && s'[[]] != map[] && Describes(s', Added(keys, at + [top] + tail))
      && Neat(s') && Partnered(s'[[]])
  {
    GraftOk(s, at, top, sub);
    GraftRoot(s, at, top, sub);
    GraftAdds(s, keys, at, top, sub, tail);
    GraftNeat(s, at, top, sub);
    assert at + [top] in Graft(s, at, top, sub) by {
      assert (at + [top])[|at| + 1..] == [] && IsBelow(at + [top], at + [top], sub);
    }
    hide Graft, Describes, Added;
    RootPartnered(Graft(s, at, top, sub), at + [top]);
  }

  /** Writing the terminal of the key `k` at node `at` keeps the shape neat. */
  lemma PutNeat(s: Shape, keys: set<Path>, at: Path, k: string, full: Path)
    requires Ok(s) && Neat(s) && Describes(s, keys) && at in s && full == at + Labels(k)
    requires var (top, rest) := SplitTld(k); top !in s[at] || rest == ""
    ensures var (top, rest) := SplitTld(k);
      var s' := SetLeaf(s, at, top, Tail(rest));
      Neat(s') && (s[[]] != map[] && !Covered(keys, full) ==> Partnered(s'[[]]))
  {
    var (top, rest) := SplitTld(k);
    Split.SplitShape(k, top, rest);
    SetLeafNeat(s, at, top, Tail(rest));
    SetLeafOk(s, at, top, Tail(rest));
    assert Labels(k) == [top] + Tail(rest);
    if at != [] {
      assert at in SetLeaf(s, at, top, Tail(rest));
      hide SetLeaf;
      RootPartnered(SetLeaf(s, at, top, Tail(rest)), at);
    } else if s[[]] != map[] && !Covered(keys, full) {
      assert [] + Labels(k) == Labels(k);
      NewKeyPartners(s, keys, top, Tail(rest));
    }
  }

  /** After `top` of node `at` was linked to the trie of `p`, the heap has the grafted shape. */
  lemma SplitHeap(root: Parent, t: Tree, c: Links, s: Shape, at: Path, top: string, p: Parent, tp: Tree, sp: Shape)
    requires Fits(root, t, c, s) && Ok(s) && at in t && top in s[at] && s[at][top].Leaf?
    requires forall q :: q in t && q != at ==> t[q].children == c[q]
    requires t[at].children == c[at][top := Inner(p)]
    requires Represents(p, tp, sp) && t.Values !! tp.Values
    ensures Represents(root, t + Lifted(at + [top], tp), Graft(s, at, top, sp))
  {
    GraftFits(root, t, c, s, at, top, p, tp, Children(tp), sp);
    OneNodeChanged(t, c, at);
    LiftedChildren(t, at + [top], tp);
  }

  method PutTerminal(root: Parent, n: Parent, top: string, rest: string, ghost t: Tree, ghost s: Shape, ghost at: Path)
    returns (ghost t': Tree)
    requires Represents(root, t, s) && Ok(s) && at in t && t[at] == n
    modifies n
    ensures Represents(root, t', SetLeaf(s, at, top, Tail(rest))) && t'.Values <= t.Values
  {
    ghost var c := Children(t);
    t' := map p | p in t && !(at + [top] <= p) :: t[p];
    forall q | q in t && q != at ensures t[q] != n { assert Distinct(t, q, at); }
    n.children := n.children[top := Terminal(rest)];
    assert at in t';
    assert forall p :: p in t' ==> t'[p] in t.Values;
    PutFits(root, t, c, s, at, top, rest, t', Children(t'));
  }

  lemma MissIsFalse(s: Shape, keys: set<Path>, at: Path, top: string, full: Path)
    requires Ok(s) && Describes(s, keys) && at in s && at + [top] <= full && top !in s[at]
    ensures !Covered(keys, full) && !Spurious(s, full)
  {
    forall k | k in keys && (k <= full || full <= k)
      ensures false
    {
      Locate(s, k, at, top, full);
    }
    assert full <= full + [""];
    assert Spurious(s, full) ==> HasKey(s, full + [""]);
  }

  lemma BranchIsFalse(s: Shape, keys: set<Path>, at: Path, top: string, full: Path)
    requires Ok(s) && Describes(s, keys) && full == at + [top] && IsBranch(s, at, top)
    ensures !Covered(keys, full) && !Spurious(s, full)
  {
    forall k | k in keys && k <= full
      ensures false
    {
      Locate(s, k, at, top, full);
    }
    assert (full + [""])[..|at|] == at && (full + [""])[|at|] == top;
  }

  lemma TerminalDecides(s: Shape, keys: set<Path>, at: Path, top: string, full: Path, tail: Path, goal: Path)
    requires Ok(s) && Describes(s, keys) && at in s && top in s[at] && s[at][top] == Leaf(tail)
    requires full == at + [top] + goal
    ensures Covered(keys, full) || Spurious(s, full) <==> tail <= goal || (goal == [] && tail == [""])
  {
    LeafCovers(s, keys, at, top, full, tail);
    AppendPrefix(at + [top], tail, goal);
    if goal == [] {
      assert (full + [""])[..|at|] == at && (full + [""])[|at| + 1..] == [""];
    } else {
      var i := |full| - 1;
      assert at + [top] <= (full + [""])[..i];
      LeafHidesBelow(s, at, top, (full + [""])[..i]);
    }
  }

  lemma LeafHidesBelow(s: Shape, at: Path, top: string, p: Path)
    requires Ok(s) && at in s && top in s[at] && s[at][top].Leaf? && at + [top] <= p
    ensures p !in s
  {
    if p in s {
      LeafIsFinal(s, at, top, p);
    }
  }

  lemma StepPath(at: Path, top: string, tail: Path)
    ensures at + ([top] + tail) == at + [top] + tail
    ensures at + [top] <= at + ([top] + tail)
  {
  }

  lemma AppendPrefix(base: Path, p: Path, q: Path)
    ensures base + p <= base + q <==> p <= q
  {
    assert (base + p)[|base|..] == p && (base + q)[|base|..] == q;
    if base + p <= base + q {
      assert p == (base + q)[|base|..|base| + |p|] == q[..|p|];
    }
  }

  lemma LeafCovers(s: Shape, keys: set<Path>, at: Path, top: string, full: Path, tail: Path)
    requires Ok(s) && Describes(s, keys) && at in s && top in s[at] && s[at][top] == Leaf(tail)
    requires at + [top] <= full
    ensures at + [top] + tail in keys
    ensures Covered(keys, full) <==> at + [top] + tail <= full
  {
    var k := at + [top] + tail;
    assert k[..|at|] == at && k[|at| + 1..] == tail;
    assert LeafAt(s, k, |at|);
    forall k' | k' in keys && k' <= full ensures k' == k { Locate(s, k', at, top, full); }
  }

  /** `Trie`: a set of domains, asked for a domain or any of its parents. */
  class LabelTrie {
    const root: Parent
    ghost var inserted: seq<string>
    ghost var nodes: Tree
    ghost var shape: Shape

    ghost predicate Valid()
      reads this, nodes.Values
    {
      Represents(root, nodes, shape) && Ok(shape) && Neat(shape) && Describes(shape, Inserted(inserted))
    }

    constructor ()
      ensures Valid() && inserted == [] && shape == map[[] := map[]]
      ensures forall o :: o in nodes.Values ==> fresh(o)
    {
      var r := new Parent();
      EmptyIsFine(r);
      hide Represents, Ok, Neat, Describes;
      root := r;
      inserted, nodes, shape := [], map[[] := r], map[[] := map[]];
    }

    method IsEmpty() returns (empty: bool)
      requires Valid()
      ensures empty <==> forall k :: k in inserted ==> k == ""
    {
      empty := root.children == map[];
      assert SameCells(nodes, [], Children(nodes)[[]], shape[[]]);
      EmptyRootEmptyTrie(shape, Inserted(inserted));
      SurvivorsAreMinimal(inserted);
      forall k | k in inserted && k != "" ensures Inserted(inserted) != {} {
        var m := MinimalBelow(Wanted(inserted), Labels(k));
      }
    }

    method Insert(key: string)
      requires Valid()
      modifies this, nodes.Values
      ensures Valid() && inserted == old(inserted) + [key]
      ensures forall o :: o in nodes.Values && o !in old(nodes).Values ==> fresh(o)
    {
      hide Represents, Ok, Describes, Inserted, SetLeaf;
      InsertedSnoc(inserted, key);
      ghost var t, s, keys := root.Insert(key, nodes, shape, Inserted(inserted));
      nodes, shape, inserted := t, s, inserted + [key];
    }

    /**
      True for every name that was inserted or has an inserted parent. The only other hits are those
      that the inserted keys themselves explain (`Misled`), whatever the order of the inserts; a list
      of which no key starts with two dots has none.
     */
    method HasParentOf(key: string) returns (found: bool)
      requires Valid()
      ensures found <==> Answers(inserted, key)
      ensures AllClean(inserted) ==> (found <==> HasParentIn(inserted, key))
    {
      found := root.HasParentOf(key, nodes, shape, Inserted(inserted));
      hide Represents, Ok, Neat, Describes, Labels;
      CoveredIffParentInserted(inserted, key);
      SurvivorsAreMinimal(inserted);
      SpuriousIff(shape, Inserted(inserted), Labels(key));
      if AllClean(inserted) {
        CleanIsExact(inserted, key);
      }
    }
  }

  /** Every misleading key of a list does mislead the trie that the list is inserted into. */
  method MisleadTrie(list: seq<string>, k: string) returns (name: string, found: bool)
    requires Misleads(list, k)
    ensures found && !HasParentIn(list, name)
  {
    hide Misleads, LabelTrie.Valid;
    var t := new LabelTrie();
    for i := 0 to |list|
      invariant t.Valid() && t.inserted == list[..i] && fresh(t) && fresh(t.nodes.Values)
    {
      t.Insert(list[i]);
      assert list[..i + 1] == list[..i] + [list[i]];
    }
    assert list[..|list|] == list;
    name := WithoutLast(k);
    MisleadingName(list, k);
    found := t.HasParentOf(name);
  }
}
