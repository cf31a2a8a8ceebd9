/** `trie/split.go`: cutting a domain name into labels, top-level label first. */
module Split {
  import opened Text

  /** `SplitTLD`: "www.example.com" becomes ("com", "www.example"). */
  function SplitTld(domain: string): (r: (string, string))
    ensures |r.1| <= |domain| && (domain != "" ==> |r.1| < |domain|)
    ensures '.' !in r.0
  {
    var d := TrimRightAll(domain, '.');
    var idx := LastIndexOf(d, '.');
    if idx == -1 then (d, "") else (d[idx + 1..], d[..idx])
  }

  /** The labels the trie walks for `key`: what repeated `SplitTld` yields until nothing is left. */
  function Labels(key: string): (p: Path)
    ensures p != []
    decreases |key|
  {
    var (top, rest) := SplitTld(key);
    if rest == "" then [top] else [top] + Labels(rest)
  }

  /** The labels below a node whose remaining text is `rest`. */
  function Tail(rest: string): Path {
    if rest == "" then [] else Labels(rest)
  }

  /** No label after the first is empty. */
  predicate Clean(p: Path) {
    forall i :: 0 < i < |p| ==> p[i] != ""
  }

  predicate AllDots(s: string) {
    forall i :: 0 <= i < |s| ==> s[i] == '.'
  }

  /** What one split leaves, in terms of the text alone. */
  lemma SplitShape(key: string, top: string, rest: string)
    requires (top, rest) == SplitTld(key)
    ensures top == "" <==> AllDots(key)
    ensures rest != "" ==> top != "" && |rest| < |key| && rest == key[..|rest|] && key[|rest|] == '.'
    ensures rest == "" && top != "" ==> !HasPrefix(key, "..")
  {
    var d := TrimRightAll(key, '.');
    CutAtLastDot(key, d, LastIndexOf(d, '.'));
  }

  lemma CutAtLastDot(key: string, d: string, idx: int)
    requires d <= key && (d == "" || d[|d| - 1] != '.')
    requires forall i :: |d| <= i < |key| ==> key[i] == '.'
    requires -1 <= idx < |d| && (idx == -1 <==> '.' !in d)
    requires 0 <= idx ==> d[idx] == '.' && '.' !in d[idx + 1..]
    ensures d == "" <==> AllDots(key)
    ensures 0 <= idx ==> d[idx + 1..] != "" && d[..idx] == key[..idx] && key[idx] == '.'
    ensures idx <= 0 && d != "" ==> !HasPrefix(key, "..")
  {
    assert forall i :: 0 <= i < |d| ==> d[i] == key[i];
    TwoDots(key);
    if idx <= 0 && d != "" {
      assert |d| >= 2 ==> d[1] == d[idx + 1..][-idx];
      assert |d| == 1 ==> key[0] == d[0];
    }
  }

  /** A label list is unclean exactly when the key starts with two dots and has a label after them. */
  lemma {:induction false} CleanKeys(key: string)
    ensures Clean(Labels(key)) <==> !(HasPrefix(key, "..") && !AllDots(key))
    ensures AllDots(key) <==> Labels(key)[0] == ""
    decreases |key|
  {
    var (top, rest) := SplitTld(key);
    SplitShape(key, top, rest);
    if rest != "" {
      CleanKeys(rest);
      CleanCons(top, Labels(rest));
      TwoDots(key);
      TwoDots(rest);
    }
  }

  lemma TwoDots(s: string)
    ensures HasPrefix(s, "..") <==> |s| >= 2 && s[0] == '.' && s[1] == '.'
  {
    assert |s| >= 2 ==> s[..2] == [s[0], s[1]];
  }

  lemma CleanCons(top: string, p: Path)
    requires p != []
    ensures Clean([top] + p) <==> Clean(p) && p[0] != ""
  {
    var q := [top] + p;
    assert forall i :: 0 <= i < |p| ==> q[i + 1] == p[i];
    assert forall i :: 0 < i < |q| ==> q[i] == p[i - 1];
  }

  lemma SingleLabel(s: string)
    requires '.' !in s
    ensures SplitTld(s) == (s, "") && Labels(s) == [s]
  {
    assert s != "" ==> s[|s| - 1] != '.';
    assert TrimRightAll(s, '.') == s;
  }

  /** Every label is non-empty: no dot at either end, no two dots in a row. */
  predicate Proper(name: string) {
    && name != "" && name[0] != '.' && name[|name| - 1] != '.'
    && forall i :: 0 <= i < |name| - 1 ==> !(name[i] == '.' && name[i + 1] == '.')
  }

  lemma ProperSplit(name: string)
    requires Proper(name)
    ensures var (top, rest) := SplitTld(name);
      if rest == "" then name == top else Proper(rest) && name == rest + "." + top
  {
    assert TrimRightAll(name, '.') == name;
    var idx := LastIndexOf(name, '.');
    if idx != -1 {
      var rest := name[..idx];
      assert rest != "" && name[idx - 1] != '.';
      assert name == rest + "." + name[idx + 1..];
    }
  }

  /** `s` is the name `k` itself or one of its parent domains, as text. */
  predicate IsParentOrSelf(s: string, k: string) {
    s == k || HasSuffix(k, "." + s)
  }

  /** The last dot cuts a text in one way only. */
  lemma LastDotUnique(a: string, x: string, b: string, y: string)
    requires a + "." + x == b + "." + y
    requires '.' !in x && '.' !in y
    ensures a == b && x == y
  {
    var s := a + "." + x;
    assert s[|a|] == '.' && s[|b|] == '.';
    assert a == s[..|a|] && b == s[..|b|] && x == s[|a| + 1..] && y == s[|b| + 1..];
  }

  lemma LabelStep(sl: string, kr: string, kl: string)
    requires '.' !in sl && '.' !in kl
    ensures IsParentOrSelf(sl, kr + "." + kl) <==> sl == kl
  {
    var k := kr + "." + kl;
    assert k[|kr|] == '.';
    if HasSuffix(k, "." + sl) {
      var pre := k[..|k| - |sl| - 1];
      assert k == pre + "." + sl;
      LastDotUnique(pre, sl, kr, kl);
    }
  }

  lemma SuffixStep(sr: string, sl: string, kr: string, kl: string)
    requires '.' !in sl && '.' !in kl
    ensures IsParentOrSelf(sr + "." + sl, kr + "." + kl) <==> sl == kl && IsParentOrSelf(sr, kr)
  {
    var s, k := sr + "." + sl, kr + "." + kl;
    if s == k {
      LastDotUnique(sr, sl, kr, kl);
    } else if HasSuffix(k, "." + s) {
      var pre := k[..|k| - |s| - 1];
      assert k == (pre + ("." + sr)) + "." + sl;
      LastDotUnique(pre + ("." + sr), sl, kr, kl);
      assert kr[|pre|..] == "." + sr;
    }
    if sl == kl && HasSuffix(kr, "." + sr) {
      var pre := kr[..|kr| - |sr| - 1];
      assert kr == pre + ("." + sr);
      assert k == pre + ("." + s);
      assert k[|pre|..] == "." + s;
    }
  }

  lemma SingleLabelParents(s: string, k: string)
    requires '.' !in k
    ensures IsParentOrSelf(s, k) <==> s == k
  {
    assert forall m :: 0 <= m < |k| ==> k[m] != '.';
    assert ("." + s)[0] == '.';
  }

  lemma SingleLabelPrefix(s: string, sl: string, sr: string, k: string)
    requires (sl, sr) == SplitTld(s)
    requires if sr == "" then s == sl else s == sr + "." + sl
    requires '.' !in k
    ensures Labels(s) <= [k] <==> s == k
  {
    if sr == "" {
      PrefixCons(sl, [], k, []);
    } else {
      assert s[|sr|] == '.';
      PrefixCons(sl, Labels(sr), k, []);
    }
  }

  /** On names without empty labels, "parent of" in the trie is "suffix at a dot" in the text. */
  lemma {:induction false} PrefixIsSuffix(s: string, k: string)
    requires Proper(s) && Proper(k)
    ensures Labels(s) <= Labels(k) <==> IsParentOrSelf(s, k)
    decreases |s|
  {
    hide Labels, SplitTld, IsParentOrSelf, Proper;
    var (sl, sr) := SplitTld(s);
    var (kl, kr) := SplitTld(k);
    ProperSplit(s);
    ProperSplit(k);
    if kr == "" {
      SingleLabelPrefix(s, sl, sr, k);
      SingleLabelParents(s, k);
      LabelsCons(k, kl, kr);
    } else {
      LabelsCons(s, sl, sr);
      LabelsCons(k, kl, kr);
      PrefixCons(sl, Tail(sr), kl, Labels(kr));
      if sr == "" {
        LabelStep(sl, kr, kl);
      } else {
        PrefixIsSuffix(sr, kr);
        SuffixStep(sr, sl, kr, kl);
      }
    }
  }

  lemma LabelsCons(k: string, top: string, rest: string)
    requires (top, rest) == SplitTld(k)
    ensures Labels(k) == [top] + Tail(rest)
  {
  }

  lemma PrefixCons(x: string, p: Path, y: string, q: Path)
    ensures [x] + p <= [y] + q <==> x == y && p <= q
  {
    assert ([x] + p)[1..] == p && ([y] + q)[1..] == q;
    if [x] + p <= [y] + q {
      assert ([x] + p)[0] == ([y] + q)[0];
      assert p == ([y] + q)[1..|p| + 1] == q[..|p|];
    }
  }
}
