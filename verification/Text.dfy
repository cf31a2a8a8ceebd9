/**
  Strings as the Go code sees them: sequences of characters, one per byte, with ASCII case
  folding (`strings.ToLower`), trimming, and the byte-wise order used by `sort.Strings`.
 */
module Text {

  /** A domain name as its labels, top-level label first. */
  type Path = seq<string>

  function LowerChar(c: char): (r: char)
    ensures !('A' <= r <= 'Z')
  {
    if 'A' <= c <= 'Z' then ((c as int) + 32) as char else c
  }

  /** `strings.ToLower`, restricted to ASCII letters. */
  function ToLower(s: string): (r: string)
    ensures |r| == |s|
    ensures forall i :: 0 <= i < |s| ==> r[i] == LowerChar(s[i])
  {
    seq(|s|, i requires 0 <= i < |s| => LowerChar(s[i]))
  }

  predicate IsLower(s: string) {
    forall i :: 0 <= i < |s| ==> !('A' <= s[i] <= 'Z')
  }

  lemma LowerFixpoint(s: string)
    ensures IsLower(s) <==> ToLower(s) == s
    ensures ToLower(ToLower(s)) == ToLower(s)
  {
    if ToLower(s) == s {
      forall i | 0 <= i < |s| ensures !('A' <= s[i] <= 'Z') { assert s[i] == LowerChar(s[i]); }
    }
  }

  predicate HasPrefix(s: string, p: string) {
    p <= s
  }

  predicate HasSuffix(s: string, p: string) {
    |p| <= |s| && s[|s| - |p|..] == p
  }

  function TrimPrefix(s: string, p: string): (r: string)
    ensures HasPrefix(s, p) ==> s == p + r
    ensures !HasPrefix(s, p) ==> r == s
  {
    if p <= s then s[|p|..] else s
  }

  function TrimSuffix(s: string, p: string): (r: string)
    ensures HasSuffix(s, p) ==> s == r + p
    ensures !HasSuffix(s, p) ==> r == s
  {
    if HasSuffix(s, p) then s[..|s| - |p|] else s
  }

  /** The first index of `c` in `s`, or -1. */
  function IndexOf(s: string, c: char): (i: int)
    ensures -1 <= i < |s|
    ensures i == -1 <==> c !in s
    ensures 0 <= i ==> s[i] == c && c !in s[..i]
  {
    if s == "" then -1
    else if s[0] == c then 0
    else
      var j := IndexOf(s[1..], c);
      assert s == [s[0]] + s[1..];
      if j == -1 then -1 else assert s[..j + 1] == [s[0]] + s[1..][..j]; j + 1
  }

  /** The last index of `c` in `s`, or -1. */
  function LastIndexOf(s: string, c: char): (i: int)
    ensures -1 <= i < |s|
    ensures i == -1 <==> c !in s
    ensures 0 <= i ==> s[i] == c && c !in s[i + 1..]
  {
    if s == "" then -1
    else if s[|s| - 1] == c then |s| - 1
    else
      var j := LastIndexOf(s[..|s| - 1], c);
      assert s == s[..|s| - 1] + [s[|s| - 1]];
      AppendOther(s, c, j + 1);
      j
  }

  lemma LastIndexIs(s: string, c: char, i: nat)
    requires i < |s| && s[i] == c && c !in s[i + 1..]
    ensures LastIndexOf(s, c) == i
  {
    hide LastIndexOf;
    var j := LastIndexOf(s, c);
    if j < i {
      NotBehind(s, c, j, i);
    } else if i < j {
      NotBehind(s, c, i, j);
    }
  }

  lemma NotBehind(s: string, c: char, i: int, j: int)
    requires -1 <= i < j < |s| && c !in s[i + 1..]
    ensures s[j] != c
  {
    assert s[j] == s[i + 1..][j - i - 1];
  }

  lemma AppendOther(s: string, c: char, from: nat)
    requires s != "" && from <= |s| - 1 && s[|s| - 1] != c
    ensures c in s[from..] <==> c in s[..|s| - 1][from..]
  {
    assert s[from..] == s[..|s| - 1][from..] + [s[|s| - 1]];
  }

  /** `strings.TrimRight(s, c)`: drops every trailing `c`. */
  function TrimRightAll(s: string, c: char): (r: string)
    ensures r <= s
    ensures r == "" || r[|r| - 1] != c
    ensures forall i :: |r| <= i < |s| ==> s[i] == c
  {
    if s != "" && s[|s| - 1] == c then TrimRightAll(s[..|s| - 1], c) else s
  }

  /** `strings.TrimLeft(s, c)`: drops every leading `c`. */
  function TrimLeftAll(s: string, c: char): (r: string)
    ensures HasSuffix(s, r)
    ensures r == "" || r[0] != c
    ensures forall i :: 0 <= i < |s| - |r| ==> s[i] == c
  {
    if s != "" && s[0] == c then
      var r := TrimLeftAll(s[1..], c);
      assert forall i :: 0 < i < |s| - |r| ==> s[i] == s[1..][i - 1];
      r
    else s
  }

  /** `strings.Trim(s, ".")`. */
  function TrimDots(s: string): (r: string)
    ensures r == "" || (r[0] != '.' && r[|r| - 1] != '.')
  {
    var left := TrimLeftAll(s, '.');
    var r := TrimRightAll(left, '.');
    assert r != "" ==> r[0] == left[0];
    r
  }

  predicate IsSpace(c: char) {
    c == ' ' || '\t' <= c <= '\r'
  }

  /** `strings.TrimSpace`, for ASCII white space. */
  function TrimSpace(s: string): string {
    if s != "" && IsSpace(s[0]) then TrimSpace(s[1..])
    else if s != "" && IsSpace(s[|s| - 1]) then TrimSpace(s[..|s| - 1])
    else s
  }

  /** `util.ExtractDomainOnly`: the form in which names are looked up. */
  function ExtractDomainOnly(name: string): string {
    TrimSuffix(ToLower(name), ".")
  }

  /** The byte-wise order of Go strings. */
  predicate Less(a: string, b: string) {
    b != "" && (a == "" || a[0] < b[0] || (a[0] == b[0] && Less(a[1..], b[1..])))
  }

  predicate AtMost(a: string, b: string) {
    a == b || Less(a, b)
  }

  lemma {:induction false} LessTransitive(a: string, b: string, c: string)
    requires Less(a, b) && Less(b, c)
    ensures Less(a, c)
  {
    if a != "" && a[0] == b[0] && b[0] == c[0] {
      LessTransitive(a[1..], b[1..], c[1..]);
    }
  }

  lemma {:induction false} LessTotal(a: string, b: string)
    ensures Less(a, b) || a == b || Less(b, a)
    ensures !(Less(a, b) && Less(b, a))
    ensures a == b ==> !Less(a, b)
  {
    if a != "" && b != "" {
      LessTotal(a[1..], b[1..]);
      assert a == [a[0]] + a[1..] && b == [b[0]] + b[1..];
    }
  }

  ghost predicate Sorted(s: seq<string>) {
    forall i, j :: 0 <= i < j < |s| ==> AtMost(s[i], s[j])
  }

  ghost predicate StrictlySorted(s: seq<string>) {
    forall i, j :: 0 <= i < j < |s| ==> Less(s[i], s[j])
  }

  // What these operations mean, in terms of the texts alone.

  /** Capitals and small letters pair one to one, and everything else is kept. */
  lemma LowerPairs(c: char, k: nat)
    requires k < 26
    ensures LowerChar(('A' as int + k) as char) == ('a' as int + k) as char
    ensures !('A' <= c <= 'Z') ==> LowerChar(c) == c
  {
  }

  /** A capital and its small letter. */
  predicate CasePair(big: char, small: char) {
    'A' <= big <= 'Z' && 'a' <= small <= 'z' && big as int - 'A' as int == small as int - 'a' as int
  }

  predicate SameLetter(a: char, b: char) {
    a == b || CasePair(a, b) || CasePair(b, a)
  }

  /** Texts are equal in lower case exactly when they differ in the case of letters only. */
  lemma SameUpToCase(a: string, b: string)
    ensures ToLower(a) == ToLower(b) <==> |a| == |b| && forall i :: 0 <= i < |a| ==> SameLetter(a[i], b[i])
  {
    if |a| == |b| {
      forall i | 0 <= i < |a| ensures LowerChar(a[i]) == LowerChar(b[i]) <==> SameLetter(a[i], b[i]) {
        SameLetterIff(a[i], b[i]);
      }
      if ToLower(a) == ToLower(b) {
        assert forall i :: 0 <= i < |a| ==> ToLower(a)[i] == ToLower(b)[i];
      }
    }
  }

  lemma SameLetterIff(a: char, b: char)
    ensures LowerChar(a) == LowerChar(b) <==> SameLetter(a, b)
  {
  }

  predicate AllOf(s: string, c: char) {
    forall i :: 0 <= i < |s| ==> s[i] == c
  }

  /** Only dots are trimmed, and all of them at both ends. */
  lemma TrimDotsCuts(s: string) returns (before: string, behind: string)
    ensures s == before + TrimDots(s) + behind && AllOf(before, '.') && AllOf(behind, '.')
    ensures TrimDots(s) == "" || (TrimDots(s)[0] != '.' && TrimDots(s)[|TrimDots(s)| - 1] != '.')
  {
    hide TrimLeftAll, TrimRightAll;
    var left := TrimLeftAll(s, '.');
    var r := TrimRightAll(left, '.');
    before, behind := s[..|s| - |left|], left[|r|..];
    assert s == before + left && left == r + behind;
    Regrouped(before, r, behind);
  }

  lemma Regrouped(a: string, b: string, c: string)
    ensures a + (b + c) == a + b + c
  {
  }

  predicate AllSpace(s: string) {
    forall i :: 0 <= i < |s| ==> IsSpace(s[i])
  }

  /** Only white space is trimmed, and all of it at both ends. */
  lemma {:induction false} TrimSpaceCuts(s: string) returns (before: string, behind: string)
    ensures s == before + TrimSpace(s) + behind && AllSpace(before) && AllSpace(behind)
    ensures TrimSpace(s) == "" || (!IsSpace(TrimSpace(s)[0]) && !IsSpace(TrimSpace(s)[|TrimSpace(s)| - 1]))
    decreases |s|
  {
    var r := TrimSpace(s);
    if s != "" && IsSpace(s[0]) {
      assert r == TrimSpace(s[1..]);
      hide TrimSpace;
      before, behind := TrimSpaceCuts(s[1..]);
      assert s == [s[0]] + s[1..];
      Regrouped([s[0]], before + r, behind);
      Regrouped([s[0]], before, r);
      before := [s[0]] + before;
    } else if s != "" && IsSpace(s[|s| - 1]) {
      var last := [s[|s| - 1]];
      assert r == TrimSpace(s[..|s| - 1]);
      hide TrimSpace;
      before, behind := TrimSpaceCuts(s[..|s| - 1]);
      assert s == s[..|s| - 1] + last;
      Regrouped(before + r, behind, last);
      behind := behind + last;
    } else {
      before, behind := "", "";
      assert "" + s + "" == s;
    }
  }

  /** The order of texts: a text comes before its extensions, else the first difference decides. */
  ghost predicate ComesBefore(a: string, b: string) {
    || (a <= b && a != b)
    || exists i :: 0 <= i < |a| && i < |b| && a[..i] == b[..i] && a[i] < b[i]
  }

  lemma {:induction false} LessIsOrder(a: string, b: string)
    ensures Less(a, b) <==> ComesBefore(a, b)
    decreases |a|
  {
    if a != "" && b != "" && a[0] == b[0] {
      LessIsOrder(a[1..], b[1..]);
      OrderStep(a, b);
    } else if a != "" && b != "" {
      assert a[..0] == b[..0] == "";
      forall i | 0 < i < |a| && i < |b| ensures a[..i] != b[..i] { assert a[..i][0] != b[..i][0]; }
    }
  }

  lemma OrderStep(a: string, b: string)
    requires a != "" && b != "" && a[0] == b[0]
    ensures ComesBefore(a, b) <==> ComesBefore(a[1..], b[1..])
  {
    var x, y := a[1..], b[1..];
    PrefixStep(a, b);
    if i :| 0 <= i < |x| && i < |y| && x[..i] == y[..i] && x[i] < y[i] {
      DifferenceDown(a, b, i);
    }
    if i :| 0 <= i < |a| && i < |b| && a[..i] == b[..i] && a[i] < b[i] {
      DifferenceUp(a, b, i);
    }
  }

  lemma PrefixStep(a: string, b: string)
    requires a != "" && b != "" && a[0] == b[0]
    ensures a <= b <==> a[1..] <= b[1..]
    ensures a == b <==> a[1..] == b[1..]
  {
    var x, y := a[1..], b[1..];
    assert a == [a[0]] + x && b == [b[0]] + y;
  }

  lemma DifferenceDown(a: string, b: string, i: nat)
    requires a != "" && b != "" && a[0] == b[0] && i < |a| - 1 && i < |b| - 1 && a[1..][..i] == b[1..][..i]
    ensures a[..i + 1] == b[..i + 1]
  {
    assert a[..i + 1] == [a[0]] + a[1..][..i] && b[..i + 1] == [b[0]] + b[1..][..i];
  }

  lemma DifferenceUp(a: string, b: string, i: nat)
    requires i < |a| && i < |b| && a[..i] == b[..i]
    ensures i > 0 ==> a[1..][..i - 1] == b[1..][..i - 1]
  {
    if i > 0 { assert a[1..][..i - 1] == a[..i][1..] && b[1..][..i - 1] == b[..i][1..]; }
  }

  /** A domain is its name in lower case, without one final dot. */
  lemma DomainOfName(name: string)
    ensures ExtractDomainOnly(name) ==
      ToLower(if name != "" && name[|name| - 1] == '.' then name[..|name| - 1] else name)
  {
    var low := ToLower(name);
    if name != "" {
      assert low[|name| - 1..] == [low[|name| - 1]];
      LowerPairs(name[|name| - 1], 0);
      assert low[|name| - 1] == '.' <==> name[|name| - 1] == '.';
      assert ToLower(name[..|name| - 1]) == low[..|name| - 1];
    }
  }
}
