/** String helpers shared by the classifier, the analyser and the folder manager. */
module Text {

  /** ASCII upper-case letter. Python's str.lower also folds non-ASCII letters; this model does not. */
  predicate IsUpper(c: char) { 'A' <= c <= 'Z' }

  predicate IsDigit(c: char) { '0' <= c <= '9' }

  function LowerChar(c: char): (r: char)
    ensures !IsUpper(r)
    ensures !IsUpper(c) ==> r == c
  {
    if IsUpper(c) then (c as int + 32) as char else c
  }

  /** str.lower() */
  function Lower(s: string): (r: string)
    ensures |r| == |s|
    ensures forall i :: 0 <= i < |s| ==> r[i] == LowerChar(s[i])
  {
    if s == [] then [] else [LowerChar(s[0])] + Lower(s[1..])
  }

  lemma LowerAppend(a: string, b: string)
    ensures Lower(a + b) == Lower(a) + Lower(b)
  {
    assert forall i :: 0 <= i < |a + b| ==> Lower(a + b)[i] == (Lower(a) + Lower(b))[i];
  }

  lemma {:induction false} LowerIdempotent(s: string)
    ensures Lower(Lower(s)) == Lower(s)
  {
    var l := Lower(s);
    assert forall i :: 0 <= i < |s| ==> Lower(l)[i] == l[i];
  }

  /** Python's `sub in s` for strings: sub occurs as a contiguous slice of s. */
  predicate Contains(s: string, sub: string)
    decreases |s|
  {
    sub <= s || (s != [] && Contains(s[1..], sub))
  }

  /** sub occurs in s starting at index i. */
  predicate OccursAt(s: string, sub: string, i: int) {
    0 <= i && i + |sub| <= |s| && s[i..i + |sub|] == sub
  }

  /** sub occurs in s at some index. */
  ghost predicate Occurs(s: string, sub: string) {
    exists i :: OccursAt(s, sub, i)
  }

  /** The occurrence-index reading of Contains, both directions. */
  lemma ContainsIff(s: string, sub: string)
    ensures Contains(s, sub) <==> Occurs(s, sub)
  {
    ContainsOccurs(s, sub);
    if i :| OccursAt(s, sub, i) {
      OccursContains(s, sub, i);
    }
  }

  lemma {:induction false} ContainsOccurs(s: string, sub: string)
    ensures Contains(s, sub) ==> Occurs(s, sub)
    decreases |s|
  {
    if sub <= s {
      assert OccursAt(s, sub, 0);
    } else if s != [] && Contains(s[1..], sub) {
      ContainsOccurs(s[1..], sub);
      var i :| OccursAt(s[1..], sub, i);
      OccursShift(s, sub, i + 1);
    }
  }

  lemma {:induction false} OccursContains(s: string, sub: string, i: int)
    requires OccursAt(s, sub, i)
    ensures Contains(s, sub)
    decreases i
  {
    if i == 0 {
      assert s[..|sub|] == sub;
    } else {
      OccursShift(s, sub, i);
      OccursContains(s[1..], sub, i - 1);
    }
  }

  /** An occurrence at i > 0 of s is one at i - 1 of s[1..], and back. */
  lemma OccursShift(s: string, sub: string, i: int)
    requires 0 < i && s != []
    ensures OccursAt(s, sub, i) <==> OccursAt(s[1..], sub, i - 1)
  {
    if i + |sub| <= |s| {
      assert s[1..][i - 1..i - 1 + |sub|] == s[i..i + |sub|];
    }
  }

  /** Two strings that differ at index k are not prefix-related. */
  lemma NotPrefixAt(a: string, b: string, k: int)
    requires 0 <= k < |a| && k < |b| && a[k] != b[k]
    ensures !(a <= b)
  {
  }

  /** Index of the last occurrence of c in s (str.rfind), or -1. */
  function RFind(s: string, c: char): (r: int)
    ensures -1 <= r < |s|
    ensures r >= 0 ==> s[r] == c && forall k :: r < k < |s| ==> s[k] != c
    ensures r == -1 ==> forall k :: 0 <= k < |s| ==> s[k] != c
  {
    if s == [] then -1
    else if s[|s| - 1] == c then |s| - 1
    else RFind(s[..|s| - 1], c)
  }

  predicate AllDots(s: string) { forall k :: 0 <= k < |s| ==> s[k] == '.' }

  /**
   * os.path.splitext on one path component: the extension starts at the last '.',
   * provided some character other than '.' comes before that dot; otherwise it is empty.
   */
  function SplitExt(name: string): (r: (string, string))
    ensures r.0 + r.1 == name
    ensures r.1 != [] ==> r.1[0] == '.' && '.' !in r.1[1..] && !AllDots(r.0)
    ensures r.1 == [] ==> forall i :: 0 <= i < |name| && name[i] == '.' ==> AllDots(name[..i])
  {
    var d := RFind(name, '.');
    if d >= 0 && !AllDots(name[..d]) then
      assert name[..d] + name[d..] == name;
      (name[..d], name[d..])
    else
      (name, "")
  }

  /** The extension starts at the last dot d when a character other than '.' comes before it. */
  lemma SplitExtAt(name: string, d: int, k: int)
    requires 0 <= k < d < |name| && name[d] == '.' && name[k] != '.'
    requires forall j :: d < j < |name| ==> name[j] != '.'
    ensures SplitExt(name) == (name[..d], name[d..])
  {
    assert name[..d][k] == name[k];
  }

  /** The converse of SplitExt's last ensures: when every dot has only dots before it, there is no extension. */
  lemma SplitExtNone(name: string)
    requires forall i :: 0 <= i < |name| && name[i] == '.' ==> AllDots(name[..i])
    ensures SplitExt(name) == (name, "")
  {
  }

  /** A name with a non-dot first character, then a last dot: the extension starts at that dot. */
  lemma SplitExtDot(stem: string, e: string)
    requires stem != [] && stem[0] != '.' && '.' !in e
    ensures SplitExt(stem + "." + e) == (stem, "." + e)
  {
    var n := stem + "." + e;
    var d := |stem|;
    assert n[d] == '.';
    assert forall j :: d < j < |n| ==> n[j] == e[j - d - 1];
    SplitExtAt(n, d, 0);
    assert n[..d] == stem;
    assert n[d..] == "." + e;
  }

  /** A name whose only dot is its first character has no extension. */
  lemma SplitExtLeadingDot(rest: string)
    requires '.' !in rest
    ensures SplitExt("." + rest) == ("." + rest, "")
  {
    var n := "." + rest;
    assert forall j :: 1 <= j < |n| ==> n[j] == rest[j - 1];
    assert n[..0] == [];
    SplitExtNone(n);
  }

  /** Lowering commutes with splitting, since it never creates or removes a dot. */
  lemma SplitExtLower(name: string)
    ensures SplitExt(Lower(name)) == (Lower(SplitExt(name).0), Lower(SplitExt(name).1))
  {
    var l := Lower(name);
    var d := RFind(name, '.');
    var e := RFind(l, '.');
    assert forall k :: 0 <= k < |name| ==> (l[k] == '.' <==> name[k] == '.');
    assert d == e;
    if d >= 0 {
      assert l[..d] == Lower(name[..d]);
      assert l[d..] == Lower(name[d..]);
      assert AllDots(l[..d]) <==> AllDots(name[..d]);
    }
  }

  /** `f"{stem}_{timestamp}{ext}"`: the conflict-renaming used by the folder manager. */
  function SuffixName(name: string, timestamp: string): (r: string)
    ensures |r| == |name| + 1 + |timestamp|
    ensures r != name
  {
    var parts := SplitExt(name);
    parts.0 + "_" + timestamp + parts.1
  }
}
