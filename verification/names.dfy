/**
  The package-name normalizer shared by the tree and SBOM loaders
  (`normalize_name_auto` in app.py and compare_sbom.py, `normalize_name` in
  compare_trivy_dep.py; the three copies perform the same steps).

  It lower-cases, turns every `_` and then every `-` into `.`, replaces each
  maximal run of `.` with one `.`, and strips `.` from both ends. Only ASCII
  letters are case-folded.
 */
module Names {

  const Separators: set<char> := {'.', '_', '-'}

  predicate IsUpper(c: char) {
    'A' <= c <= 'Z'
  }

  function LowerChar(c: char): char {
    if IsUpper(c) then (c as int + 32) as char else c
  }

  /** `str.lower()` on ASCII. */
  function Lower(s: string): (r: string)
    ensures |r| == |s|
    ensures forall i :: 0 <= i < |s| ==> r[i] == LowerChar(s[i])
  {
    if |s| == 0 then [] else [LowerChar(s[0])] + Lower(s[1..])
  }

  /** `str.replace(a, b)` for one-character `a` and `b`. */
  function Replace(s: string, a: char, b: char): (r: string)
    ensures |r| == |s|
    ensures forall i :: 0 <= i < |s| ==> r[i] == if s[i] == a then b else s[i]
  {
    if |s| == 0 then [] else [if s[0] == a then b else s[0]] + Replace(s[1..], a, b)
  }

  /** `re.sub(r"\.+", ".", s)`: a dot followed by a dot is dropped. */
  function CollapseDots(s: string): string {
    if |s| < 2 then s
    else if s[0] == '.' && s[1] == '.' then CollapseDots(s[1..])
    else [s[0]] + CollapseDots(s[1..])
  }

  function StripLeadingDots(s: string): string {
    if |s| > 0 && s[0] == '.' then StripLeadingDots(s[1..]) else s
  }

  function StripTrailingDots(s: string): string {
    if |s| > 0 && s[|s| - 1] == '.' then StripTrailingDots(s[..|s| - 1]) else s
  }

  /** `str.strip(".")`. */
  function StripDots(s: string): string {
    StripTrailingDots(StripLeadingDots(s))
  }

  /** The letter-case and separator steps before collapsing: each character is mapped on its own. */
  function Canonicalize(name: string): (t: string)
    ensures |t| == |name|
    ensures forall i :: 0 <= i < |name| ==> t[i] == if name[i] in Separators then '.' else LowerChar(name[i])
  {
    Replace(Replace(Lower(name), '_', '.'), '-', '.')
  }

  /**
    The normalizer, step by step as the source writes it. Whatever the input,
    the output has no upper-case letter, `_`, `-` or `..`, and does not start
    or end with `.`.
   */
  function Normalize(name: string): (r: string)
    ensures IsNormalized(r)
  {
    var t := Canonicalize(name);
    var c := CollapseDots(t);
    CollapseChars(t);
    StripLeadingKeeps(c);
    var l := StripLeadingDots(c);
    StripTrailingKeeps(l);
    var r := StripTrailingDots(l);
    assert CanonicalChars(r) by {
      forall i | 0 <= i < |r|
        ensures CanonicalChar(r[i])
      {
        assert r[i] in r;
      }
    }
    r
  }

  // ---------------------------------------------------------------------
  // What a normalized name looks like

  predicate CanonicalChar(c: char) {
    !IsUpper(c) && c != '_' && c != '-'
  }

  predicate CanonicalChars(s: string) {
    forall i :: 0 <= i < |s| ==> CanonicalChar(s[i])
  }

  predicate NoDoubleDot(s: string) {
    forall i :: 0 <= i < |s| - 1 ==> !(s[i] == '.' && s[i + 1] == '.')
  }

  predicate NoEdgeDot(s: string) {
    |s| > 0 ==> s[0] != '.' && s[|s| - 1] != '.'
  }

  /** No upper-case ASCII letter, no `_`, no `-`, no `..`, no `.` at either end. */
  predicate IsNormalized(s: string) {
    CanonicalChars(s) && NoDoubleDot(s) && NoEdgeDot(s)
  }

  /** `s` with every character of `cs` removed. */
  function Without(s: string, cs: set<char>): string {
    if |s| == 0 then [] else (if s[0] in cs then [] else [s[0]]) + Without(s[1..], cs)
  }

  // ---------------------------------------------------------------------
  // Step lemmas

  lemma {:induction false} CollapseChars(s: string)
    ensures forall c :: c in CollapseDots(s) ==> c in s
    ensures NoDoubleDot(CollapseDots(s))
    ensures |s| > 0 ==> |CollapseDots(s)| > 0 && CollapseDots(s)[0] == s[0]
    decreases |s|
  {
    if |s| >= 2 {
      CollapseChars(s[1..]);
      var t := CollapseDots(s[1..]);
      assert t[0] == s[1];
    }
  }

  lemma {:induction false} StripLeadingKeeps(s: string)
    ensures forall c :: c in StripLeadingDots(s) ==> c in s
    ensures NoDoubleDot(s) ==> NoDoubleDot(StripLeadingDots(s))
    ensures |StripLeadingDots(s)| > 0 ==> StripLeadingDots(s)[0] != '.'
    ensures |StripLeadingDots(s)| > 0 ==> StripLeadingDots(s)[|StripLeadingDots(s)| - 1] == s[|s| - 1]
    decreases |s|
  {
    if |s| > 0 && s[0] == '.' {
      StripLeadingKeeps(s[1..]);
    }
  }

  lemma {:induction false} StripTrailingKeeps(s: string)
    ensures forall c :: c in StripTrailingDots(s) ==> c in s
    ensures NoDoubleDot(s) ==> NoDoubleDot(StripTrailingDots(s))
    ensures |StripTrailingDots(s)| > 0 ==> StripTrailingDots(s)[|StripTrailingDots(s)| - 1] != '.'
    ensures |StripTrailingDots(s)| > 0 ==> StripTrailingDots(s)[0] == s[0]
    decreases |s|
  {
    if |s| > 0 && s[|s| - 1] == '.' {
      var t := s[..|s| - 1];
      StripTrailingKeeps(t);
      assert forall c :: c in t ==> c in s;
    }
  }

  lemma {:induction false} CollapseFixes(s: string)
    requires NoDoubleDot(s)
    ensures CollapseDots(s) == s
    decreases |s|
  {
    if |s| >= 2 {
      CollapseFixes(s[1..]);
    }
  }

  lemma {:induction false} LowerFixes(s: string)
    requires CanonicalChars(s)
    ensures Lower(s) == s
  {
  }

  // ---------------------------------------------------------------------
  // Properties of Normalize

  /** The output has no upper-case letter, `_`, `-` or `..`, and does not start or end with `.`. */
  lemma NormalizeIsNormalized(name: string)
    ensures IsNormalized(Normalize(name))
  {
  }

  /** A name that already has the normalized shape is left alone. */
  lemma NormalizeFixesNormalized(s: string)
    requires IsNormalized(s)
    ensures Normalize(s) == s
  {
    LowerFixes(s);
    assert Replace(s, '_', '.') == s;
    assert Replace(s, '-', '.') == s;
    CollapseFixes(s);
    assert StripLeadingDots(s) == s;
    assert StripTrailingDots(s) == s;
  }

  /** Normalizing twice is normalizing once. */
  lemma NormalizeIdempotent(name: string)
    ensures Normalize(Normalize(name)) == Normalize(name)
  {
    NormalizeIsNormalized(name);
    NormalizeFixesNormalized(Normalize(name));
  }

  /** The fixed points of Normalize are exactly the normalized names. */
  lemma NormalizeFixpointIff(s: string)
    ensures Normalize(s) == s <==> IsNormalized(s)
  {
    NormalizeIsNormalized(s);
    if IsNormalized(s) {
      NormalizeFixesNormalized(s);
    }
  }

  lemma {:induction false} WithoutReplace(s: string, a: char, b: char, cs: set<char>)
    requires a in cs && b in cs
    ensures Without(Replace(s, a, b), cs) == Without(s, cs)
    decreases |s|
  {
    if |s| > 0 {
      WithoutReplace(s[1..], a, b, cs);
      assert Replace(s, a, b)[1..] == Replace(s[1..], a, b);
    }
  }

  lemma {:induction false} WithoutCollapse(s: string, cs: set<char>)
    requires '.' in cs
    ensures Without(CollapseDots(s), cs) == Without(s, cs)
    decreases |s|
  {
    if |s| >= 2 {
      WithoutCollapse(s[1..], cs);
      if !(s[0] == '.' && s[1] == '.') {
        assert ([s[0]] + CollapseDots(s[1..]))[1..] == CollapseDots(s[1..]);
      }
    }
  }

  lemma {:induction false} WithoutAppend(a: string, b: string, cs: set<char>)
    ensures Without(a + b, cs) == Without(a, cs) + Without(b, cs)
    decreases |a|
  {
    if |a| == 0 {
      assert a + b == b;
    } else {
      assert (a + b)[1..] == a[1..] + b;
      WithoutAppend(a[1..], b, cs);
    }
  }

  lemma {:induction false} WithoutStrip(s: string, cs: set<char>)
    requires '.' in cs
    ensures Without(StripDots(s), cs) == Without(s, cs)
  {
    WithoutStripLeading(s, cs);
    WithoutStripTrailing(StripLeadingDots(s), cs);
  }

  lemma {:induction false} WithoutStripLeading(s: string, cs: set<char>)
    requires '.' in cs
    ensures Without(StripLeadingDots(s), cs) == Without(s, cs)
    decreases |s|
  {
    if |s| > 0 && s[0] == '.' {
      WithoutStripLeading(s[1..], cs);
    }
  }

  lemma {:induction false} WithoutStripTrailing(s: string, cs: set<char>)
    requires '.' in cs
    ensures Without(StripTrailingDots(s), cs) == Without(s, cs)
    decreases |s|
  {
    if |s| > 0 && s[|s| - 1] == '.' {
      var t := s[..|s| - 1];
      WithoutStripTrailing(t, cs);
      assert s == t + ['.'];
      WithoutAppend(t, ['.'], cs);
      assert Without(['.'], cs) == [];
    }
  }

  /**
    Normalization changes nothing but letter case and separators: with every
    `.`, `_` and `-` removed, the output is the lower-cased input.
   */
  lemma NormalizeKeepsNonSeparators(name: string)
    ensures Without(Normalize(name), Separators) == Without(Lower(name), Separators)
  {
    var t1 := Replace(Lower(name), '_', '.');
    var t2 := Replace(t1, '-', '.');
    WithoutReplace(Lower(name), '_', '.', Separators);
    WithoutReplace(t1, '-', '.', Separators);
    WithoutCollapse(t2, Separators);
    WithoutStrip(CollapseDots(t2), Separators);
  }

  lemma {:induction false} WithoutEmptyIff(s: string, cs: set<char>)
    ensures Without(s, cs) == [] <==> forall i :: 0 <= i < |s| ==> s[i] in cs
    decreases |s|
  {
    if |s| > 0 {
      WithoutEmptyIff(s[1..], cs);
      assert forall i :: 1 <= i < |s| ==> s[i] == s[1..][i - 1];
    }
  }

  /** A name normalizes to "" exactly when it consists of separators only. */
  lemma NormalizeEmptyIff(name: string)
    ensures Normalize(name) == "" <==> forall i :: 0 <= i < |name| ==> name[i] in Separators
  {
    var r := Normalize(name);
    NormalizeKeepsNonSeparators(name);
    NormalizeIsNormalized(name);
    WithoutEmptyIff(r, Separators);
    WithoutEmptyIff(Lower(name), Separators);
    if r != "" {
      assert r[0] !in Separators;
    }
    assert forall i :: 0 <= i < |name| ==> (Lower(name)[i] in Separators <==> name[i] in Separators);
  }

  // ---------------------------------------------------------------------
  // Separators between two words become exactly one dot

  predicate AllDots(s: string) {
    forall i :: 0 <= i < |s| ==> s[i] == '.'
  }

  predicate HasNonDot(s: string) {
    exists i :: 0 <= i < |s| && s[i] != '.'
  }

  /** Collapsing and stripping, the part of `Normalize` after the character map. */
  function Tidy(s: string): string {
    StripDots(CollapseDots(s))
  }

  lemma NormalizeIsTidy(name: string)
    ensures Normalize(name) == Tidy(Canonicalize(name))
  {
  }

  /** A dot-free boundary: the runs on either side are collapsed separately. */
  lemma {:induction false} CollapseAppend(u: string, v: string)
    requires |u| > 0 && u[|u| - 1] != '.'
    ensures CollapseDots(u + v) == CollapseDots(u) + CollapseDots(v)
    decreases |u|
  {
    if |u| == 1 {
      if |v| == 0 {
        assert u + v == u;
      } else {
        assert (u + v)[1..] == v;
      }
    } else {
      assert (u + v)[1..] == u[1..] + v;
      CollapseAppend(u[1..], v);
    }
  }

  /** A run of dots before a non-dot becomes one dot. */
  lemma {:induction false} CollapseRun(d: string, y: string)
    requires |d| > 0 && AllDots(d)
    requires |y| == 0 || y[0] != '.'
    ensures CollapseDots(d + y) == "." + CollapseDots(y)
    decreases |d|
  {
    if |d| == 1 {
      assert d + y == "." + y;
      if |y| > 0 {
        assert (d + y)[1..] == y;
      }
    } else {
      assert (d + y)[1..] == d[1..] + y;
      CollapseRun(d[1..], y);
    }
  }

  lemma {:induction false} CollapseLast(u: string)
    requires |u| > 0
    ensures |CollapseDots(u)| > 0 && CollapseDots(u)[|CollapseDots(u)| - 1] == u[|u| - 1]
    decreases |u|
  {
    if |u| >= 2 {
      CollapseLast(u[1..]);
    }
  }

  lemma {:induction false} StripLeadingAppend(a: string, b: string)
    requires HasNonDot(a)
    ensures StripLeadingDots(a + b) == StripLeadingDots(a) + b
    ensures |StripLeadingDots(a)| > 0
    decreases |a|
  {
    if a[0] == '.' {
      var i :| 0 <= i < |a| && a[i] != '.';
      assert a[1..][i - 1] != '.';
      assert (a + b)[1..] == a[1..] + b;
      StripLeadingAppend(a[1..], b);
    }
  }

  lemma {:induction false} StripTrailingAppend(a: string, b: string)
    requires HasNonDot(b)
    ensures StripTrailingDots(a + b) == a + StripTrailingDots(b)
    decreases |b|
  {
    if b[|b| - 1] == '.' {
      var i :| 0 <= i < |b| && b[i] != '.';
      var b' := b[..|b| - 1];
      assert b'[i] != '.';
      assert (a + b)[..|a + b| - 1] == a + b';
      StripTrailingAppend(a, b');
    }
  }

  lemma {:induction false} StripTrailingDotsTail(a: string, q: string)
    requires AllDots(q)
    ensures StripTrailingDots(a + q) == StripTrailingDots(a)
    decreases |q|
  {
    if |q| == 0 {
      assert a + q == a;
    } else {
      assert (a + q)[..|a + q| - 1] == a + q[..|q| - 1];
      StripTrailingDotsTail(a, q[..|q| - 1]);
    }
  }

  /** `x` as a part ending in a non-dot, then dots. */
  lemma {:induction false} SplitTrailingDots(x: string) returns (x1: string, q: string)
    requires HasNonDot(x)
    ensures x == x1 + q && |x1| > 0 && x1[|x1| - 1] != '.' && AllDots(q)
    decreases |x|
  {
    if x[|x| - 1] != '.' {
      x1, q := x, [];
    } else {
      var i :| 0 <= i < |x| && x[i] != '.';
      var init := x[..|x| - 1];
      assert init[i] != '.';
      var q';
      x1, q' := SplitTrailingDots(init);
      q := q' + ['.'];
      assert x == init + ['.'];
    }
  }

  /** `y` as dots, then a part starting with a non-dot. */
  lemma {:induction false} SplitLeadingDots(y: string) returns (p: string, y1: string)
    requires HasNonDot(y)
    ensures y == p + y1 && |y1| > 0 && y1[0] != '.' && AllDots(p)
    decreases |y|
  {
    if y[0] != '.' {
      p, y1 := [], y;
    } else {
      var i :| 0 <= i < |y| && y[i] != '.';
      assert y[1..][i - 1] != '.';
      var p';
      p', y1 := SplitLeadingDots(y[1..]);
      p := ['.'] + p';
      assert y == ['.'] + y[1..];
    }
  }

  /** Tidying a word followed by trailing dots gives the tidied word. */
  lemma TidyTrailing(x1: string, q: string)
    requires |x1| > 0 && x1[|x1| - 1] != '.' && AllDots(q)
    ensures Tidy(x1 + q) == StripLeadingDots(CollapseDots(x1))
  {
    var cx, cq := CollapseDots(x1), CollapseDots(q);
    CollapseAppend(x1, q);
    CollapseLast(x1);
    CollapseChars(q);
    assert AllDots(cq) by {
      forall i | 0 <= i < |cq| ensures cq[i] == '.' {
        assert cq[i] in cq;
      }
    }
    assert HasNonDot(cx) by {
      assert cx[|cx| - 1] != '.';
    }
    StripLeadingAppend(cx, cq);
    StripTrailingDotsTail(StripLeadingDots(cx), cq);
    StripLeadingKeeps(cx);
  }

  /** Tidying leading dots then a word gives the tidied word. */
  lemma TidyLeading(p: string, y1: string)
    requires |y1| > 0 && y1[0] != '.' && AllDots(p)
    ensures Tidy(p + y1) == StripTrailingDots(CollapseDots(y1))
  {
    var cy := CollapseDots(y1);
    CollapseChars(y1);
    if |p| == 0 {
      assert p + y1 == y1;
    } else {
      CollapseRun(p, y1);
      assert StripLeadingDots("." + cy) == StripLeadingDots(cy) by {
        assert ("." + cy)[1..] == cy;
      }
    }
  }

  /** Two words joined by any run of dots tidy to the tidied words joined by one dot. */
  lemma TidyJoin(x: string, y: string)
    requires HasNonDot(x) && HasNonDot(y)
    ensures Tidy(x + "." + y) == Tidy(x) + "." + Tidy(y)
  {
    var x1, q := SplitTrailingDots(x);
    var p, y1 := SplitLeadingDots(y);
    var d := q + "." + p;
    assert AllDots(d);
    assert x + "." + y == x1 + (d + y1);
    var cx, cy := CollapseDots(x1), CollapseDots(y1);
    CollapseAppend(x1, d + y1);
    CollapseRun(d, y1);
    assert CollapseDots(x + "." + y) == cx + ("." + cy);
    CollapseLast(x1);
    CollapseChars(y1);
    assert HasNonDot(cx) by {
      assert cx[|cx| - 1] != '.';
    }
    assert HasNonDot(cy) by {
      assert cy[0] != '.';
    }
    StripLeadingAppend(cx, "." + cy);
    assert StripLeadingDots(cx) + ("." + cy) == (StripLeadingDots(cx) + ".") + cy;
    StripTrailingAppend(StripLeadingDots(cx) + ".", cy);
    TidyTrailing(x1, q);
    TidyLeading(p, y1);
  }

  /** A normalizable name has a character the character map does not turn into a dot. */
  lemma CanonicalHasNonDot(name: string)
    requires Normalize(name) != ""
    ensures HasNonDot(Canonicalize(name))
  {
    NormalizeEmptyIff(name);
    var i :| 0 <= i < |name| && name[i] !in Separators;
    assert Canonicalize(name)[i] != '.';
  }

  /**
    A separator between two names that normalize to something non-empty
    becomes exactly one `.`, however many separators surround it.
   */
  lemma NormalizeJoin(a: string, c: char, b: string)
    requires c in Separators
    requires Normalize(a) != "" && Normalize(b) != ""
    ensures Normalize(a + [c] + b) == Normalize(a) + "." + Normalize(b)
  {
    var ta, tb := Canonicalize(a), Canonicalize(b);
    var t := Canonicalize(a + [c] + b);
    assert t == ta + "." + tb by {
      assert |t| == |ta + "." + tb|;
      forall i | 0 <= i < |t| ensures t[i] == (ta + "." + tb)[i] {
        if i < |a| {
          assert (a + [c] + b)[i] == a[i];
        } else if i > |a| {
          assert (a + [c] + b)[i] == b[i - |a| - 1];
        }
      }
    }
    CanonicalHasNonDot(a);
    CanonicalHasNonDot(b);
    TidyJoin(ta, tb);
    NormalizeIsTidy(a);
    NormalizeIsTidy(b);
    NormalizeIsTidy(a + [c] + b);
  }

  /** Cosmetic variants of one name meet, and the empty name stays empty. */
  lemma NormalizeExamples()
    ensures Normalize("A_b") == "a.b"
    ensures Normalize("a-b") == "a.b"
    ensures Normalize("A..B") == "a.b"
    ensures Normalize("") == ""
  {
    assert Lower("A_b") == "a_b";
    assert Lower("a-b") == "a-b";
    assert Lower("A..B") == "a..b";
    assert Replace("a_b", '_', '.') == "a.b";
    assert Replace("a-b", '_', '.') == "a-b";
    assert Replace("a..b", '_', '.') == "a..b";
    assert Replace("a.b", '-', '.') == "a.b";
    assert Replace("a-b", '-', '.') == "a.b";
    assert Replace("a..b", '-', '.') == "a..b";
    assert CollapseDots("a..b") == "a.b";
    assert CollapseDots("a.b") == "a.b";
    assert StripDots("a.b") == "a.b";
  }
}
