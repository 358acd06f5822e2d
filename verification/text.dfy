/** The JavaScript string primitives the core relies on: the `\s` character
    class and `trim()`, whitespace collapsing, `split(...).pop()`, ASCII lower
    casing, `join`, concatenation of many strings and decimal rendering of
    numbers inside template literals. */
module Text {
  import Seqs

  /** ECMAScript WhiteSpace and LineTerminator code points: exactly the set
      matched by the regular-expression class `\s` and removed by `trim()`. */
  predicate IsWhitespace(c: char) {
    || c == '\t' || c == '\n' || c == '\U{000B}' || c == '\U{000C}' || c == '\r'
    || c == ' ' || c == '\U{00A0}' || c == '\U{1680}'
    || ('\U{2000}' <= c <= '\U{200A}')
    || c == '\U{2028}' || c == '\U{2029}' || c == '\U{202F}' || c == '\U{205F}'
    || c == '\U{3000}' || c == '\U{FEFF}'
  }

  predicate IsVisible(c: char) {
    !IsWhitespace(c)
  }

  /** The non-whitespace characters of `s`, in order. */
  function Visible(s: string): string {
    Seqs.Filter(s, IsVisible)
  }

  /** `trimStart()`: drops the leading whitespace run and nothing else. */
  function TrimStart(s: string): (r: string)
    ensures |r| <= |s| && r == s[|s| - |r|..]
    ensures r == [] || !IsWhitespace(r[0])
    ensures forall i :: 0 <= i < |s| - |r| ==> IsWhitespace(s[i])
  {
    if s == [] then []
    else if IsWhitespace(s[0]) then TrimStart(s[1..])
    else s
  }

  /** `trimEnd()`: drops the trailing whitespace run and nothing else. */
  function TrimEnd(s: string): (r: string)
    ensures |r| <= |s| && r == s[..|r|]
    ensures r == [] || !IsWhitespace(r[|r| - 1])
    ensures forall i :: |r| <= i < |s| ==> IsWhitespace(s[i])
  {
    if s == [] then []
    else if IsWhitespace(s[|s| - 1]) then TrimEnd(s[..|s| - 1])
    else s
  }

  /** `trim()`. */
  function Trim(s: string): string {
    TrimEnd(TrimStart(s))
  }

  /** `s.trim()` is empty exactly when `s` is empty or all whitespace. */
  lemma {:induction false} TrimEmptyIffBlank(s: string)
    ensures Trim(s) == [] <==> forall i :: 0 <= i < |s| ==> IsWhitespace(s[i])
  {
    var t := TrimStart(s);
    var k := |s| - |t|;
    assert forall i :: 0 <= i < |t| ==> t[i] == s[k + i];
    if t != [] {
      assert !IsWhitespace(t[0]);
      assert TrimEnd(t) != [];
    }
  }

  /** Whitespace at position `i` of `s`, if any, is a single space not
      followed by more whitespace. */
  predicate SpaceIsolatedAt(s: string, i: int)
    requires 0 <= i < |s|
  {
    IsWhitespace(s[i]) ==> s[i] == ' ' && (i + 1 < |s| ==> !IsWhitespace(s[i + 1]))
  }

  /** `s.replace(/\s+/g, ' ')`: every maximal run of whitespace becomes one
      space. */
  function CollapseWhitespace(s: string): (r: string)
    ensures (r == []) == (s == [])
    ensures s != [] && IsWhitespace(s[0]) ==> r[0] == ' '
    ensures s != [] && !IsWhitespace(s[0]) ==> r[0] == s[0]
    ensures forall i :: 0 <= i < |r| ==> SpaceIsolatedAt(r, i)
    decreases |s|
  {
    if s == [] then []
    else if IsWhitespace(s[0]) then
      var t := CollapseWhitespace(TrimStart(s));
      var r := " " + t;
      assert forall i :: 1 <= i < |r| ==> r[i] == t[i - 1];
      assert forall i :: 1 <= i < |r| ==> SpaceIsolatedAt(r, i) by {
        forall i | 1 <= i < |r|
          ensures SpaceIsolatedAt(r, i)
        {
          assert SpaceIsolatedAt(t, i - 1);
        }
      }
      assert SpaceIsolatedAt(r, 0);
      r
    else
      var t := CollapseWhitespace(s[1..]);
      var r := [s[0]] + t;
      assert forall i :: 1 <= i < |r| ==> r[i] == t[i - 1];
      assert forall i :: 1 <= i < |r| ==> SpaceIsolatedAt(r, i) by {
        forall i | 1 <= i < |r|
          ensures SpaceIsolatedAt(r, i)
        {
          assert SpaceIsolatedAt(t, i - 1);
        }
      }
      r
  }

  /** A string in the shape `replace(/\s+/g, ' ').trim()` produces: no
      whitespace at either end, and every inner whitespace is a single space
      between two visible characters. */
  ghost predicate IsNormalized(s: string) {
    && (s == [] || (!IsWhitespace(s[0]) && !IsWhitespace(s[|s| - 1])))
    && forall i :: 0 <= i < |s| ==> SpaceIsolatedAt(s, i)
  }

  /** `text.replace(/\s+/g, ' ').trim()`. */
  function Normalize(text: string): string {
    Trim(CollapseWhitespace(text))
  }

  lemma {:induction false} VisibleAppend(a: string, b: string)
    ensures Visible(a + b) == Visible(a) + Visible(b)
  {
    Seqs.FilterAppend(a, b, IsVisible);
  }

  lemma {:induction false} VisibleOfBlank(s: string)
    requires forall i :: 0 <= i < |s| ==> IsWhitespace(s[i])
    ensures Visible(s) == []
  {
    if s != [] {
      VisibleOfBlank(s[1..]);
    }
  }

  lemma {:induction false} VisibleTrimStart(s: string)
    ensures Visible(TrimStart(s)) == Visible(s)
    decreases |s|
  {
    if s != [] && IsWhitespace(s[0]) {
      VisibleTrimStart(s[1..]);
      assert TrimStart(s) == TrimStart(s[1..]);
      assert Visible(s) == Visible(s[1..]);
    }
  }

  lemma {:induction false} VisibleTrimEnd(s: string)
    ensures Visible(TrimEnd(s)) == Visible(s)
  {
    var t := TrimEnd(s);
    assert s == t + s[|t|..];
    VisibleOfBlank(s[|t|..]);
    VisibleAppend(t, s[|t|..]);
  }

  /** Collapsing whitespace never adds, drops or reorders a visible character. */
  lemma {:induction false} CollapseKeepsVisible(s: string)
    ensures Visible(CollapseWhitespace(s)) == Visible(s)
    decreases |s|
  {
    if s != [] {
      if IsWhitespace(s[0]) {
        var t := TrimStart(s);
        CollapseKeepsVisible(t);
        VisibleAppend(" ", CollapseWhitespace(t));
        VisibleTrimStart(s);
      } else {
        CollapseKeepsVisible(s[1..]);
        VisibleAppend([s[0]], CollapseWhitespace(s[1..]));
        VisibleAppend([s[0]], s[1..]);
        assert s == [s[0]] + s[1..];
      }
    }
  }

  /** Trimming a string whose whitespace is isolated single spaces leaves
      it normalized. */
  lemma {:induction false} TrimOfCollapsed(c: string)
    requires forall i :: 0 <= i < |c| ==> SpaceIsolatedAt(c, i)
    ensures IsNormalized(Trim(c))
  {
    var t := TrimStart(c);
    var u := TrimEnd(t);
    var k := |c| - |t|;
    forall i | 0 <= i < |u|
      ensures SpaceIsolatedAt(u, i)
    {
      assert u[i] == t[i] == c[k + i];
      assert SpaceIsolatedAt(c, k + i);
      if i + 1 < |u| {
        assert u[i + 1] == c[k + i + 1];
      }
    }
    if u != [] {
      assert u[0] == t[0];
    }
  }

  /** The result of `Normalize` is normalized and keeps every visible
      character of the input in order. */
  lemma {:induction false} NormalizeSpec(text: string)
    ensures IsNormalized(Normalize(text))
    ensures Visible(Normalize(text)) == Visible(text)
  {
    var c := CollapseWhitespace(text);
    TrimOfCollapsed(c);
    CollapseKeepsVisible(text);
    VisibleTrimStart(c);
    VisibleTrimEnd(TrimStart(c));
  }

  /** Collapsing a string without whitespace runs or trailing whitespace
      changes nothing. */
  lemma {:induction false} CollapseOfNormalized(s: string)
    requires s == [] || !IsWhitespace(s[|s| - 1])
    requires forall i :: 0 <= i < |s| ==> SpaceIsolatedAt(s, i)
    ensures CollapseWhitespace(s) == s
    decreases |s|
  {
    if s != [] {
      var rest := s[1..];
      IsolatedTail(s);
      assert rest == [] || rest[|rest| - 1] == s[|s| - 1];
      CollapseOfNormalized(rest);
      assert s == [s[0]] + rest;
      if IsWhitespace(s[0]) {
        assert SpaceIsolatedAt(s, 0);
        assert rest[0] == s[1];
        assert TrimStart(s) == TrimStart(rest) == rest;
        CollapseSpaceStep(s);
      } else {
        CollapseCharStep(s);
      }
    }
  }

  lemma {:induction false} IsolatedTail(s: string)
    requires s != []
    requires forall i :: 0 <= i < |s| ==> SpaceIsolatedAt(s, i)
    ensures forall i :: 0 <= i < |s| - 1 ==> SpaceIsolatedAt(s[1..], i)
  {
    var rest := s[1..];
    forall i | 0 <= i < |rest|
      ensures SpaceIsolatedAt(rest, i)
    {
      assert rest[i] == s[i + 1];
      assert SpaceIsolatedAt(s, i + 1);
    }
  }

  /** A text without whitespace passes through collapsing unchanged: no
      space is ever put inside a word. */
  lemma {:induction false} CollapseKeepsWord(s: string)
    requires forall i :: 0 <= i < |s| ==> !IsWhitespace(s[i])
    ensures CollapseWhitespace(s) == s
  {
    CollapseOfNormalized(s);
  }

  /** Normalizing is idempotent. */
  lemma {:induction false} NormalizeIdempotent(text: string)
    ensures Normalize(Normalize(text)) == Normalize(text)
  {
    NormalizeSpec(text);
    NormalizedFixed(Normalize(text));
  }

  /** A normalized string is its own normal form. */
  lemma {:induction false} NormalizedFixed(n: string)
    requires IsNormalized(n)
    ensures Normalize(n) == n
  {
    CollapseOfNormalized(n);
    assert TrimStart(n) == n;
    assert TrimEnd(n) == n;
  }

  /** Whitespace followed by nothing or by a visible character is all that
      `trimStart` removes. */
  lemma {:induction false} TrimStartBlank(w: string, b: string)
    requires forall i :: 0 <= i < |w| ==> IsWhitespace(w[i])
    requires b == [] || !IsWhitespace(b[0])
    ensures TrimStart(w + b) == b
    decreases |w|
  {
    if w == [] {
      assert w + b == b;
    } else {
      assert (w + b)[1..] == w[1..] + b;
      TrimStartBlank(w[1..], b);
    }
  }

  /** Whitespace after nothing or after a visible character is all that
      `trimEnd` removes. */
  lemma {:induction false} TrimEndBlank(a: string, w: string)
    requires a == [] || !IsWhitespace(a[|a| - 1])
    requires forall i :: 0 <= i < |w| ==> IsWhitespace(w[i])
    ensures TrimEnd(a + w) == a
    decreases |w|
  {
    if w == [] {
      assert a + w == a;
    } else {
      var x := a + w;
      assert x[..|x| - 1] == a + w[..|w| - 1];
      assert IsWhitespace(x[|x| - 1]);
      TrimEndBlank(a, w[..|w| - 1]);
    }
  }

  /** Once a visible character is reached, `trimStart` ignores what follows. */
  lemma {:induction false} TrimStartAppend(x: string, y: string)
    requires TrimStart(x) != []
    ensures TrimStart(x + y) == TrimStart(x) + y
    decreases |x|
  {
    if IsWhitespace(x[0]) {
      assert (x + y)[1..] == x[1..] + y;
      TrimStartAppend(x[1..], y);
    } else {
      assert (x + y)[0] == x[0];
    }
  }

  /** Once a visible character is reached, `trimEnd` ignores what precedes. */
  lemma {:induction false} TrimEndPrepend(x: string, y: string)
    requires TrimEnd(y) != []
    ensures TrimEnd(x + y) == x + TrimEnd(y)
    decreases |y|
  {
    var s := x + y;
    if IsWhitespace(y[|y| - 1]) {
      assert s[..|s| - 1] == x + y[..|y| - 1];
      TrimEndPrepend(x, y[..|y| - 1]);
    } else {
      assert s[|s| - 1] == y[|y| - 1];
    }
  }

  /** A string ending in a visible character keeps it under `trimStart`,
      which then removes something exactly when the string starts with
      whitespace. */
  lemma {:induction false} TrimStartKeepsLast(s: string)
    requires s != [] && !IsWhitespace(s[|s| - 1])
    ensures TrimStart(s) != [] && TrimStart(s)[|TrimStart(s)| - 1] == s[|s| - 1]
    ensures IsWhitespace(s[0]) ==> |TrimStart(s)| < |s|
  {
    var t := TrimStart(s);
    assert t != [];
    assert t == s[|s| - |t|..];
    assert t[|t| - 1] == s[|s| - 1];
    if IsWhitespace(s[0]) {
      assert t[0] == s[|s| - |t|];
    }
  }

  /** Collapsing keeps a visible last character last. */
  lemma {:induction false} CollapseLast(s: string)
    requires s != [] && !IsWhitespace(s[|s| - 1])
    ensures CollapseWhitespace(s) != []
    ensures CollapseWhitespace(s)[|CollapseWhitespace(s)| - 1] == s[|s| - 1]
    decreases |s|
  {
    if IsWhitespace(s[0]) {
      var t := TrimStart(s);
      TrimStartKeepsLast(s);
      CollapseLast(t);
      CollapseSpaceStep(s);
      var u := CollapseWhitespace(t);
      assert (" " + u)[|u|] == u[|u| - 1];
    } else if |s| == 1 {
      CollapseCharStep(s);
      assert CollapseWhitespace(s[1..]) == [];
    } else {
      var t := s[1..];
      assert t[|t| - 1] == s[|s| - 1];
      CollapseLast(t);
      CollapseCharStep(s);
      var u := CollapseWhitespace(t);
      assert ([s[0]] + u)[|u|] == u[|u| - 1];
    }
  }

  lemma {:induction false} CollapseSpaceStep(s: string)
    requires s != [] && IsWhitespace(s[0])
    ensures CollapseWhitespace(s) == " " + CollapseWhitespace(TrimStart(s))
  {
  }

  lemma {:induction false} CollapseCharStep(s: string)
    requires s != [] && !IsWhitespace(s[0])
    ensures CollapseWhitespace(s) == [s[0]] + CollapseWhitespace(s[1..])
  {
  }

  /** `replace(/\s+/g, ' ')` on a whitespace run between two visible
      characters, or between one and an end of the string: the run becomes
      exactly one space, and each side collapses on its own. */
  lemma {:induction false} CollapseRun(a: string, w: string, b: string)
    requires a == [] || !IsWhitespace(a[|a| - 1])
    requires w != [] && forall i :: 0 <= i < |w| ==> IsWhitespace(w[i])
    requires b == [] || !IsWhitespace(b[0])
    ensures CollapseWhitespace(a + w + b) == CollapseWhitespace(a) + " " + CollapseWhitespace(b)
    decreases |a|
  {
    if a == [] {
      CollapseRunFront(w, b);
    } else if IsWhitespace(a[0]) {
      var t := TrimStart(a);
      TrimStartKeepsLast(a);
      CollapseRun(t, w, b);
      CollapseRunSpace(a, w, b);
    } else {
      var t := a[1..];
      assert t == [] || t[|t| - 1] == a[|a| - 1];
      CollapseRun(t, w, b);
      CollapseRunChar(a, a[0], t, w, b);
    }
  }

  /** The run at the very start becomes one leading space. */
  lemma {:induction false} CollapseRunFront(w: string, b: string)
    requires w != [] && forall i :: 0 <= i < |w| ==> IsWhitespace(w[i])
    requires b == [] || !IsWhitespace(b[0])
    ensures CollapseWhitespace([] + w + b) == CollapseWhitespace([]) + " " + CollapseWhitespace(b)
  {
    var s := w + b;
    assert [] + w + b == s;
    assert s[0] == w[0];
    CollapseSpaceStep(s);
    TrimStartBlank(w, b);
    assert CollapseWhitespace([]) + " " == " ";
  }

  /** A leading whitespace run before a visible character becomes one
      space. */
  lemma {:induction false} CollapseLeadingRun(w: string, b: string)
    requires w != [] && forall i :: 0 <= i < |w| ==> IsWhitespace(w[i])
    requires b != [] && !IsWhitespace(b[0])
    ensures CollapseWhitespace(w + b) == " " + CollapseWhitespace(b)
  {
    var s := w + b;
    assert s[0] == w[0];
    CollapseSpaceStep(s);
    TrimStartBlank(w, b);
  }

  /** A trailing whitespace run after a visible character becomes one
      space. */
  lemma {:induction false} CollapseTrailingRun(p: string, sa: string)
    requires p != [] && !IsWhitespace(p[|p| - 1])
    requires sa != [] && forall i :: 0 <= i < |sa| ==> IsWhitespace(sa[i])
    ensures CollapseWhitespace(p + sa) == CollapseWhitespace(p) + " "
  {
    CollapseRunAt(p + sa, p, sa, []);
    assert CollapseWhitespace([]) == [];
  }

  /** `CollapseRun` for a string given whole together with its three parts. */
  lemma {:induction false} CollapseRunAt(s: string, a: string, w: string, b: string)
    requires a == [] || !IsWhitespace(a[|a| - 1])
    requires w != [] && forall i :: 0 <= i < |w| ==> IsWhitespace(w[i])
    requires b == [] || !IsWhitespace(b[0])
    requires s == a + w + b
    ensures CollapseWhitespace(s) == CollapseWhitespace(a) + " " + CollapseWhitespace(b)
  {
    CollapseRun(a, w, b);
  }

  /** The step of `CollapseRun` over a leading whitespace run of `a`. */
  lemma {:induction false} CollapseRunSpace(a: string, w: string, b: string)
    requires a != [] && IsWhitespace(a[0]) && TrimStart(a) != []
    requires var t := TrimStart(a);
      CollapseWhitespace(t + w + b) == CollapseWhitespace(t) + " " + CollapseWhitespace(b)
    ensures CollapseWhitespace(a + w + b) == CollapseWhitespace(a) + " " + CollapseWhitespace(b)
  {
    var t := TrimStart(a);
    var x, y := CollapseWhitespace(t), CollapseWhitespace(b);
    var s := a + w + b;
    assert s == a + (w + b);
    assert s[0] == a[0];
    TrimStartAppend(a, w + b);
    Seqs.AppendAssoc(t, w, b);
    calc {
      CollapseWhitespace(s);
      { CollapseSpaceStep(s); }
      " " + CollapseWhitespace(TrimStart(s));
      " " + CollapseWhitespace(t + w + b);
      " " + (x + " " + y);
      { Seqs.AppendAssoc(" ", x + " ", y); Seqs.AppendAssoc(" ", x, " "); }
      (" " + x) + " " + y;
      { CollapseSpaceStep(a); }
      CollapseWhitespace(a) + " " + y;
    }
  }

  /** The step of `CollapseRun` over a leading visible character `c`. */
  lemma {:induction false} CollapseRunChar(a: string, c: char, t: string, w: string, b: string)
    requires !IsWhitespace(c) && a == [c] + t
    requires CollapseWhitespace(t + w + b) == CollapseWhitespace(t) + " " + CollapseWhitespace(b)
    ensures CollapseWhitespace(a + w + b) == CollapseWhitespace(a) + " " + CollapseWhitespace(b)
  {
    var x, y := CollapseWhitespace(t), CollapseWhitespace(b);
    ConsRegroup(c, t, w, b);
    CollapseCons(c, t + w + b);
    CollapseCons(c, t);
    ConsRegroup(c, x, " ", y);
  }

  lemma {:induction false} ConsRegroup(c: char, x: string, y: string, z: string)
    ensures [c] + x + y + z == [c] + (x + y + z)
  {
  }

  /** A visible character in front is kept in front. */
  lemma {:induction false} CollapseCons(c: char, t: string)
    requires !IsWhitespace(c)
    ensures CollapseWhitespace([c] + t) == [c] + CollapseWhitespace(t)
  {
    var s := [c] + t;
    assert s[0] == c && s[1..] == t;
    CollapseCharStep(s);
  }

  /** A text with a visible character is its trimmed form followed by
      whitespace only. */
  lemma {:induction false} TrimEndSplit(a: string) returns (sa: string)
    requires Visible(a) != []
    ensures TrimEnd(a) != [] && !IsWhitespace(TrimEnd(a)[|TrimEnd(a)| - 1])
    ensures a == TrimEnd(a) + sa && forall i :: 0 <= i < |sa| ==> IsWhitespace(sa[i])
  {
    var p := TrimEnd(a);
    if p == [] {
      VisibleOfBlank(a);
    }
    sa := a[|p|..];
    forall i | 0 <= i < |sa|
      ensures IsWhitespace(sa[i])
    {
      assert sa[i] == a[|p| + i];
    }
  }

  /** A text with a visible character is whitespace only followed by its
      form trimmed at the start. */
  lemma {:induction false} TrimStartSplit(b: string) returns (sb: string)
    requires Visible(b) != []
    ensures TrimStart(b) != [] && !IsWhitespace(TrimStart(b)[0])
    ensures b == sb + TrimStart(b) && forall i :: 0 <= i < |sb| ==> IsWhitespace(sb[i])
  {
    var q := TrimStart(b);
    if q == [] {
      VisibleOfBlank(b);
    }
    sb := b[..|b| - |q|];
  }

  /** The normal form of a text that ends in a visible character and then
      whitespace: its collapsed form without the leading space. */
  lemma {:induction false} NormalizeBeforeBlank(p: string, sa: string)
    requires p != [] && !IsWhitespace(p[|p| - 1])
    requires forall i :: 0 <= i < |sa| ==> IsWhitespace(sa[i])
    ensures TrimStart(CollapseWhitespace(p)) != []
    ensures Normalize(p + sa) == TrimStart(CollapseWhitespace(p))
  {
    NormalizeVisibleLast(p);
    if sa == [] {
      assert p + sa == p;
    } else {
      NormalizeBeforeRun(p, sa);
    }
  }

  /** A text ending in a visible character normalizes to its collapsed form
      trimmed at the start, which is not empty. */
  lemma {:induction false} NormalizeVisibleLast(p: string)
    requires p != [] && !IsWhitespace(p[|p| - 1])
    ensures var u := TrimStart(CollapseWhitespace(p));
      u != [] && !IsWhitespace(u[|u| - 1]) && Normalize(p) == u
  {
    var x := CollapseWhitespace(p);
    assert x != [] && !IsWhitespace(x[|x| - 1]) by {
      CollapseLast(p);
    }
    var u := TrimStart(x);
    assert u != [] && !IsWhitespace(u[|u| - 1]) by {
      TrimStartKeepsLast(x);
    }
    assert TrimEnd(u) == u by {
      NormalizeEndsVisible(x);
    }
  }

  /** A collapsed text ending in a visible character normalizes to itself
      trimmed at the start. */
  lemma {:induction false} NormalizeEndsVisible(x: string)
    requires TrimStart(x) != [] && !IsWhitespace(TrimStart(x)[|TrimStart(x)| - 1])
    ensures TrimEnd(TrimStart(x)) == TrimStart(x)
  {
    TrimEndBlank(TrimStart(x), []);
    assert TrimStart(x) + [] == TrimStart(x);
  }

  lemma {:induction false} NormalizeBeforeRun(p: string, sa: string)
    requires p != [] && !IsWhitespace(p[|p| - 1])
    requires sa != [] && forall i :: 0 <= i < |sa| ==> IsWhitespace(sa[i])
    requires var x := CollapseWhitespace(p);
      TrimStart(x) != [] && !IsWhitespace(TrimStart(x)[|TrimStart(x)| - 1])
    ensures Normalize(p + sa) == TrimStart(CollapseWhitespace(p))
  {
    var x := CollapseWhitespace(p);
    CollapseTrailingRun(p, sa);
    TrimSpaceAfter(x);
  }

  /** One space after a text that trims to something ending visibly is
      trimmed away with the leading whitespace. */
  lemma {:induction false} TrimSpaceAfter(x: string)
    requires TrimStart(x) != [] && !IsWhitespace(TrimStart(x)[|TrimStart(x)| - 1])
    ensures Trim(x + " ") == TrimStart(x)
  {
    var u := TrimStart(x);
    TrimStartAppend(x, " ");
    TrimEndBlank(u, " ");
  }

  /** The normal form of a text that is whitespace and then starts with a
      visible character: its collapsed form without the trailing space. */
  lemma {:induction false} NormalizeAfterBlank(sb: string, q: string)
    requires q != [] && !IsWhitespace(q[0])
    requires forall i :: 0 <= i < |sb| ==> IsWhitespace(sb[i])
    ensures TrimEnd(CollapseWhitespace(q)) != []
    ensures Normalize(sb + q) == TrimEnd(CollapseWhitespace(q))
  {
    var y := CollapseWhitespace(q);
    assert y[0] == q[0];
    assert TrimEnd(y) != [];
    if sb == [] {
      assert sb + q == q;
      TrimStartBlank([], y);
      assert [] + y == y;
    } else {
      NormalizeAfterRun(sb, q);
    }
  }

  lemma {:induction false} NormalizeAfterRun(sb: string, q: string)
    requires q != [] && !IsWhitespace(q[0])
    requires sb != [] && forall i :: 0 <= i < |sb| ==> IsWhitespace(sb[i])
    ensures Normalize(sb + q) == TrimEnd(CollapseWhitespace(q))
  {
    var y := CollapseWhitespace(q);
    calc {
      Normalize(sb + q);
      Trim(CollapseWhitespace(sb + q));
      { CollapseLeadingRun(sb, q); }
      Trim(" " + y);
      TrimEnd(TrimStart(" " + y));
      { TrimStartBlank(" ", y); }
      TrimEnd(y);
    }
  }

  /** Trimming two pieces joined by a space trims each on its outer side. */
  lemma {:induction false} TrimJoin(x: string, y: string)
    requires TrimStart(x) != [] && TrimEnd(y) != []
    ensures Trim(x + " " + y) == TrimStart(x) + " " + TrimEnd(y)
  {
    var u := TrimStart(x);
    Seqs.AppendAssoc(x, " ", y);
    TrimStartAppend(x, " " + y);
    Seqs.AppendAssoc(u, " ", y);
    TrimEndPrepend(u + " ", y);
  }

  /** `replace(/\s+/g, ' ').trim()` separates words by exactly one space:
      two texts that each hold a visible character, joined by any
      whitespace, normalize to their own normal forms with one space
      between them. */
  lemma {:induction false} NormalizeJoin(a: string, w: string, b: string)
    requires Visible(a) != [] && Visible(b) != []
    requires w != [] && forall i :: 0 <= i < |w| ==> IsWhitespace(w[i])
    ensures Normalize(a + w + b) == Normalize(a) + " " + Normalize(b)
  {
    var sa := TrimEndSplit(a);
    var sb := TrimStartSplit(b);
    var p, q := TrimEnd(a), TrimStart(b);
    var u, v := TrimStart(CollapseWhitespace(p)), TrimEnd(CollapseWhitespace(q));
    assert Normalize(a) == u by {
      NormalizeBeforeBlank(p, sa);
    }
    assert Normalize(b) == v by {
      NormalizeAfterBlank(sb, q);
    }
    var mid := sa + w + sb;
    assert a + w + b == p + mid + q by {
      Regroup(p, sa, w, sb, q);
    }
    assert Normalize(p + mid + q) == u + " " + v by {
      BlankJoin(sa, w, sb);
      NormalizeAroundRun(p, mid, q);
    }
  }

  /** The normal form around a whitespace run between two visible
      characters. */
  lemma {:induction false} NormalizeAroundRun(p: string, mid: string, q: string)
    requires p != [] && !IsWhitespace(p[|p| - 1])
    requires mid != [] && forall i :: 0 <= i < |mid| ==> IsWhitespace(mid[i])
    requires q != [] && !IsWhitespace(q[0])
    ensures Normalize(p + mid + q)
            == TrimStart(CollapseWhitespace(p)) + " " + TrimEnd(CollapseWhitespace(q))
  {
    CollapseRun(p, mid, q);
    TrimJoin(CollapseWhitespace(p), CollapseWhitespace(q));
  }

  lemma {:induction false} BlankJoin(sa: string, w: string, sb: string)
    requires forall i :: 0 <= i < |sa| ==> IsWhitespace(sa[i])
    requires w != [] && forall i :: 0 <= i < |w| ==> IsWhitespace(w[i])
    requires forall i :: 0 <= i < |sb| ==> IsWhitespace(sb[i])
    ensures var mid := sa + w + sb; mid != [] && forall i :: 0 <= i < |mid| ==> IsWhitespace(mid[i])
  {
    var mid := sa + w + sb;
    forall i | 0 <= i < |mid|
      ensures IsWhitespace(mid[i])
    {
      if i < |sa| {
        assert mid[i] == sa[i];
      } else if i < |sa| + |w| {
        assert mid[i] == w[i - |sa|];
      } else {
        assert mid[i] == sb[i - |sa| - |w|];
      }
    }
  }

  lemma {:induction false} Regroup(p: string, sa: string, w: string, sb: string, q: string)
    ensures (p + sa) + w + (sb + q) == p + (sa + w + sb) + q
  {
    calc {
      (p + sa) + w + (sb + q);
      { Seqs.AppendAssoc(p + sa, w, sb + q); }
      (p + sa) + (w + (sb + q));
      { Seqs.AppendAssoc(w, sb, q); }
      (p + sa) + ((w + sb) + q);
      { Seqs.AppendAssoc(p + sa, w + sb, q); }
      ((p + sa) + (w + sb)) + q;
      { Seqs.AppendAssoc(p, sa, w + sb); Seqs.AppendAssoc(sa, w, sb); }
      p + (sa + w + sb) + q;
    }
  }

  /** Concatenation of a sequence of strings, left to right. */
  function Concat(ss: seq<string>): string {
    if ss == [] then "" else Concat(ss[..|ss| - 1]) + ss[|ss| - 1]
  }

  /** Concatenating more pieces only extends the text. */
  lemma {:induction false} ConcatPrefix(ss: seq<string>, k: nat)
    requires k <= |ss|
    ensures Concat(ss[..k]) <= Concat(ss)
    decreases |ss|
  {
    if k < |ss| {
      assert ss[..|ss| - 1][..k] == ss[..k];
      ConcatPrefix(ss[..|ss| - 1], k);
      assert ss[..|ss|] == ss;
    } else {
      assert ss[..k] == ss;
    }
  }

  lemma {:induction false} ConcatAppend(a: seq<string>, b: seq<string>)
    ensures Concat(a + b) == Concat(a) + Concat(b)
    decreases |b|
  {
    if b == [] {
      assert a + b == a;
    } else {
      var b' := b[..|b| - 1];
      var last := b[|b| - 1];
      assert (a + b)[..|a + b| - 1] == a + b';
      assert (a + b)[|a + b| - 1] == last;
      ConcatAppend(a, b');
      calc {
        Concat(a + b);
        Concat(a + b') + last;
        (Concat(a) + Concat(b')) + last;
        { Seqs.AppendAssoc(Concat(a), Concat(b'), last); }
        Concat(a) + (Concat(b') + last);
        Concat(a) + Concat(b);
      }
    }
  }

  /** `Array.prototype.join(sep)`. */
  function Join(parts: seq<string>, sep: string): string {
    if parts == [] then ""
    else if |parts| == 1 then parts[0]
    else parts[0] + sep + Join(parts[1..], sep)
  }

  /** ASCII case folding as `toLowerCase()` performs it on the letters A to Z. */
  function LowerAscii(s: string): (r: string)
    ensures |r| == |s|
    ensures forall i :: 0 <= i < |s| ==>
      r[i] == (if 'A' <= s[i] <= 'Z' then (s[i] as int + 32) as char else s[i])
  {
    if s == [] then []
    else [if 'A' <= s[0] <= 'Z' then (s[0] as int + 32) as char else s[0]] + LowerAscii(s[1..])
  }

  /** `s.split(sep).pop()`: the part after the last `sep`, or all of `s` when
      it holds none. */
  function LastSegment(s: string, sep: char): (r: string)
    ensures |r| <= |s| && r == s[|s| - |r|..]
    ensures sep !in r
    ensures |r| < |s| ==> s[|s| - |r| - 1] == sep
  {
    if s == [] then []
    else if s[|s| - 1] == sep then []
    else LastSegment(s[..|s| - 1], sep) + [s[|s| - 1]]
  }

  predicate StartsWith(s: string, prefix: string) {
    prefix <= s
  }

  predicate IsDigit(c: char) {
    '0' <= c <= '9'
  }

  function DigitChar(d: nat): (c: char)
    requires d < 10
    ensures IsDigit(c)
  {
    ('0' as int + d) as char
  }

  /** Decimal rendering of a non-negative integer, as in a template literal. */
  function NatToDecimal(n: nat): (r: string)
    ensures r != []
    ensures forall i :: 0 <= i < |r| ==> IsDigit(r[i])
  {
    if n < 10 then [DigitChar(n)] else NatToDecimal(n / 10) + [DigitChar(n % 10)]
  }

  /** Decimal rendering of an integer: a minus sign before negative values. */
  function IntToDecimal(n: int): string {
    if n < 0 then "-" + NatToDecimal(-n) else NatToDecimal(n)
  }

  /** Reads a string of decimal digits back as a number. */
  function DecimalValue(s: string): nat
    requires forall i :: 0 <= i < |s| ==> IsDigit(s[i])
  {
    if s == [] then 0
    else
      var d := s[|s| - 1];
      assert IsDigit(d);
      10 * DecimalValue(s[..|s| - 1]) + (d as int - '0' as int)
  }

  /** Rendering loses nothing: the decimal text reads back as the number. */
  lemma {:induction false} DecimalRoundTrip(n: nat)
    ensures DecimalValue(NatToDecimal(n)) == n
  {
    if n >= 10 {
      DecimalRoundTrip(n / 10);
      var r := NatToDecimal(n);
      assert r[..|r| - 1] == NatToDecimal(n / 10);
    }
  }

  lemma {:induction false} NatToDecimalInjective(a: nat, b: nat)
    requires NatToDecimal(a) == NatToDecimal(b)
    ensures a == b
  {
    DecimalRoundTrip(a);
    DecimalRoundTrip(b);
  }
}
