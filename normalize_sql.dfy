/** The SQL answer normaliser of src/utils/normalizeSql.ts: lower-case the
    string, replace every run of whitespace by one space, then trim.

    Whitespace is the set ECMAScript uses both for the regular-expression class
    `\s` and for `String.prototype.trim` (WhiteSpace and LineTerminator).
    Lower-casing is modelled on ASCII letters only. */
module SqlNormalize {

  /** ECMAScript WhiteSpace (tab, vertical tab, form feed, space, no-break space,
      byte order mark and the other space separators) and LineTerminator (LF, CR,
      line separator, paragraph separator). */
  const WhitespaceChars: set<char> := {
    '\t', '\n', '\U{B}', '\U{C}', '\r', ' ', '\U{A0}', '\U{1680}',
    '\U{2000}', '\U{2001}', '\U{2002}', '\U{2003}', '\U{2004}', '\U{2005}',
    '\U{2006}', '\U{2007}', '\U{2008}', '\U{2009}', '\U{200A}',
    '\U{2028}', '\U{2029}', '\U{202F}', '\U{205F}', '\U{3000}', '\U{FEFF}'
  }

  predicate IsWhitespace(c: char) {
    c in WhitespaceChars
  }

  predicate IsUpper(c: char) {
    'A' <= c <= 'Z'
  }

  /** Lower-casing of one character (ASCII letters). */
  function ToLower(c: char): (d: char)
    ensures !IsUpper(d)
    ensures IsWhitespace(d) <==> IsWhitespace(c)
    ensures IsWhitespace(c) ==> d == c
  {
    if IsUpper(c) then (c as int + 32) as char else c
  }

  predicate AllWhitespace(s: string) {
    forall i :: 0 <= i < |s| ==> IsWhitespace(s[i])
  }

  predicate NoUpper(s: string) {
    forall i :: 0 <= i < |s| ==> !IsUpper(s[i])
  }

  /** Every whitespace character is a plain space. */
  predicate OnlyPlainSpaces(s: string) {
    forall i :: 0 <= i < |s| && IsWhitespace(s[i]) ==> s[i] == ' '
  }

  /** No two adjacent whitespace characters. */
  predicate NoDoubleWhitespace(s: string) {
    forall i :: 0 <= i < |s| - 1 ==> !(IsWhitespace(s[i]) && IsWhitespace(s[i + 1]))
  }

  predicate NoOuterWhitespace(s: string) {
    s == [] || (!IsWhitespace(s[0]) && !IsWhitespace(s[|s| - 1]))
  }

  /** The shape every normalised answer has. */
  predicate Canonical(s: string) {
    NoUpper(s) && OnlyPlainSpaces(s) && NoDoubleWhitespace(s) && NoOuterWhitespace(s)
  }

  /** `toLowerCase()`. */
  function Lower(s: string): (r: string)
    ensures |r| == |s|
    ensures forall i {:trigger r[i]} :: 0 <= i < |s| ==> r[i] == ToLower(s[i])
  {
    if s == [] then [] else [ToLower(s[0])] + Lower(s[1..])
  }

  /** Drops the leading whitespace (the start half of `trim()`). */
  function TrimStart(s: string): (r: string)
    ensures |r| <= |s|
    ensures r == [] || !IsWhitespace(r[0])
    ensures s != [] && !IsWhitespace(s[|s| - 1]) ==> r != [] && r[|r| - 1] == s[|s| - 1]
  {
    if s != [] && IsWhitespace(s[0]) then TrimStart(s[1..]) else s
  }

  /** Drops the trailing whitespace (the end half of `trim()`). */
  function TrimEnd(s: string): (r: string)
    ensures |r| <= |s|
    ensures r == [] || !IsWhitespace(r[|r| - 1])
    ensures s != [] && !IsWhitespace(s[0]) ==> r != [] && r[0] == s[0]
  {
    if s != [] && IsWhitespace(s[|s| - 1]) then TrimEnd(s[..|s| - 1]) else s
  }

  /** `trim()`. */
  function Trim(s: string): string {
    TrimEnd(TrimStart(s))
  }

  /** `replace(/\s+/g, ' ')`: each maximal run of whitespace becomes one space. */
  function Collapse(s: string): (r: string)
    ensures |r| <= |s|
    ensures r == [] <==> s == []
    ensures s != [] ==> (IsWhitespace(r[0]) <==> IsWhitespace(s[0]))
    ensures s != [] && !IsWhitespace(s[0]) ==> r[0] == s[0]
    decreases |s|
  {
    if s == [] then []
    else if IsWhitespace(s[0]) then [' '] + Collapse(TrimStart(s[1..]))
    else [s[0]] + Collapse(s[1..])
  }

  /** normalizeSql(str) = str.toLowerCase().replace(/\s+/g, ' ').trim() */
  function NormalizeSql(s: string): string {
    Trim(Collapse(Lower(s)))
  }

  // ---------------------------------------------------------------------------
  // Trimming and slices

  lemma {:induction false} TrimStartAppendBlank(a: string, b: string)
    requires AllWhitespace(a)
    ensures TrimStart(a + b) == TrimStart(b)
    decreases |a|
  {
    if a == [] {
      assert a + b == b;
    } else {
      assert (a + b)[1..] == a[1..] + b;
      TrimStartAppendBlank(a[1..], b);
    }
  }

  lemma {:induction false} TrimStartAppendNonBlank(a: string, b: string, i: nat)
    requires i < |a| && !IsWhitespace(a[i])
    ensures TrimStart(a + b) == TrimStart(a) + b
    decreases |a|
  {
    if IsWhitespace(a[0]) {
      assert (a + b)[1..] == a[1..] + b;
      TrimStartAppendNonBlank(a[1..], b, i - 1);
    }
  }

  lemma TrimStartAppend(a: string, b: string)
    ensures TrimStart(a + b) == if AllWhitespace(a) then TrimStart(b) else TrimStart(a) + b
  {
    if AllWhitespace(a) {
      TrimStartAppendBlank(a, b);
    } else {
      var i :| 0 <= i < |a| && !IsWhitespace(a[i]);
      TrimStartAppendNonBlank(a, b, i);
    }
  }

  /** What trimming the front leaves is a suffix of the input. */
  lemma {:induction false} TrimStartIsSuffix(s: string)
    ensures TrimStart(s) == s[|s| - |TrimStart(s)|..]
  {
    if s != [] && IsWhitespace(s[0]) {
      TrimStartIsSuffix(s[1..]);
    }
  }

  /** What trimming the back leaves is a prefix of the input. */
  lemma {:induction false} TrimEndIsPrefix(s: string)
    ensures TrimEnd(s) == s[..|TrimEnd(s)|]
  {
    if s != [] && IsWhitespace(s[|s| - 1]) {
      TrimEndIsPrefix(s[..|s| - 1]);
    }
  }

  /** Only whitespace is dropped from the front. */
  lemma {:induction false} TrimStartDropsWhitespace(s: string, i: nat)
    requires i < |s| - |TrimStart(s)|
    ensures IsWhitespace(s[i])
  {
    if i > 0 {
      TrimStartDropsWhitespace(s[1..], i - 1);
    }
  }

  /** Only whitespace is dropped from the back. */
  lemma {:induction false} TrimEndDropsWhitespace(s: string, i: nat)
    requires |TrimEnd(s)| <= i < |s|
    ensures IsWhitespace(s[i])
  {
    if i < |s| - 1 {
      TrimEndDropsWhitespace(s[..|s| - 1], i);
    }
  }

  lemma TrimOfAllWhitespace(s: string)
    requires AllWhitespace(s)
    ensures TrimStart(s) == [] && Trim(s) == []
  {
  }

  /** Characters that are not whitespace survive trimming. */
  lemma TrimKeepsNonWhitespace(s: string, c: char)
    requires c in s && !IsWhitespace(c)
    ensures c in Trim(s)
  {
    var t := TrimStart(s);
    var k := |s| - |t|;
    TrimStartIsSuffix(s);
    var i :| 0 <= i < |s| && s[i] == c;
    if i < k {
      TrimStartDropsWhitespace(s, i);
    }
    assert t[i - k] == c;
    var u := TrimEnd(t);
    TrimEndIsPrefix(t);
    if i - k >= |u| {
      TrimEndDropsWhitespace(t, i - k);
    }
    assert u[i - k] == c;
  }

  /** `trim()` yields the empty string exactly on whitespace-only input; this is
      the `!userAnswer.trim()` guard of the game. */
  lemma TrimEmptyIffAllWhitespace(s: string)
    ensures Trim(s) == [] <==> AllWhitespace(s)
  {
    if AllWhitespace(s) {
      TrimOfAllWhitespace(s);
    } else {
      var i :| 0 <= i < |s| && !IsWhitespace(s[i]);
      TrimKeepsNonWhitespace(s, s[i]);
    }
  }

  // ---------------------------------------------------------------------------
  // Lower-casing

  lemma {:induction false} LowerAppend(a: string, b: string)
    ensures Lower(a + b) == Lower(a) + Lower(b)
  {
    if a == [] {
      assert a + b == b;
    } else {
      assert (a + b)[1..] == a[1..] + b;
      LowerAppend(a[1..], b);
    }
  }

  lemma LowerOfWhitespace(w: string)
    requires AllWhitespace(w)
    ensures Lower(w) == w
  {
  }

  lemma LowerOfNoUpper(s: string)
    requires NoUpper(s)
    ensures Lower(s) == s
  {
  }

  /** Two strings that differ only in the case of their letters. */
  predicate SameUpToCase(a: string, b: string) {
    |a| == |b| && forall i :: 0 <= i < |a| ==> ToLower(a[i]) == ToLower(b[i])
  }

  /** Lower-casing commutes with trimming, since it maps whitespace to whitespace. */
  lemma {:induction false} LowerTrimStart(s: string)
    ensures Lower(TrimStart(s)) == TrimStart(Lower(s))
  {
    if s != [] {
      assert Lower(s)[1..] == Lower(s[1..]);
      if IsWhitespace(s[0]) {
        LowerTrimStart(s[1..]);
      }
    }
  }

  lemma {:induction false} LowerTrimEnd(s: string)
    ensures Lower(TrimEnd(s)) == TrimEnd(Lower(s))
  {
    if s != [] {
      var n := |s| - 1;
      assert s == s[..n] + [s[n]];
      LowerAppend(s[..n], [s[n]]);
      assert Lower(s)[..n] == Lower(s[..n]);
      if IsWhitespace(s[n]) {
        LowerTrimEnd(s[..n]);
      }
    }
  }

  lemma LowerTrim(s: string)
    ensures Lower(Trim(s)) == Trim(Lower(s))
  {
    LowerTrimEnd(TrimStart(s));
    LowerTrimStart(s);
  }

  // ---------------------------------------------------------------------------
  // Collapsing whitespace runs

  /** Whitespace in the collapsed string is single plain spaces. */
  lemma {:induction false} CollapseShape(s: string)
    ensures OnlyPlainSpaces(Collapse(s)) && NoDoubleWhitespace(Collapse(s))
    decreases |s|
  {
    if s != [] {
      var rest := if IsWhitespace(s[0]) then TrimStart(s[1..]) else s[1..];
      var tail := Collapse(rest);
      CollapseShape(rest);
      var r := Collapse(s);
      assert r == [r[0]] + tail;
      assert IsWhitespace(s[0]) && tail != [] ==> !IsWhitespace(tail[0]);
      forall i | 0 <= i < |r| ensures IsWhitespace(r[i]) ==> r[i] == ' ' {
        if i > 0 { assert r[i] == tail[i - 1]; }
      }
      forall i | 0 <= i < |r| - 1 ensures !(IsWhitespace(r[i]) && IsWhitespace(r[i + 1])) {
        if i > 0 { assert r[i] == tail[i - 1] && r[i + 1] == tail[i]; }
      }
    }
  }

  /** Every letter of the collapsed string comes from the input. */
  lemma {:induction false} CollapseCharsFromInput(s: string, i: nat)
    requires i < |Collapse(s)| && !IsWhitespace(Collapse(s)[i])
    ensures Collapse(s)[i] in s
    decreases |s|
  {
    var r := Collapse(s);
    if i > 0 {
      var rest := if IsWhitespace(s[0]) then TrimStart(s[1..]) else s[1..];
      assert r == [r[0]] + Collapse(rest);
      assert r[i] == Collapse(rest)[i - 1];
      CollapseCharsFromInput(rest, i - 1);
      TrimStartIsSuffix(s[1..]);
      assert rest == s[|s| - |rest|..];
    }
  }

  /** Every non-whitespace character of the input survives collapsing. */
  lemma {:induction false} CollapseKeepsNonWhitespace(s: string, c: char)
    requires c in s && !IsWhitespace(c)
    ensures c in Collapse(s)
    decreases |s|
  {
    if s[0] != c {
      var rest := if IsWhitespace(s[0]) then TrimStart(s[1..]) else s[1..];
      assert c in s[1..];
      if IsWhitespace(s[0]) {
        var k := |s[1..]| - |rest|;
        TrimStartIsSuffix(s[1..]);
        var i :| 0 <= i < |s[1..]| && s[1..][i] == c;
        if i < k {
          TrimStartDropsWhitespace(s[1..], i);
        }
        assert rest[i - k] == c;
      }
      CollapseKeepsNonWhitespace(rest, c);
      assert Collapse(s) == [Collapse(s)[0]] + Collapse(rest);
    }
  }

  /** A string whose whitespace is already single plain spaces is left alone. */
  lemma {:induction false} CollapseOfCollapsed(s: string)
    requires OnlyPlainSpaces(s) && NoDoubleWhitespace(s)
    ensures Collapse(s) == s
  {
    if s != [] {
      assert OnlyPlainSpaces(s[1..]) && NoDoubleWhitespace(s[1..]) by {
        forall i | 0 <= i < |s[1..]| ensures s[1..][i] == s[i + 1] { }
      }
      CollapseOfCollapsed(s[1..]);
      if IsWhitespace(s[0]) {
        if |s| > 1 {
          assert !IsWhitespace(s[1]);
        }
        assert TrimStart(s[1..]) == s[1..];
      }
    }
  }

  /** A run of whitespace at the front collapses to one space, whatever its length. */
  lemma CollapseLeadingRun(w: string, q: string)
    requires w != [] && AllWhitespace(w)
    ensures Collapse(w + q) == [' '] + Collapse(TrimStart(q))
  {
    assert (w + q)[1..] == w[1..] + q;
    TrimStartAppend(w[1..], q);
  }

  /** One step of Collapse on a non-whitespace character. */
  lemma CollapseKeep(ch: char, rest: string)
    requires !IsWhitespace(ch)
    ensures Collapse([ch] + rest) == [ch] + Collapse(rest)
  {
    assert ([ch] + rest)[1..] == rest;
  }

  /** One step of Collapse on a whitespace character. */
  lemma CollapseSpace(ch: char, rest: string)
    requires IsWhitespace(ch)
    ensures Collapse([ch] + rest) == [' '] + Collapse(TrimStart(rest))
  {
    assert ([ch] + rest)[1..] == rest;
  }

  /** Replacing one whitespace run by a single space does not change the collapsed string. */
  lemma {:induction false} CollapseRunToSpace(p: string, w: string, q: string)
    requires w != [] && AllWhitespace(w)
    ensures Collapse(p + w + q) == Collapse(p + [' '] + q)
    decreases |p|, 1
  {
    if p == [] {
      assert p + w + q == w + q && p + [' '] + q == [' '] + q;
      CollapseLeadingRun(w, q);
      CollapseLeadingRun([' '], q);
    } else {
      var h, p' := p[0], p[1..];
      assert p + w + q == [h] + (p' + w + q);
      assert p + [' '] + q == [h] + (p' + [' '] + q);
      if !IsWhitespace(h) {
        calc {
          Collapse(p + w + q);
          { CollapseKeep(h, p' + w + q); }
          [h] + Collapse(p' + w + q);
          { CollapseRunToSpace(p', w, q); }
          [h] + Collapse(p' + [' '] + q);
          { CollapseKeep(h, p' + [' '] + q); }
          Collapse(p + [' '] + q);
        }
      } else {
        calc {
          Collapse(p + w + q);
          { CollapseSpace(h, p' + w + q); }
          [' '] + Collapse(TrimStart(p' + w + q));
          { RunAfterSpace(p', w, q); }
          [' '] + Collapse(TrimStart(p' + [' '] + q));
          { CollapseSpace(h, p' + [' '] + q); }
          Collapse(p + [' '] + q);
        }
      }
    }
  }

  /** The whitespace case of CollapseRunToSpace: after a leading space, the
      rest is trimmed before the run is reached, or the run joins it. */
  lemma {:induction false} RunAfterSpace(p': string, w: string, q: string)
    requires w != [] && AllWhitespace(w)
    ensures Collapse(TrimStart(p' + w + q)) == Collapse(TrimStart(p' + [' '] + q))
    decreases |p'| + 1, 0
  {
    assert p' + w + q == p' + (w + q);
    assert p' + [' '] + q == p' + ([' '] + q);
    if AllWhitespace(p') {
      TrimStartAppendBlank(p', w + q);
      TrimStartAppendBlank(p', [' '] + q);
      TrimStartAppendBlank(w, q);
      TrimStartAppendBlank([' '], q);
    } else {
      var i :| 0 <= i < |p'| && !IsWhitespace(p'[i]);
      TrimStartAppendNonBlank(p', w + q, i);
      TrimStartAppendNonBlank(p', [' '] + q, i);
      var t := TrimStart(p');
      assert t + (w + q) == t + w + q;
      assert t + ([' '] + q) == t + [' '] + q;
      TrimStartIsSuffix(p');
      CollapseRunToSpace(t, w, q);
    }
  }

  /** A trailing whitespace run after a string that ends in a non-whitespace
      character collapses to one space. */
  lemma {:induction false} CollapseTrailingRun(c: string, w: string)
    requires c == [] || !IsWhitespace(c[|c| - 1])
    requires w != [] && AllWhitespace(w)
    ensures Collapse(c + w) == Collapse(c) + [' ']
    decreases |c|, 1
  {
    if c == [] {
      assert c + w == w + [];
      CollapseLeadingRun(w, []);
    } else {
      var h, c' := c[0], c[1..];
      assert c + w == [h] + (c' + w);
      assert c == [h] + c';
      if !IsWhitespace(h) {
        calc {
          Collapse(c + w);
          { CollapseKeep(h, c' + w); }
          [h] + Collapse(c' + w);
          { CollapseTrailingRun(c', w); }
          [h] + (Collapse(c') + [' ']);
          ([h] + Collapse(c')) + [' '];
          { CollapseKeep(h, c'); }
          Collapse(c) + [' '];
        }
      } else {
        calc {
          Collapse(c + w);
          { CollapseSpace(h, c' + w); }
          [' '] + Collapse(TrimStart(c' + w));
          { TrailingAfterSpace(c', w); }
          [' '] + (Collapse(TrimStart(c')) + [' ']);
          ([' '] + Collapse(TrimStart(c'))) + [' '];
          { CollapseSpace(h, c'); }
          Collapse(c) + [' '];
        }
      }
    }
  }

  /** The whitespace case of CollapseTrailingRun. */
  lemma {:induction false} TrailingAfterSpace(c': string, w: string)
    requires c' != [] && !IsWhitespace(c'[|c'| - 1])
    requires w != [] && AllWhitespace(w)
    ensures Collapse(TrimStart(c' + w)) == Collapse(TrimStart(c')) + [' ']
    decreases |c'| + 1, 0
  {
    TrimStartAppendNonBlank(c', w, |c'| - 1);
    TrimStartIsSuffix(c');
    CollapseTrailingRun(TrimStart(c'), w);
  }

  // ---------------------------------------------------------------------------
  // Properties of the normaliser

  lemma CanonicalSlice(s: string, a: nat, b: nat)
    requires a <= b <= |s|
    requires NoUpper(s) && OnlyPlainSpaces(s) && NoDoubleWhitespace(s)
    ensures NoUpper(s[a..b]) && OnlyPlainSpaces(s[a..b]) && NoDoubleWhitespace(s[a..b])
  {
    var t := s[a..b];
    forall i | 0 <= i < |t| ensures t[i] == s[a + i] { }
  }

  lemma NoUpperCollapse(s: string)
    requires NoUpper(s)
    ensures NoUpper(Collapse(s))
  {
    var r := Collapse(s);
    forall i | 0 <= i < |r| ensures !IsUpper(r[i]) {
      if !IsWhitespace(r[i]) {
        CollapseCharsFromInput(s, i);
      }
    }
  }

  /** The result has no upper-case letter, only single plain spaces between
      words, and no whitespace at either end. */
  lemma NormalizeSqlCanonical(s: string)
    ensures Canonical(NormalizeSql(s))
  {
    var c := Collapse(Lower(s));
    NoUpperCollapse(Lower(s));
    CollapseShape(Lower(s));
    CanonicalTrim(c);
  }

  /** Trimming keeps the inner shape of a string and removes its outer whitespace. */
  lemma CanonicalTrim(c: string)
    requires NoUpper(c) && OnlyPlainSpaces(c) && NoDoubleWhitespace(c)
    ensures Canonical(Trim(c))
  {
    var t := TrimStart(c);
    var u := TrimEnd(t);
    TrimStartIsSuffix(c);
    TrimEndIsPrefix(t);
    CanonicalSlice(c, |c| - |t|, |c|);
    CanonicalSlice(t, 0, |u|);
  }

  /** The result is never longer than the input. */
  lemma NormalizeSqlShorter(s: string)
    ensures |NormalizeSql(s)| <= |s|
  {
  }

  /** Normalising a normalised string changes nothing. */
  lemma NormalizeSqlIdempotent(s: string)
    ensures NormalizeSql(NormalizeSql(s)) == NormalizeSql(s)
  {
    var r := NormalizeSql(s);
    NormalizeSqlCanonical(s);
    LowerOfNoUpper(r);
    CollapseOfCollapsed(r);
    assert TrimStart(r) == r;
    assert TrimEnd(r) == r;
  }

  /** Inputs that differ only in letter case normalise alike. */
  lemma {:induction false} NormalizeSqlIgnoresCase(a: string, b: string)
    requires SameUpToCase(a, b)
    ensures NormalizeSql(a) == NormalizeSql(b)
  {
    assert Lower(a) == Lower(b);
  }

  /** Inputs that differ only in the length of one whitespace run normalise alike. */
  lemma NormalizeSqlIgnoresRunLength(p: string, w1: string, w2: string, q: string)
    requires w1 != [] && AllWhitespace(w1)
    requires w2 != [] && AllWhitespace(w2)
    ensures NormalizeSql(p + w1 + q) == NormalizeSql(p + w2 + q)
  {
    LowerAppend(p + w1, q);
    LowerAppend(p, w1);
    LowerAppend(p + w2, q);
    LowerAppend(p, w2);
    LowerOfWhitespace(w1);
    LowerOfWhitespace(w2);
    CollapseRunToSpace(Lower(p), w1, Lower(q));
    CollapseRunToSpace(Lower(p), w2, Lower(q));
  }

  /** Trailing whitespace never reaches the normalised form. */
  lemma TrimCollapseIgnoresTrailing(y: string)
    ensures Trim(Collapse(y)) == Trim(Collapse(TrimEnd(y)))
  {
    var c := TrimEnd(y);
    var w := y[|c|..];
    TrailingWhitespace(y);
    if w != [] {
      CollapseTrailingRun(c, w);
      TrimAppendSpace(Collapse(c));
    }
  }

  /** What TrimEnd drops is a run of whitespace. */
  lemma TrailingWhitespace(y: string)
    ensures |TrimEnd(y)| <= |y|
    ensures y == TrimEnd(y) + y[|TrimEnd(y)|..]
    ensures AllWhitespace(y[|TrimEnd(y)|..])
  {
    var c := TrimEnd(y);
    var w := y[|c|..];
    TrimEndIsPrefix(y);
    forall i | 0 <= i < |w| ensures IsWhitespace(w[i]) {
      TrimEndDropsWhitespace(y, |c| + i);
    }
  }

  /** A space appended to a string vanishes under trim. */
  lemma TrimAppendSpace(z: string)
    ensures Trim(z + [' ']) == Trim(z)
  {
    TrimStartAppend(z, [' ']);
    if AllWhitespace(z) {
      TrimOfAllWhitespace(z);
    } else {
      var t := TrimStart(z);
      assert TrimStart(z + [' ']) == t + [' '];
      assert (t + [' '])[..|t|] == t;
    }
  }

  /** Whitespace at either end never reaches the normalised form. */
  lemma TrimCollapseIgnoresOuter(x: string)
    ensures Trim(Collapse(x)) == Trim(Collapse(Trim(x)))
  {
    var t := TrimStart(x);
    var lead := x[..|x| - |t|];
    TrimStartIsSuffix(x);
    assert x == lead + t;
    forall i | 0 <= i < |lead| ensures IsWhitespace(lead[i]) {
      TrimStartDropsWhitespace(x, i);
    }
    if lead != [] {
      CollapseLeadingRun(lead, t);
      assert TrimStart(t) == t;
    }
    TrimCollapseIgnoresTrailing(t);
  }

  /** Trimming first does not change the normalised form. */
  lemma NormalizeSqlOfTrim(s: string)
    ensures NormalizeSql(Trim(s)) == NormalizeSql(s)
  {
    LowerTrim(s);
    TrimCollapseIgnoresOuter(Lower(s));
  }

  /** A whitespace-only input normalises to the empty string, and only such
      input does; so the game's blank-answer guard is exactly "normalises to empty". */
  lemma NormalizeSqlEmptyIffBlank(s: string)
    ensures NormalizeSql(s) == [] <==> AllWhitespace(s)
    ensures NormalizeSql(s) == [] <==> Trim(s) == []
  {
    TrimEmptyIffAllWhitespace(s);
    var l := Lower(s);
    if AllWhitespace(s) {
      assert AllWhitespace(l);
      if l != [] {
        assert l == [l[0]] + l[1..];
        TrimOfAllWhitespace(l[1..]);
        assert Collapse(l) == [' '];
      }
    } else {
      var i :| 0 <= i < |s| && !IsWhitespace(s[i]);
      assert l[i] in l && !IsWhitespace(l[i]);
      CollapseKeepsNonWhitespace(l, l[i]);
      TrimKeepsNonWhitespace(Collapse(l), l[i]);
    }
  }
}
