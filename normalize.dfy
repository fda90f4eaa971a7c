/**
  The text normaliser `clean_text` (app.py:61-62): every run of whitespace
  becomes one space (`re.sub(r"\s+", " ", x)`), both ends are trimmed
  (`.strip()`), and letters are lowercased (`.lower()`).

  Whitespace is the ASCII part of what Python's `\s` and `str.strip()`
  recognise, and lowercasing maps the ASCII letters A-Z only.
 */
module Normalize {

  /** Space, tab, line feed, vertical tab, form feed, carriage return and U+001C..U+001F. */
  predicate IsSpace(c: char) {
    c == ' ' || '\t' <= c <= '\r' || '\U{1C}' <= c <= '\U{1F}'
  }

  predicate AllSpace(s: string) {
    forall i :: 0 <= i < |s| ==> IsSpace(s[i])
  }

  predicate IsUpper(c: char) {
    'A' <= c <= 'Z'
  }

  function LowerChar(c: char): char {
    if IsUpper(c) then (c as int - 'A' as int + 'a' as int) as char else c
  }

  function UpperChar(c: char): char {
    if 'a' <= c <= 'z' then (c as int - 'a' as int + 'A' as int) as char else c
  }

  /** `s.lower()` on ASCII letters; other characters are left as they are. */
  function Lower(s: string): string {
    seq(|s|, i requires 0 <= i < |s| => LowerChar(s[i]))
  }

  /** `s.upper()` on ASCII letters; other characters are left as they are. */
  function Upper(s: string): string {
    seq(|s|, i requires 0 <= i < |s| => UpperChar(s[i]))
  }

  /** The two strings differ at most in the case of their letters. */
  predicate SameUpToCase(s: string, t: string) {
    |s| == |t| && forall i :: 0 <= i < |s| ==> LowerChar(s[i]) == LowerChar(t[i])
  }

  /** The non-whitespace characters of `s`, in order. */
  function Visible(s: string): string {
    if s == [] then [] else (if IsSpace(s[0]) then [] else [s[0]]) + Visible(s[1..])
  }

  /** `s.lstrip()`: a suffix of `s` that does not start with whitespace. */
  function StripLeading(s: string): (r: string)
    ensures |r| <= |s| && r == s[|s| - |r|..]
    ensures r == [] || !IsSpace(r[0])
  {
    if s != [] && IsSpace(s[0]) then StripLeading(s[1..]) else s
  }

  /** `s.rstrip()`: a prefix of `s` that does not end with whitespace. */
  function StripTrailing(s: string): (r: string)
    ensures |r| <= |s| && r == s[..|r|]
    ensures r == [] || !IsSpace(r[|r| - 1])
  {
    if s != [] && IsSpace(s[|s| - 1]) then StripTrailing(s[..|s| - 1]) else s
  }

  /** `lstrip` drops whitespace only: everything before the suffix it keeps is whitespace. */
  lemma {:induction false} StripLeadingDropsOnlySpace(s: string)
    ensures AllSpace(s[..|s| - |StripLeading(s)|])
  {
    if s != [] && IsSpace(s[0]) {
      StripLeadingDropsOnlySpace(s[1..]);
      var m := |s| - |StripLeading(s)|;
      assert forall i :: 1 <= i < m ==> s[..m][i] == s[1..][..m - 1][i - 1];
    }
  }

  /** `rstrip` drops whitespace only: everything after the prefix it keeps is whitespace. */
  lemma {:induction false} StripTrailingDropsOnlySpace(s: string)
    ensures AllSpace(s[|StripTrailing(s)|..])
  {
    if s != [] && IsSpace(s[|s| - 1]) {
      var t := s[..|s| - 1];
      StripTrailingDropsOnlySpace(t);
    }
  }

  /** `s.strip()` */
  function Strip(s: string): string {
    StripTrailing(StripLeading(s))
  }

  /** The only whitespace is ' ', and no two whitespace characters are adjacent. */
  predicate SingleSpaced(s: string) {
    forall i :: 0 <= i < |s| ==> SingleSpaceAt(s, i)
  }

  /** Position `i` of `s` is not whitespace, or is a ' ' not followed by whitespace. */
  predicate SingleSpaceAt(s: string, i: nat)
    requires i < |s|
  {
    IsSpace(s[i]) ==> s[i] == ' ' && (i + 1 < |s| ==> !IsSpace(s[i + 1]))
  }

  /** What `clean_text` promises: single-spaced, trimmed, no capital letters. */
  predicate IsClean(s: string) {
    SingleSpaced(s) &&
    (s != [] ==> !IsSpace(s[0]) && !IsSpace(s[|s| - 1])) &&
    forall i :: 0 <= i < |s| ==> !IsUpper(s[i])
  }

  /** `re.sub(r"\s+", " ", s)`: each maximal whitespace run becomes a single space. */
  function Collapse(s: string): string
    decreases |s|
  {
    if s == [] then []
    else if IsSpace(s[0]) then [' '] + Collapse(StripLeading(s[1..]))
    else [s[0]] + Collapse(s[1..])
  }

  /** Collapsing leaves a single-spaced string that starts with whitespace exactly when the input does. */
  lemma {:induction false} CollapseIsSingleSpaced(s: string)
    ensures SingleSpaced(Collapse(s))
    ensures s == [] <==> Collapse(s) == []
    ensures s != [] ==> (IsSpace(s[0]) <==> IsSpace(Collapse(s)[0]))
    decreases |s|
  {
    if s != [] {
      if IsSpace(s[0]) {
        var t := StripLeading(s[1..]);
        CollapseIsSingleSpaced(t);
        SingleSpacedCons(' ', Collapse(t));
      } else {
        CollapseIsSingleSpaced(s[1..]);
        SingleSpacedCons(s[0], Collapse(s[1..]));
      }
    }
  }

  /** A character put in front of a single-spaced string keeps it single-spaced, unless it makes a double space. */
  lemma SingleSpacedCons(c: char, t: string)
    requires SingleSpaced(t)
    requires IsSpace(c) ==> c == ' ' && (t == [] || !IsSpace(t[0]))
    ensures SingleSpaced([c] + t)
  {
    var s := [c] + t;
    forall i | 0 <= i < |s| ensures SingleSpaceAt(s, i) {
      if i > 0 {
        assert SingleSpaceAt(t, i - 1);
        assert s[i] == t[i - 1];
        if i + 1 < |s| {
          assert s[i + 1] == t[i];
        }
      }
    }
  }

  /** Collapsing changes only whitespace: the non-whitespace characters stay, in order. */
  lemma {:induction false} CollapseKeepsVisible(s: string)
    ensures Visible(Collapse(s)) == Visible(s)
    decreases |s|
  {
    if s != [] {
      if IsSpace(s[0]) {
        var rest := StripLeading(s[1..]);
        VisibleOfStripLeading(s[1..]);
        CollapseKeepsVisible(rest);
        VisibleCons(' ', Collapse(rest));
      } else {
        CollapseKeepsVisible(s[1..]);
        VisibleCons(s[0], Collapse(s[1..]));
      }
    }
  }

  /** `clean_text(x)` */
  function CleanText(x: string): string {
    Lower(Strip(Collapse(x)))
  }

  /**
    What `clean_text` guarantees: its result is clean (single-spaced, trimmed, no
    capital letters), it keeps every non-whitespace character of the input in order
    (lowercased), and whitespace-only input, including the empty string, gives "".
   */
  lemma CleanTextIsClean(x: string)
    ensures IsClean(CleanText(x))
    ensures Visible(CleanText(x)) == Lower(Visible(x))
    ensures AllSpace(x) ==> CleanText(x) == ""
  {
    var c := Collapse(x);
    var t := Strip(c);
    var r := Lower(t);
    CollapseIsSingleSpaced(x);
    CollapseKeepsVisible(x);
    StripKeepsSingleSpaced(c);
    StripTrims(c);
    LowerOfTrimmed(t);
    VisibleOfStrip(c);
    VisibleOfLower(t);
    if AllSpace(x) {
      VisibleEmptyIffAllSpace(x);
      VisibleEmptyIffAllSpace(r);
    }
  }

  // ---------------------------------------------------------------------------
  // Helper facts about Visible

  lemma VisibleCons(c: char, x: string)
    ensures Visible([c] + x) == (if IsSpace(c) then [] else [c]) + Visible(x)
  {
    assert ([c] + x)[1..] == x;
  }

  lemma {:induction false} VisibleAppend(a: string, b: string)
    ensures Visible(a + b) == Visible(a) + Visible(b)
  {
    if a == [] {
      assert a + b == b;
    } else {
      var head := if IsSpace(a[0]) then [] else [a[0]];
      assert (a + b)[0] == a[0];
      assert (a + b)[1..] == a[1..] + b;
      assert Visible(a + b) == head + Visible(a[1..] + b);
      VisibleAppend(a[1..], b);
      assert head + (Visible(a[1..]) + Visible(b)) == (head + Visible(a[1..])) + Visible(b);
    }
  }

  lemma {:induction false} VisibleEmptyIffAllSpace(s: string)
    ensures Visible(s) == [] <==> AllSpace(s)
  {
    if s != [] {
      VisibleEmptyIffAllSpace(s[1..]);
    }
  }

  lemma {:induction false} VisibleOfStripLeading(s: string)
    ensures Visible(StripLeading(s)) == Visible(s)
  {
    if s != [] && IsSpace(s[0]) {
      VisibleOfStripLeading(s[1..]);
    }
  }

  lemma {:induction false} VisibleOfStripTrailing(s: string)
    ensures Visible(StripTrailing(s)) == Visible(s)
  {
    var r := StripTrailing(s);
    StripTrailingDropsOnlySpace(s);
    assert s == r + s[|r|..];
    VisibleAppend(r, s[|r|..]);
    VisibleEmptyIffAllSpace(s[|r|..]);
  }

  lemma VisibleOfStrip(s: string)
    ensures Visible(Strip(s)) == Visible(s)
  {
    VisibleOfStripLeading(s);
    VisibleOfStripTrailing(StripLeading(s));
  }

  lemma {:induction false} VisibleOfLower(s: string)
    ensures Visible(Lower(s)) == Lower(Visible(s))
  {
    if s != [] {
      VisibleOfLower(s[1..]);
      assert Lower(s)[1..] == Lower(s[1..]);
      if !IsSpace(s[0]) {
        assert Lower([s[0]] + Visible(s[1..])) == [LowerChar(s[0])] + Lower(Visible(s[1..]));
      }
    }
  }

  lemma SingleSpacedDrop(s: string, k: nat)
    requires SingleSpaced(s) && k <= |s|
    ensures SingleSpaced(s[k..])
  {
    var r := s[k..];
    forall i | 0 <= i < |r| ensures SingleSpaceAt(r, i) {
      assert SingleSpaceAt(s, k + i);
      assert r[i] == s[k + i];
      if i + 1 < |r| {
        assert r[i + 1] == s[k + i + 1];
      }
    }
  }

  lemma SingleSpacedTake(s: string, k: nat)
    requires SingleSpaced(s) && k <= |s|
    ensures SingleSpaced(s[..k])
  {
    var r := s[..k];
    forall i | 0 <= i < |r| ensures SingleSpaceAt(r, i) {
      assert SingleSpaceAt(s, i);
    }
  }

  /** Trimming a single-spaced string keeps it single-spaced. */
  lemma StripKeepsSingleSpaced(s: string)
    requires SingleSpaced(s)
    ensures SingleSpaced(Strip(s))
  {
    var a := StripLeading(s);
    SingleSpacedDrop(s, |s| - |a|);
    SingleSpacedTake(a, |StripTrailing(a)|);
  }

  /** Neither end of a trimmed string is whitespace. */
  lemma StripTrims(s: string)
    ensures Strip(s) != [] ==> !IsSpace(Strip(s)[0]) && !IsSpace(Strip(s)[|Strip(s)| - 1])
  {
    var a := StripLeading(s);
    var r := StripTrailing(a);
    if r != [] {
      assert r[0] == a[0];
    }
  }

  lemma LowerOfTrimmed(t: string)
    requires SingleSpaced(t)
    requires t != [] ==> !IsSpace(t[0]) && !IsSpace(t[|t| - 1])
    ensures IsClean(Lower(t))
  {
    var r := Lower(t);
    assert forall i :: 0 <= i < |t| ==> (IsSpace(r[i]) <==> IsSpace(t[i]));
    forall i | 0 <= i < |r| ensures SingleSpaceAt(r, i) {
      assert SingleSpaceAt(t, i);
    }
  }

  // ---------------------------------------------------------------------------
  // Idempotence

  lemma {:induction false} CollapseFixesSingleSpaced(s: string)
    requires SingleSpaced(s)
    ensures Collapse(s) == s
    decreases |s|
  {
    if s != [] {
      SingleSpacedDrop(s, 1);
      CollapseFixesSingleSpaced(s[1..]);
      if IsSpace(s[0]) {
        assert SingleSpaceAt(s, 0);
        assert StripLeading(s[1..]) == s[1..];
      }
      assert [s[0]] + s[1..] == s;
    }
  }

  /** A string that is already clean is returned unchanged by `clean_text`. */
  lemma CleanTextFixesCleanStrings(s: string)
    requires IsClean(s)
    ensures CleanText(s) == s
  {
    CollapseFixesSingleSpaced(s);
    assert StripLeading(s) == s;
    assert StripTrailing(s) == s;
    assert Lower(s) == s;
  }

  /** Cleaning twice is the same as cleaning once. */
  lemma CleanTextIdempotent(x: string)
    ensures CleanText(CleanText(x)) == CleanText(x)
  {
    CleanTextIsClean(x);
    CleanTextFixesCleanStrings(CleanText(x));
  }

  // ---------------------------------------------------------------------------
  // Letter case does not matter

  lemma LowerCharKeepsSpace(a: char, b: char)
    requires LowerChar(a) == LowerChar(b)
    ensures IsSpace(a) <==> IsSpace(b)
  {
  }

  lemma {:induction false} StripLeadingUpToCase(s: string, t: string)
    requires SameUpToCase(s, t)
    ensures SameUpToCase(StripLeading(s), StripLeading(t))
    decreases |s|
  {
    if s != [] {
      LowerCharKeepsSpace(s[0], t[0]);
      if IsSpace(s[0]) {
        StripLeadingUpToCase(s[1..], t[1..]);
      }
    }
  }

  lemma {:induction false} StripTrailingUpToCase(s: string, t: string)
    requires SameUpToCase(s, t)
    ensures SameUpToCase(StripTrailing(s), StripTrailing(t))
    decreases |s|
  {
    if s != [] {
      LowerCharKeepsSpace(s[|s| - 1], t[|t| - 1]);
      if IsSpace(s[|s| - 1]) {
        StripTrailingUpToCase(s[..|s| - 1], t[..|t| - 1]);
      }
    }
  }

  lemma {:induction false} CollapseUpToCase(s: string, t: string)
    requires SameUpToCase(s, t)
    ensures SameUpToCase(Collapse(s), Collapse(t))
    decreases |s|
  {
    if s != [] {
      LowerCharKeepsSpace(s[0], t[0]);
      if IsSpace(s[0]) {
        StripLeadingUpToCase(s[1..], t[1..]);
        CollapseUpToCase(StripLeading(s[1..]), StripLeading(t[1..]));
      } else {
        CollapseUpToCase(s[1..], t[1..]);
      }
    }
  }

  lemma LowerUpToCase(s: string, t: string)
    requires SameUpToCase(s, t)
    ensures Lower(s) == Lower(t)
  {
  }

  /** Texts that differ only in letter case clean to the same string. */
  lemma CleanTextIgnoresCase(s: string, t: string)
    requires SameUpToCase(s, t)
    ensures CleanText(s) == CleanText(t)
  {
    var cs, ct := Collapse(s), Collapse(t);
    CollapseUpToCase(s, t);
    var ls, lt := StripLeading(cs), StripLeading(ct);
    StripLeadingUpToCase(cs, ct);
    StripTrailingUpToCase(ls, lt);
    LowerUpToCase(StripTrailing(ls), StripTrailing(lt));
  }

  /** `s.upper()` and `s.lower()` differ from `s` only in letter case. */
  lemma CaseChangesAreSameUpToCase(s: string)
    ensures SameUpToCase(Upper(s), s)
    ensures SameUpToCase(Lower(s), s)
  {
  }

  // ---------------------------------------------------------------------------
  // Extra whitespace does not matter

  lemma {:induction false} StripLeadingSkipsSpace(w: string, y: string)
    requires AllSpace(w)
    ensures StripLeading(w + y) == StripLeading(y)
    decreases |w|
  {
    if w == [] {
      assert w + y == y;
    } else {
      calc {
        StripLeading(w + y);
        { assert (w + y)[0] == w[0]; }
        StripLeading((w + y)[1..]);
        { assert (w + y)[1..] == w[1..] + y; }
        StripLeading(w[1..] + y);
        { StripLeadingSkipsSpace(w[1..], y); }
        StripLeading(y);
      }
    }
  }

  lemma {:induction false} StripLeadingStopsAtText(u: string, y: string, k: nat)
    requires k < |u| && !IsSpace(u[k])
    ensures StripLeading(u + y) == StripLeading(u) + y
    decreases |u|
  {
    assert (u + y)[0] == u[0];
    if IsSpace(u[0]) {
      calc {
        StripLeading(u + y);
        StripLeading((u + y)[1..]);
        { assert (u + y)[1..] == u[1..] + y; }
        StripLeading(u[1..] + y);
        { StripLeadingStopsAtText(u[1..], y, k - 1); }
        StripLeading(u[1..]) + y;
      }
    }
  }

  /** A non-empty whitespace run at the front collapses to one space, whatever its length. */
  lemma CollapseLeadingRun(w: string, y: string)
    requires w != [] && AllSpace(w)
    ensures Collapse(w + y) == [' '] + Collapse(StripLeading(y))
  {
    assert (w + y)[1..] == w[1..] + y;
    StripLeadingSkipsSpace(w[1..], y);
  }

  /** The collapsed form of `x + w + y` does not depend on which non-empty whitespace run `w` is. */
  lemma {:induction false} CollapseIgnoresRunLength(x: string, w1: string, w2: string, y: string)
    requires w1 != [] && AllSpace(w1) && w2 != [] && AllSpace(w2)
    ensures Collapse(x + w1 + y) == Collapse(x + w2 + y)
    decreases |x|
  {
    if x == [] {
      assert x + w1 + y == w1 + y && x + w2 + y == w2 + y;
      CollapseLeadingRun(w1, y);
      CollapseLeadingRun(w2, y);
    } else {
      CollapseRunAfterHead(x, w1, y);
      CollapseRunAfterHead(x, w2, y);
      if !IsSpace(x[0]) {
        CollapseIgnoresRunLength(x[1..], w1, w2, y);
      } else if AllSpace(x[1..]) {
      } else {
        CollapseIgnoresRunLength(StripLeading(x[1..]), w1, w2, y);
      }
    }
  }

  /** One step of `Collapse` on `x + w + y` for a non-empty `x`. */
  lemma CollapseRunAfterHead(x: string, w: string, y: string)
    requires x != [] && w != [] && AllSpace(w)
    ensures !IsSpace(x[0]) ==> Collapse(x + w + y) == [x[0]] + Collapse(x[1..] + w + y)
    ensures IsSpace(x[0]) && AllSpace(x[1..]) ==> Collapse(x + w + y) == [' '] + Collapse(StripLeading(y))
    ensures IsSpace(x[0]) && !AllSpace(x[1..]) ==>
      Collapse(x + w + y) == [' '] + Collapse(StripLeading(x[1..]) + w + y)
  {
    var s := x + w + y;
    var u := x[1..];
    assert s[0] == x[0] && s[1..] == u + (w + y);
    if IsSpace(x[0]) {
      assert Collapse(s) == [' '] + Collapse(StripLeading(u + (w + y)));
      if AllSpace(u) {
        StripLeadingSkipsSpace(u, w + y);
        StripLeadingSkipsSpace(w, y);
      } else {
        var k :| 0 <= k < |u| && !IsSpace(u[k]);
        StripLeadingStopsAtText(u, w + y, k);
        assert StripLeading(u) + (w + y) == StripLeading(u) + w + y;
      }
    } else {
      assert s[1..] == x[1..] + w + y;
    }
  }

  /**
    Replacing one whitespace run inside the text by another whitespace run of any
    length (for instance, inserting whitespace next to existing whitespace) leaves
    the cleaned text unchanged.
   */
  lemma CleanTextIgnoresRunLength(x: string, w1: string, w2: string, y: string)
    requires w1 != [] && AllSpace(w1) && w2 != [] && AllSpace(w2)
    ensures CleanText(x + w1 + y) == CleanText(x + w2 + y)
  {
    CollapseIgnoresRunLength(x, w1, w2, y);
  }

  lemma CollapseIgnoresLeadingSpace(w: string, s: string)
    requires AllSpace(w)
    ensures Strip(Collapse(w + s)) == Strip(Collapse(s))
  {
    if w == [] {
      assert w + s == s;
    } else {
      CollapseLeadingRun(w, s);
      if s != [] && IsSpace(s[0]) {
        assert StripLeading(s) == StripLeading(s[1..]);
      } else if s != [] {
        assert StripLeading([' '] + Collapse(s)) == StripLeading(Collapse(s));
      } else {
        assert StripLeading([' ']) == [];
      }
    }
  }

  /** When `s` has some text, leading-whitespace removal keeps its last character. */
  lemma {:induction false} StripLeadingKeepsLast(s: string)
    requires !AllSpace(s)
    ensures StripLeading(s) != [] && StripLeading(s)[|StripLeading(s)| - 1] == s[|s| - 1]
    decreases |s|
  {
    if IsSpace(s[0]) {
      var u := s[1..];
      assert !AllSpace(u) by {
        var k :| 0 <= k < |s| && !IsSpace(s[k]);
        assert u[k - 1] == s[k];
      }
      StripLeadingKeepsLast(u);
      assert u[|u| - 1] == s[|s| - 1];
    }
  }

  /** A non-empty whitespace run at the end collapses to one space, or merges with a trailing run. */
  lemma {:induction false} CollapseTrailingRun(s: string, w: string)
    requires w != [] && AllSpace(w)
    ensures s == [] || !IsSpace(s[|s| - 1]) ==> Collapse(s + w) == Collapse(s) + [' ']
    ensures s != [] && IsSpace(s[|s| - 1]) ==> Collapse(s + w) == Collapse(s)
    decreases |s|, 1
  {
    if s == [] {
      assert s + w == w + [];
      CollapseLeadingRun(w, []);
    } else if !IsSpace(s[0]) {
      CollapseTrailingRunAfterText(s, w);
    } else if AllSpace(s[1..]) {
      CollapseTrailingRunAllSpace(s, w);
    } else {
      CollapseTrailingRunAfterSpace(s, w);
    }
  }

  lemma {:induction false} CollapseTrailingRunAfterText(s: string, w: string)
    requires w != [] && AllSpace(w) && s != [] && !IsSpace(s[0])
    ensures !IsSpace(s[|s| - 1]) ==> Collapse(s + w) == Collapse(s) + [' ']
    ensures IsSpace(s[|s| - 1]) ==> Collapse(s + w) == Collapse(s)
    decreases |s|, 0
  {
    var u := s[1..];
    assert Collapse(s + w) == [s[0]] + Collapse(u + w) by {
      assert s + w + [] == s + w && u + w + [] == u + w;
      CollapseRunAfterHead(s, w, []);
    }
    assert Collapse(s) == [s[0]] + Collapse(u);
    CollapseTrailingRun(u, w);
    if u == [] {
      assert Collapse(s + w) == [s[0]] + [' '];
    } else {
      assert s[|s| - 1] == u[|u| - 1];
      if !IsSpace(u[|u| - 1]) {
        var cu := Collapse(u);
        assert [s[0]] + (cu + [' ']) == ([s[0]] + cu) + [' '];
      }
    }
  }

  /** A non-empty string of whitespace collapses to a single space. */
  lemma CollapseAllSpace(w: string)
    requires w != [] && AllSpace(w)
    ensures Collapse(w) == [' ']
  {
    var u := w[1..];
    assert u + [] == u;
    StripLeadingSkipsSpace(u, []);
  }

  lemma CollapseTrailingRunAllSpace(s: string, w: string)
    requires w != [] && AllSpace(w) && s != [] && AllSpace(s)
    ensures IsSpace(s[|s| - 1]) && Collapse(s + w) == Collapse(s)
  {
    assert AllSpace(s + w) by {
      forall i | 0 <= i < |s + w| ensures IsSpace((s + w)[i]) {
        if i < |s| {
          assert (s + w)[i] == s[i];
        } else {
          assert (s + w)[i] == w[i - |s|];
        }
      }
    }
    CollapseAllSpace(s + w);
    CollapseAllSpace(s);
  }

  lemma {:induction false} CollapseTrailingRunAfterSpace(s: string, w: string)
    requires w != [] && AllSpace(w) && s != [] && IsSpace(s[0]) && !AllSpace(s[1..])
    ensures !IsSpace(s[|s| - 1]) ==> Collapse(s + w) == Collapse(s) + [' ']
    ensures IsSpace(s[|s| - 1]) ==> Collapse(s + w) == Collapse(s)
    decreases |s|, 0
  {
    var v := StripLeading(s[1..]);
    CollapseSpaceThenText(s, w);
    var last := v[|v| - 1];
    assert last == s[|s| - 1];
    CollapseTrailingRun(v, w);
    var cv := Collapse(v);
    var cvw := Collapse(v + w);
    if !IsSpace(last) {
      assert cvw == cv + [' '];
      assert [' '] + (cv + [' ']) == ([' '] + cv) + [' '];
    } else {
      assert cvw == cv;
    }
  }

  /** One step of `Collapse` on `s` and on `s + w` when `s` starts with whitespace and contains text. */
  lemma CollapseSpaceThenText(s: string, w: string)
    requires w != [] && AllSpace(w) && s != [] && IsSpace(s[0]) && !AllSpace(s[1..])
    ensures var v := StripLeading(s[1..]);
      && v != [] && v[|v| - 1] == s[|s| - 1] && |v| < |s|
      && Collapse(s + w) == [' '] + Collapse(v + w)
      && Collapse(s) == [' '] + Collapse(v)
  {
    var v := StripLeading(s[1..]);
    TextAfterLeadingSpace(s);
    assert s + w + [] == s + w && v + w + [] == v + w;
    CollapseRunAfterHead(s, w, []);
  }

  lemma TextAfterLeadingSpace(s: string)
    requires s != [] && !AllSpace(s[1..])
    ensures var v := StripLeading(s[1..]); v != [] && v[|v| - 1] == s[|s| - 1]
  {
    var u := s[1..];
    StripLeadingKeepsLast(u);
    assert u[|u| - 1] == s[|s| - 1];
  }

  lemma StripIgnoresTrailingSpace(c: string)
    ensures Strip(c + [' ']) == Strip(c)
  {
    if AllSpace(c) {
      calc {
        StripLeading(c + [' ']);
        { StripLeadingSkipsSpace(c, [' ']); }
        StripLeading([' ']);
        [];
        StripLeading([]);
        { StripLeadingSkipsSpace(c, []); assert c + [] == c; }
        StripLeading(c);
      }
    } else {
      var k :| 0 <= k < |c| && !IsSpace(c[k]);
      var a := StripLeading(c);
      calc {
        Strip(c + [' ']);
        { StripLeadingStopsAtText(c, [' '], k); }
        StripTrailing(a + [' ']);
        { assert (a + [' '])[..|a|] == a; }
        StripTrailing(a);
      }
    }
  }

  /** Whitespace added before the start or after the end of the text is trimmed away. */
  lemma CleanTextIgnoresOuterSpace(w1: string, s: string, w2: string)
    requires AllSpace(w1) && AllSpace(w2)
    ensures CleanText(w1 + s + w2) == CleanText(s)
  {
    var t := s + w2;
    assert w1 + s + w2 == w1 + t;
    CollapseIgnoresLeadingSpace(w1, t);
    if w2 != [] {
      CollapseTrailingRun(s, w2);
      StripIgnoresTrailingSpace(Collapse(s));
    } else {
      assert t == s;
    }
  }

  // ---------------------------------------------------------------------------
  // Text written as single-spaced words

  /** Non-empty, single-spaced, and neither end is whitespace (capital letters allowed). */
  predicate Trimmed(s: string) {
    s != [] && SingleSpaced(s) && !IsSpace(s[0]) && !IsSpace(s[|s| - 1])
  }

  /** A word with no whitespace in it. */
  predicate IsWord(w: string) {
    w != [] && forall i :: 0 <= i < |w| ==> !IsSpace(w[i])
  }

  /** One space followed by a word. */
  predicate IsSpacedWord(b: string) {
    |b| >= 2 && b[0] == ' ' && IsWord(b[1..])
  }

  lemma WordIsTrimmed(w: string)
    requires IsWord(w)
    ensures Trimmed(w)
  {
    forall i | 0 <= i < |w| ensures SingleSpaceAt(w, i) {
      assert !IsSpace(w[i]);
    }
  }

  /** Appending a space and a word to trimmed text keeps it trimmed. */
  lemma TrimmedThenSpacedWord(a: string, b: string)
    requires Trimmed(a) && IsSpacedWord(b)
    ensures Trimmed(a + b)
  {
    var s := a + b;
    forall i | 0 <= i < |s| ensures SingleSpaceAt(s, i) {
      if i < |a| {
        assert s[i] == a[i];
        if i < |a| - 1 {
          assert SingleSpaceAt(a, i);
          assert s[i + 1] == a[i + 1];
        }
      } else if i == |a| {
        assert s[i + 1] == b[1..][0];
      } else {
        assert s[i] == b[1..][i - |a| - 1];
      }
    }
    assert s[|s| - 1] == b[1..][|b| - 2];
  }

  /** Lowercasing distributes over concatenation. */
  lemma LowerAppend(a: string, b: string)
    ensures Lower(a + b) == Lower(a) + Lower(b)
  {
  }

  /** Trimmed text only has its letters lowercased by `clean_text`. */
  lemma CleanTextOfTrimmed(s: string)
    requires Trimmed(s)
    ensures CleanText(s) == Lower(s)
  {
    CollapseFixesSingleSpaced(s);
    assert StripLeading(s) == s;
    assert StripTrailing(s) == s;
  }

  /** Four single-spaced words are only lowercased by `clean_text`. */
  lemma CleanTextOfFourWords(w1: string, w2: string, w3: string, w4: string)
    requires IsWord(w1) && IsSpacedWord(w2) && IsSpacedWord(w3) && IsSpacedWord(w4)
    ensures CleanText(w1 + w2 + w3 + w4) == Lower(w1) + Lower(w2) + Lower(w3) + Lower(w4)
  {
    WordIsTrimmed(w1);
    TrimmedThenSpacedWord(w1, w2);
    TrimmedThenSpacedWord(w1 + w2, w3);
    TrimmedThenSpacedWord(w1 + w2 + w3, w4);
    CleanTextOfTrimmed(w1 + w2 + w3 + w4);
    LowerAppend(w1 + w2 + w3, w4);
    LowerAppend(w1 + w2, w3);
    LowerAppend(w1, w2);
  }

  /** Five single-spaced words are only lowercased by `clean_text`. */
  lemma CleanTextOfFiveWords(w1: string, w2: string, w3: string, w4: string, w5: string)
    requires IsWord(w1) && IsSpacedWord(w2) && IsSpacedWord(w3) && IsSpacedWord(w4) && IsSpacedWord(w5)
    ensures CleanText(w1 + w2 + w3 + w4 + w5) == Lower(w1) + Lower(w2) + Lower(w3) + Lower(w4) + Lower(w5)
  {
    WordIsTrimmed(w1);
    TrimmedThenSpacedWord(w1, w2);
    TrimmedThenSpacedWord(w1 + w2, w3);
    TrimmedThenSpacedWord(w1 + w2 + w3, w4);
    TrimmedThenSpacedWord(w1 + w2 + w3 + w4, w5);
    CleanTextOfTrimmed(w1 + w2 + w3 + w4 + w5);
    LowerAppend(w1 + w2 + w3 + w4, w5);
    LowerAppend(w1 + w2 + w3, w4);
    LowerAppend(w1 + w2, w3);
    LowerAppend(w1, w2);
  }
}
