/**
  The Python string built-ins the scorer relies on: substring search
  (`p in s`), `sep.join(parts)`, `s.split(c)` and the decimal text of a
  whole number.
 */
module Strings {

  /** Python's `p in s`: `p` occurs somewhere in `s` (the empty string occurs everywhere). */
  predicate Contains(s: string, p: string)
    decreases |s|
  {
    p <= s || (s != [] && Contains(s[1..], p))
  }

  /** `p` occurs in `s` starting at index `i`. */
  ghost predicate OccursAt(s: string, p: string, i: int) {
    0 <= i && i + |p| <= |s| && s[i..i + |p|] == p
  }

  /** The search agrees with the positional definition of a substring, in both directions. */
  lemma {:induction false} ContainsIffOccurs(s: string, p: string)
    ensures Contains(s, p) <==> exists i :: OccursAt(s, p, i)
    decreases |s|
  {
    if p <= s {
      assert OccursAt(s, p, 0);
    } else if s == [] {
      assert forall i :: !OccursAt(s, p, i);
    } else {
      ContainsIffOccurs(s[1..], p);
      if Contains(s[1..], p) {
        var i :| OccursAt(s[1..], p, i);
        assert s[i + 1..i + 1 + |p|] == s[1..][i..i + |p|];
        assert OccursAt(s, p, i + 1);
      }
      forall i | OccursAt(s, p, i) ensures OccursAt(s[1..], p, i - 1) {
        assert s[1..][i - 1..i - 1 + |p|] == s[i..i + |p|];
      }
    }
  }

  /** The empty string is found in every string; nothing else is found in the empty string. */
  lemma ContainsEmpty(s: string, p: string)
    ensures Contains(s, "")
    ensures Contains("", p) <==> p == ""
  {
  }

  /** A piece of the middle part of `x + b + y` is found in the whole string. */
  lemma ContainsWithin(x: string, b: string, y: string, p: string, i: nat)
    requires i + |p| <= |b| && b[i..i + |p|] == p
    ensures Contains(x + b + y, p)
  {
    var s := x + b + y;
    var j := |x| + i;
    assert s[j..j + |p|] == p by {
      forall k | 0 <= k < |p| ensures s[j..j + |p|][k] == p[k] {
        assert s[j + k] == b[i + k];
        assert p[k] == b[i..i + |p|][k];
      }
    }
    assert OccursAt(s, p, j);
    ContainsIffOccurs(s, p);
  }

  /** Python's `sep.join(parts)`. */
  function Join(parts: seq<string>, sep: string): (r: string)
    ensures parts != [] ==> parts[0] <= r
    ensures parts == [] ==> r == ""
  {
    if parts == [] then ""
    else if |parts| == 1 then parts[0]
    else parts[0] + sep + Join(parts[1..], sep)
  }

  /** Python's `s.split(c)` for a one-character separator: always at least one piece. */
  function Split(s: string, c: char): (r: seq<string>)
    ensures |r| >= 1
    ensures forall i :: 0 <= i < |r| ==> c !in r[i]
    decreases |s|
  {
    if s == [] then [""]
    else
      var rest := Split(s[1..], c);
      if s[0] == c then [""] + rest else [[s[0]] + rest[0]] + rest[1..]
  }

  lemma {:induction false} SplitWithoutSeparator(a: string, c: char)
    requires c !in a
    ensures Split(a, c) == [a]
    decreases |a|
  {
    if a != [] {
      SplitWithoutSeparator(a[1..], c);
      assert [a[0]] + a[1..] == a;
    }
  }

  lemma {:induction false} SplitAtFirstSeparator(a: string, b: string, c: char)
    requires c !in a
    ensures Split(a + [c] + b, c) == [a] + Split(b, c)
    decreases |a|
  {
    if a == [] {
      assert a + [c] + b == [c] + b;
      assert ([c] + b)[1..] == b;
    } else {
      SplitAtFirstSeparator(a[1..], b, c);
      assert (a + [c] + b)[1..] == a[1..] + [c] + b;
      assert [a[0]] + a[1..] == a;
    }
  }

  /** Splitting `t + x`, where `t` has no separator, glues `t` onto the first piece of `x`. */
  lemma {:induction false} SplitPrefix(t: string, x: string, c: char)
    requires c !in t
    ensures Split(t + x, c) == [t + Split(x, c)[0]] + Split(x, c)[1..]
    decreases |t|
  {
    if t == [] {
      assert t + x == x && t + Split(x, c)[0] == Split(x, c)[0];
      assert [Split(x, c)[0]] + Split(x, c)[1..] == Split(x, c);
    } else {
      var rest := Split(t[1..] + x, c);
      assert (t + x)[0] == t[0] && (t + x)[1..] == t[1..] + x;
      SplitPrefix(t[1..], x, c);
      assert [t[0]] + (t[1..] + Split(x, c)[0]) == t + Split(x, c)[0];
    }
  }

  /**
    Splitting a text joined with a separator that starts with `c` (and has no other `c`)
    gives one piece per part, in order, provided no part contains `c`: the first part
    as it is, every later one with the rest `t` of the separator in front.
   */
  lemma {:induction false} SplitJoinPadded(parts: seq<string>, c: char, t: string)
    requires parts != [] && c !in t
    requires forall i :: 0 <= i < |parts| ==> c !in parts[i]
    ensures |Split(Join(parts, [c] + t), c)| == |parts|
    ensures Split(Join(parts, [c] + t), c)[0] == parts[0]
    ensures forall i :: 1 <= i < |parts| ==> Split(Join(parts, [c] + t), c)[i] == t + parts[i]
    decreases |parts|
  {
    if |parts| == 1 {
      SplitWithoutSeparator(parts[0], c);
    } else {
      var sep := [c] + t;
      var tail := Join(parts[1..], sep);
      SplitJoinPadded(parts[1..], c, t);
      assert Join(parts, sep) == parts[0] + [c] + (t + tail);
      SplitAtFirstSeparator(parts[0], t + tail, c);
      SplitPrefix(t, tail, c);
      var rest := Split(tail, c);
      var r := Split(Join(parts, sep), c);
      assert r == [parts[0]] + ([t + rest[0]] + rest[1..]);
      forall i | 1 <= i < |parts| ensures r[i] == t + parts[i] {
        if i == 1 {
          assert r[1] == t + rest[0];
        } else {
          assert r[i] == rest[i - 1] == t + parts[1..][i - 1];
        }
      }
    }
  }

  /**
    Splitting a joined text on the separator gives the pieces back, provided no piece
    contains the separator: one piece per element, in order.
   */
  lemma SplitJoin(parts: seq<string>, c: char)
    requires parts != []
    requires forall i :: 0 <= i < |parts| ==> c !in parts[i]
    ensures Split(Join(parts, [c]), c) == parts
  {
    assert [c] + "" == [c];
    SplitJoinPadded(parts, c, "");
    var r := Split(Join(parts, [c]), c);
    forall i | 1 <= i < |parts| ensures r[i] == parts[i] {
      assert "" + parts[i] == parts[i];
    }
  }

  /** A character that is in no part and not in the separator is not in the joined text. */
  lemma {:induction false} JoinAvoids(parts: seq<string>, sep: string, c: char)
    requires c !in sep
    requires forall i :: 0 <= i < |parts| ==> c !in parts[i]
    ensures c !in Join(parts, sep)
  {
    if |parts| > 1 {
      JoinAvoids(parts[1..], sep, c);
    }
  }

  function DigitChar(d: nat): (c: char)
    requires d < 10
    ensures '0' <= c <= '9'
  {
    ('0' as int + d) as char
  }

  /** Python's `str(n)` for a whole number: its decimal digits, most significant first. */
  function NatText(n: nat): (r: string)
    ensures |r| >= 1
    ensures forall i :: 0 <= i < |r| ==> '0' <= r[i] <= '9'
  {
    if n < 10 then [DigitChar(n)] else NatText(n / 10) + [DigitChar(n % 10)]
  }

  /** The value of a string of decimal digits (Python's `int(s)`). */
  function ParseNat(s: string): nat
    requires forall i :: 0 <= i < |s| ==> '0' <= s[i] <= '9'
  {
    if s == [] then 0 else 10 * ParseNat(s[..|s| - 1]) + (s[|s| - 1] as int - '0' as int)
  }

  /** Reading back the decimal text of `n` gives `n`. */
  lemma {:induction false} ParseNatText(n: nat)
    ensures ParseNat(NatText(n)) == n
  {
    if n >= 10 {
      ParseNatText(n / 10);
      var t := NatText(n);
      assert t[..|t| - 1] == NatText(n / 10);
    }
  }
}
