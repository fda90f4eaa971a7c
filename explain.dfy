/**
  What the app shows and logs for one scored résumé (app.py:110-117 and
  app.py:178-205): the explainability text, the top strengths and the
  matched-criteria summary of the audit row.
 */
module Explain {
  import opened Seqs
  import opened Strings
  import opened Scoring

  // ---------------------------------------------------------------------------
  // Explainability

  /**
    One bullet line. A matched criterion shows its keywords and its weight as Python
    prints a whole-number float (`30.0`); an unmatched one shows a literal `+0`.
   */
  function Line(d: Detail): string {
    if HasMatch(d) then
      "\U{2022} " + d.criterion + ": matched " + Join(d.matched, ", ") + " (+" + NatText(d.weight) + ".0)"
    else
      "\U{2022} " + d.criterion + ": no match (+0)"
  }

  /** One line per detail, in order. */
  function Lines(ds: seq<Detail>): seq<string> {
    seq(|ds|, i requires 0 <= i < |ds| => Line(ds[i]))
  }

  /** `explainability(details)`: the lines joined by newlines. */
  method Explainability(details: seq<Detail>) returns (r: string)
    ensures r == Join(Lines(details), "\n")
    ensures details == [] ==> r == ""
  {
    var lines: seq<string> := [];
    var i := 0;
    while i < |details|
      invariant 0 <= i <= |details|
      invariant lines == Lines(details[..i])
    {
      var d := details[i];
      if d.matched != [] {
        lines := lines + ["\U{2022} " + d.criterion + ": matched " + Join(d.matched, ", ") + " (+" + NatText(d.weight) + ".0)"];
      } else {
        lines := lines + ["\U{2022} " + d.criterion + ": no match (+0)"];
      }
      i := i + 1;
      assert lines == Lines(details[..i]) by {
        assert forall j :: 0 <= j < i ==> details[..i][j] == details[j];
      }
    }
    assert details[..i] == details;
    r := Join(lines, "\n");
  }

  /** No criterion name or keyword contains a line break. */
  predicate SingleLineDetails(ds: seq<Detail>) {
    forall i :: 0 <= i < |ds| ==>
      '\n' !in ds[i].criterion && forall j :: 0 <= j < |ds[i].matched| ==> '\n' !in ds[i].matched[j]
  }

  lemma LineIsSingleLine(d: Detail)
    requires '\n' !in d.criterion
    requires forall j :: 0 <= j < |d.matched| ==> '\n' !in d.matched[j]
    ensures '\n' !in Line(d)
  {
    JoinAvoids(d.matched, ", ", '\n');
  }

  /**
    When no name or keyword contains a line break, the explanation has exactly one
    line per detail, in the order of the details.
   */
  lemma ExplanationHasOneLinePerDetail(ds: seq<Detail>)
    requires ds != [] && SingleLineDetails(ds)
    ensures Split(Join(Lines(ds), "\n"), '\n') == Lines(ds)
  {
    forall i | 0 <= i < |ds| ensures '\n' !in Lines(ds)[i] {
      LineIsSingleLine(ds[i]);
    }
    SplitJoin(Lines(ds), '\n');
  }

  // ---------------------------------------------------------------------------
  // Reading the awarded points back from a line

  /** The text after the last occurrence of `c` (all of `s` if there is none). */
  function AfterLast(s: string, c: char): (r: string)
    ensures c !in r
  {
    if s == [] then []
    else if s[|s| - 1] == c then []
    else AfterLast(s[..|s| - 1], c) + [s[|s| - 1]]
  }

  function IsDigit(c: char): bool {
    '0' <= c <= '9'
  }

  /** The longest prefix of `s` made of decimal digits. */
  function LeadingDigits(s: string): (r: string)
    ensures forall i :: 0 <= i < |r| ==> '0' <= r[i] <= '9'
  {
    if s == [] || !IsDigit(s[0]) then [] else [s[0]] + LeadingDigits(s[1..])
  }

  /** The number printed after the last `+` of a line. */
  function ReportedAward(line: string): nat {
    ParseNat(LeadingDigits(AfterLast(line, '+')))
  }

  /** The points the lines report, added up. */
  function ReportedTotal(lines: seq<string>): nat {
    if lines == [] then 0 else ReportedTotal(lines[..|lines| - 1]) + ReportedAward(lines[|lines| - 1])
  }

  lemma {:induction false} AfterLastOf(a: string, b: string, c: char)
    requires c !in b
    ensures AfterLast(a + [c] + b, c) == b
    decreases |b|
  {
    var s := a + [c] + b;
    if b == [] {
      assert s[|s| - 1] == c;
    } else {
      var b' := b[..|b| - 1];
      assert s[..|s| - 1] == a + [c] + b';
      assert s[|s| - 1] == b[|b| - 1];
      AfterLastOf(a, b', c);
      assert b' + [b[|b| - 1]] == b;
    }
  }

  lemma {:induction false} LeadingDigitsOf(digits: string, rest: string)
    requires forall i :: 0 <= i < |digits| ==> '0' <= digits[i] <= '9'
    requires rest == [] || !IsDigit(rest[0])
    ensures LeadingDigits(digits + rest) == digits
    decreases |digits|
  {
    if digits == [] {
      assert digits + rest == rest;
    } else {
      assert (digits + rest)[1..] == digits[1..] + rest;
      LeadingDigitsOf(digits[1..], rest);
      assert [digits[0]] + digits[1..] == digits;
    }
  }

  /** The number a line prints after `(+` is exactly what the criterion added to the total. */
  lemma LineReportsAward(d: Detail)
    ensures ReportedAward(Line(d)) == Award(d)
  {
    var head := "\U{2022} " + d.criterion;
    var n := if HasMatch(d) then d.weight else 0;
    var tail := if HasMatch(d) then ".0)" else ")";
    var prefix :=
      if HasMatch(d) then head + ": matched " + Join(d.matched, ", ") + " (" else head + ": no match (";
    assert NatText(0) == "0";
    assert Line(d) == prefix + ['+'] + (NatText(n) + tail);
    assert '+' !in NatText(n) + tail by {
      assert forall i :: 0 <= i < |NatText(n)| ==> NatText(n)[i] != '+';
    }
    AfterLastOf(prefix, NatText(n) + tail, '+');
    LeadingDigitsOf(NatText(n), tail);
    ParseNatText(n);
  }

  /** The points shown in the explanation add up to the fit score. */
  lemma {:induction false} ExplanationAddsUp(ds: seq<Detail>)
    ensures ReportedTotal(Lines(ds)) == Score(ds)
  {
    if ds != [] {
      var init := ds[..|ds| - 1];
      assert Lines(ds)[..|ds| - 1] == Lines(init);
      ExplanationAddsUp(init);
      LineReportsAward(ds[|ds| - 1]);
    }
  }

  // ---------------------------------------------------------------------------
  // Top strengths

  /** `[d["criterion"] for d in details if d["matched"]]` */
  function MatchedNames(ds: seq<Detail>): seq<string> {
    var m := MatchedCriteria(ds);
    seq(|m|, i requires 0 <= i < |m| => m[i].criterion)
  }

  /**
    `[...][:2] or ["service mindset"]`: one strength per matched criterion, at most two,
    and the single fallback label when nothing matched.
   */
  function TopStrengths(ds: seq<Detail>): (r: seq<string>)
    ensures 1 <= |r| <= 2
    ensures var n := |MatchedCriteria(ds)|; n != 0 ==> |r| == (if n < 2 then n else 2)
  {
    var names := MatchedNames(ds);
    if names == [] then ["service mindset"] else names[..if |names| < 2 then |names| else 2]
  }

  /** With no matched criterion the strengths fall back to the single label "service mindset". */
  lemma TopStrengthsFallback(ds: seq<Detail>)
    requires forall i :: 0 <= i < |ds| ==> ds[i].matched == []
    ensures TopStrengths(ds) == ["service mindset"]
  {
    FilterNone(ds, HasMatch);
  }

  /**
    The first and the second matched criteria, in the order of the details, are the
    strengths: a matched detail preceded by `k < 2` matched details is strength number `k`.
   */
  lemma TopStrengthsAreFirstMatched(ds: seq<Detail>, i: nat)
    requires i < |ds| && HasMatch(ds[i])
    requires |MatchedCriteria(ds[..i])| < 2
    ensures |MatchedCriteria(ds[..i])| < |TopStrengths(ds)|
    ensures TopStrengths(ds)[|MatchedCriteria(ds[..i])|] == ds[i].criterion
  {
    var before, after := ds[..i], ds[i + 1..];
    assert ds == before + ([ds[i]] + after);
    FilterAppend(before, [ds[i]] + after, HasMatch);
    FilterAppend([ds[i]], after, HasMatch);
    var k := |MatchedCriteria(before)|;
    assert MatchedCriteria(ds)[k] == ds[i];
  }

  // ---------------------------------------------------------------------------
  // Matched-criteria summary of the audit row

  /** `f"{d['criterion']} ({', '.join(d['matched'])})"` */
  function SummaryEntry(d: Detail): string {
    d.criterion + " (" + Join(d.matched, ", ") + ")"
  }

  /** One entry per matched criterion, in order. */
  function SummaryEntries(ds: seq<Detail>): seq<string> {
    var m := MatchedCriteria(ds);
    seq(|m|, i requires 0 <= i < |m| => SummaryEntry(m[i]))
  }

  /** `"; ".join(matched) if matched else "None"` */
  function Summary(ds: seq<Detail>): string {
    var entries := SummaryEntries(ds);
    if entries == [] then "None" else Join(entries, "; ")
  }

  lemma SummaryEntriesSnoc(ds: seq<Detail>, d: Detail)
    ensures SummaryEntries(ds + [d]) == SummaryEntries(ds) + (if HasMatch(d) then [SummaryEntry(d)] else [])
  {
    FilterSnoc(ds, d, HasMatch);
  }

  /** The summary loop and the string it leaves in the audit row. */
  method MatchedSummary(details: seq<Detail>) returns (s: string)
    ensures s == Summary(details)
  {
    var matched: seq<string> := [];
    var i := 0;
    while i < |details|
      invariant 0 <= i <= |details|
      invariant matched == SummaryEntries(details[..i])
    {
      var d := details[i];
      assert details[..i + 1] == details[..i] + [d];
      SummaryEntriesSnoc(details[..i], d);
      if d.matched != [] {
        matched := matched + [d.criterion + " (" + Join(d.matched, ", ") + ")"];
      }
      i := i + 1;
    }
    assert details[..i] == details;
    s := if matched != [] then Join(matched, "; ") else "None";
  }

  /** The summary is "None" exactly when no criterion matched. */
  lemma SummaryNoneIffNothingMatched(ds: seq<Detail>)
    ensures Summary(ds) == "None" <==> MatchedCriteria(ds) == []
  {
    var entries := SummaryEntries(ds);
    if entries != [] {
      var e := entries[0];
      assert e[|MatchedCriteria(ds)[0].criterion| + 1] == '(';
      assert e <= Summary(ds);
      assert '(' in Summary(ds);
    }
  }

  /**
    When no name or keyword contains ';', splitting the summary on ';' gives one piece
    per matched criterion, in order: its name and keywords (after the space that
    follows each ';').
   */
  lemma SummaryListsMatched(ds: seq<Detail>)
    requires MatchedCriteria(ds) != []
    requires forall i :: 0 <= i < |ds| ==>
      ';' !in ds[i].criterion && forall j :: 0 <= j < |ds[i].matched| ==> ';' !in ds[i].matched[j]
    ensures |Split(Summary(ds), ';')| == |MatchedCriteria(ds)|
    ensures Split(Summary(ds), ';')[0] == SummaryEntry(MatchedCriteria(ds)[0])
    ensures forall i :: 1 <= i < |MatchedCriteria(ds)| ==>
      Split(Summary(ds), ';')[i] == " " + SummaryEntry(MatchedCriteria(ds)[i])
  {
    var m := MatchedCriteria(ds);
    var entries := SummaryEntries(ds);
    forall i | 0 <= i < |entries| ensures ';' !in entries[i] {
      assert m[i] in ds;
      JoinAvoids(m[i].matched, ", ", ';');
    }
    assert "; " == [';'] + " ";
    SplitJoinPadded(entries, ';', " ");
  }
}
