/**
  The keyword scorer `keyword_score` (app.py:97-108). Each criterion is a
  name, a weight and a list of keywords; a criterion is awarded its full
  weight when at least one of its keywords, lowercased, occurs in the
  cleaned résumé text, and nothing otherwise. The result is the total and
  one detail record per criterion, in input order.

  Weights are whole numbers (the form bounds each one to 0..100 in steps of
  1), so `float(...)` and `round(total, 2)` change nothing and are left out.
 */
module Scoring {
  import opened Seqs
  import opened Strings
  import opened Normalize

  datatype Option<T> = None | Some(value: T)

  /**
    A criterion as the dictionary the form builds. "weight" and "keywords" are read
    with `.get`, so either may be missing; "name" is always read with `[]`.
   */
  datatype Criterion = Criterion(name: string, weight: Option<nat>, keywords: Option<seq<string>>)

  /** `c.get("weight", 0)` */
  function WeightOf(c: Criterion): nat {
    if c.weight.Some? then c.weight.value else 0
  }

  /** `c.get("keywords", [])` */
  function KeywordsOf(c: Criterion): seq<string> {
    if c.keywords.Some? then c.keywords.value else []
  }

  /** One entry of `details`: the criterion's name, its weight and the keywords found. */
  datatype Detail = Detail(criterion: string, weight: nat, matched: seq<string>)

  /** `k.lower() in text_l` */
  predicate Hits(clean: string, k: string) {
    Contains(clean, Lower(k))
  }

  /** The keyword test as a value, for the comprehension's filter. */
  function HitIn(clean: string): string -> bool {
    k => Hits(clean, k)
  }

  /** `[k for k in kws if k.lower() in text_l]` */
  function Matched(clean: string, kws: seq<string>): seq<string> {
    Filter(kws, HitIn(clean))
  }

  /** The detail record built for one criterion. */
  function DetailOf(clean: string, c: Criterion): Detail {
    Detail(c.name, WeightOf(c), Matched(clean, KeywordsOf(c)))
  }

  /** The whole `details` list: one record per criterion, in input order. */
  function Details(clean: string, cs: seq<Criterion>): seq<Detail> {
    seq(|cs|, i requires 0 <= i < |cs| => DetailOf(clean, cs[i]))
  }

  predicate HasMatch(d: Detail) {
    d.matched != []
  }

  /** `part_score = weight if matched else 0.0` */
  function Award(d: Detail): nat {
    if HasMatch(d) then d.weight else 0
  }

  /** The running `total` after the given details: the awards added up in order. */
  function Score(ds: seq<Detail>): nat {
    if ds == [] then 0 else Score(ds[..|ds| - 1]) + Award(ds[|ds| - 1])
  }

  /** The details whose `matched` list is non-empty, in order. */
  function MatchedCriteria(ds: seq<Detail>): seq<Detail> {
    Filter(ds, HasMatch)
  }

  /** The sum of the weights of the given details. */
  function SumWeights(ds: seq<Detail>): nat {
    if ds == [] then 0 else ds[0].weight + SumWeights(ds[1..])
  }

  /** The sum of the weights of all criteria (the form shows it as "Total weight"). */
  function TotalWeight(cs: seq<Criterion>): nat {
    if cs == [] then 0 else WeightOf(cs[0]) + TotalWeight(cs[1..])
  }

  /**
    `keyword_score(text, criteria)`: one detail per criterion, in input order, each
    holding that criterion's name, weight and matched keywords, and the total of the
    awarded weights. No criteria give a total of 0 and no details.
   */
  method KeywordScore(text: string, criteria: seq<Criterion>) returns (total: nat, details: seq<Detail>)
    ensures details == Details(CleanText(text), criteria)
    ensures |details| == |criteria|
    ensures forall i :: 0 <= i < |criteria| ==>
      details[i] == Detail(criteria[i].name, WeightOf(criteria[i]), Matched(CleanText(text), KeywordsOf(criteria[i])))
    ensures total == Score(details) == SumWeights(MatchedCriteria(details))
    ensures total <= TotalWeight(criteria)
  {
    var textL := CleanText(text);
    total := 0;
    details := [];
    var i := 0;
    while i < |criteria|
      invariant 0 <= i <= |criteria|
      invariant details == Details(textL, criteria[..i])
      invariant total == Score(details)
    {
      var c := criteria[i];
      var weight := WeightOf(c);
      var kws := KeywordsOf(c);
      var matched := Matched(textL, kws);
      var partScore := if matched != [] then weight else 0;
      total := total + partScore;
      var d := Detail(c.name, weight, matched);
      assert (details + [d])[..|details|] == details;
      details := details + [d];
      i := i + 1;
      assert details == Details(textL, criteria[..i]) by {
        assert forall j :: 0 <= j < i ==> criteria[..i][j] == criteria[j];
      }
    }
    assert criteria[..i] == criteria;
    ScoreIsMatchedWeight(details);
    ScoreBounded(text, criteria);
  }

  // ---------------------------------------------------------------------------
  // Which keywords match

  /**
    The matched list is exactly the keywords whose lowercase form occurs in the
    cleaned text: a subsequence of the keywords, keeping each such keyword as often
    as it is listed, in order, and dropping every other.
   */
  lemma MatchedIsExactSubsequence(clean: string, kws: seq<string>)
    ensures IsSubsequence(Matched(clean, kws), kws)
    ensures forall k :: multiset(Matched(clean, kws))[k] == (if Hits(clean, k) then multiset(kws)[k] else 0)
  {
    FilterIsExactSubsequence(kws, HitIn(clean));
  }

  /** A keyword is matched exactly when it is listed and its lowercase form occurs at some position of the text. */
  lemma MatchedMeansOccurs(clean: string, kws: seq<string>, k: string)
    ensures k in Matched(clean, kws) <==> k in kws && exists i :: OccursAt(clean, Lower(k), i)
  {
    ContainsIffOccurs(clean, Lower(k));
  }

  /** An empty keyword is found in every text, so its criterion is always awarded. */
  lemma EmptyKeywordAlwaysMatches(text: string, c: Criterion)
    requires "" in KeywordsOf(c)
    ensures "" in DetailOf(CleanText(text), c).matched
    ensures Award(DetailOf(CleanText(text), c)) == WeightOf(c)
  {
    ContainsEmpty(CleanText(text), "");
    assert Lower("") == "";
  }

  // ---------------------------------------------------------------------------
  // The total

  lemma {:induction false} SumWeightsAppend(a: seq<Detail>, b: seq<Detail>)
    ensures SumWeights(a + b) == SumWeights(a) + SumWeights(b)
  {
    if a != [] {
      assert (a + b)[1..] == a[1..] + b;
      SumWeightsAppend(a[1..], b);
    } else {
      assert a + b == b;
    }
  }

  /** The total is the sum of the weights of the criteria that matched. */
  lemma {:induction false} ScoreIsMatchedWeight(ds: seq<Detail>)
    ensures Score(ds) == SumWeights(MatchedCriteria(ds))
  {
    if ds != [] {
      var init, last := ds[..|ds| - 1], ds[|ds| - 1];
      assert ds == init + [last];
      ScoreIsMatchedWeight(init);
      FilterSnoc(init, last, HasMatch);
      var tail := if HasMatch(last) then [last] else [];
      SumWeightsAppend(MatchedCriteria(init), tail);
      assert SumWeights(tail) == Award(last) by {
        if HasMatch(last) {
          assert tail[1..] == [];
        }
      }
    }
  }

  /** The total never exceeds the sum of the weights of the given details. */
  lemma {:induction false} ScoreAtMostSumWeights(ds: seq<Detail>)
    ensures Score(ds) <= SumWeights(ds)
  {
    if ds != [] {
      var init, last := ds[..|ds| - 1], ds[|ds| - 1];
      assert ds == init + [last];
      ScoreAtMostSumWeights(init);
      SumWeightsAppend(init, [last]);
      assert SumWeights([last]) == last.weight;
    }
  }

  lemma {:induction false} DetailsCarryWeights(clean: string, cs: seq<Criterion>)
    ensures SumWeights(Details(clean, cs)) == TotalWeight(cs)
  {
    if cs != [] {
      DetailsCarryWeights(clean, cs[1..]);
      assert Details(clean, cs)[1..] == Details(clean, cs[1..]);
    }
  }

  /** 0 <= total <= sum of all criterion weights. */
  lemma ScoreBounded(text: string, cs: seq<Criterion>)
    ensures 0 <= Score(Details(CleanText(text), cs)) <= TotalWeight(cs)
  {
    ScoreAtMostSumWeights(Details(CleanText(text), cs));
    DetailsCarryWeights(CleanText(text), cs);
  }

  /** The total is not capped at 100: two matched criteria weighing 60 and 70 score 130. */
  lemma ScoreIsNotClamped()
    ensures Score(Details("a b", [
      Criterion("first", Some(60), Some(["a"])),
      Criterion("second", Some(70), Some(["b"]))])) == 130
  {
    var cs := [Criterion("first", Some(60), Some(["a"])), Criterion("second", Some(70), Some(["b"]))];
    var ds := Details("a b", cs);
    assert Lower("a") == "a" && Lower("b") == "b";
    assert OccursAt("a b", "a", 0) && OccursAt("a b", "b", 2);
    ContainsIffOccurs("a b", "a");
    ContainsIffOccurs("a b", "b");
    assert ds[0].matched == ["a"] && ds[1].matched == ["b"];
    assert ds[..1][..0] == [];
  }

  // ---------------------------------------------------------------------------
  // Empty text

  /** A keyword with a character the text lacks is not found in it. */
  lemma {:induction false} ContainsNeedsChars(s: string, p: string, c: char)
    requires c in p && c !in s
    ensures !Contains(s, p)
    decreases |s|
  {
    if s != [] {
      ContainsNeedsChars(s[1..], p, c);
    }
  }

  /**
    Empty or whitespace-only text matches no non-empty keyword: every `matched` list is
    empty and the total is 0.
   */
  lemma BlankTextScoresZero(text: string, cs: seq<Criterion>)
    requires AllSpace(text)
    requires forall i, k :: 0 <= i < |cs| && k in KeywordsOf(cs[i]) ==> k != ""
    ensures forall d :: d in Details(CleanText(text), cs) ==> d.matched == []
    ensures Score(Details(CleanText(text), cs)) == 0
  {
    CleanTextIsClean(text);
    var clean := CleanText(text);
    var ds := Details(clean, cs);
    forall i | 0 <= i < |cs| ensures ds[i].matched == [] {
      var kws := KeywordsOf(cs[i]);
      forall k | k in kws ensures !HitIn(clean)(k) {
        assert |Lower(k)| == |k|;
        ContainsEmpty(clean, Lower(k));
      }
      FilterNone(kws, HitIn(clean));
    }
    FilterNone(ds, HasMatch);
    ScoreIsMatchedWeight(ds);
  }

  // ---------------------------------------------------------------------------
  // Only the cleaned text is searched

  /** Changing the letter case of the text changes no detail and not the total. */
  lemma ScoreIgnoresCase(text1: string, text2: string, cs: seq<Criterion>)
    requires SameUpToCase(text1, text2)
    ensures Details(CleanText(text1), cs) == Details(CleanText(text2), cs)
  {
    CleanTextIgnoresCase(text1, text2);
  }

  /** Lengthening or shortening a whitespace run in the text changes no detail. */
  lemma ScoreIgnoresRunLength(x: string, w1: string, w2: string, y: string, cs: seq<Criterion>)
    requires w1 != [] && AllSpace(w1) && w2 != [] && AllSpace(w2)
    ensures Details(CleanText(x + w1 + y), cs) == Details(CleanText(x + w2 + y), cs)
  {
    CleanTextIgnoresRunLength(x, w1, w2, y);
  }

  /** Whitespace added at either end of the text changes no detail. */
  lemma ScoreIgnoresOuterSpace(w1: string, text: string, w2: string, cs: seq<Criterion>)
    requires AllSpace(w1) && AllSpace(w2)
    ensures Details(CleanText(w1 + text + w2), cs) == Details(CleanText(text), cs)
  {
    CleanTextIgnoresOuterSpace(w1, text, w2);
  }

  // ---------------------------------------------------------------------------
  // Worked examples

  lemma HospitalityWords()
    ensures IsWord("Experienced") && IsSpacedWord(" in")
    ensures IsSpacedWord(" hospitality") && IsSpacedWord(" services")
  {
    assert " hospitality"[1..] == "hospitality";
    assert " services"[1..] == "services";
  }

  lemma HospitalityWordsLowered()
    ensures Lower("Experienced") == "experienced" && Lower(" in") == " in"
    ensures Lower(" hospitality") == " hospitality" && Lower(" services") == " services"
  {
  }

  /** Cleaning "Experienced in hospitality services" only lowercases it. */
  lemma HospitalityTextCleans()
    ensures CleanText("Experienced" + " in" + " hospitality" + " services")
      == "experienced" + " in" + " hospitality" + " services"
  {
    HospitalityWords();
    HospitalityWordsLowered();
    CleanTextOfFourWords("Experienced", " in", " hospitality", " services");
  }

  /** The cleaned text contains "hospitality" but not "customer empathy". */
  lemma HospitalityKeywords()
    ensures var clean := "experienced" + " in" + " hospitality" + " services";
      !Contains(clean, Lower("customer empathy")) && Contains(clean, Lower("hospitality"))
  {
    var head, k, tail := "experienced" + " in", " hospitality", " services";
    assert 'u' !in head && 'u' !in k && 'u' !in tail;
    assert Lower("customer empathy")[1] == 'u';
    ContainsNeedsChars(head + k + tail, Lower("customer empathy"), 'u');
    assert Lower("hospitality") == "hospitality" == k[1..];
    ContainsWithin(head, k, tail, "hospitality", 1);
  }

  /** "Experienced in hospitality services" matches the keyword "hospitality" only, and scores 30. */
  lemma HospitalityExample()
    ensures var ds := Details(CleanText("Experienced" + " in" + " hospitality" + " services"),
      [Criterion("Customer Empathy", Some(30), Some(["customer empathy", "hospitality"]))]);
      ds[0].matched == ["hospitality"] && Score(ds) == 30
  {
    HospitalityTextCleans();
    HospitalityKeywords();
    var clean := "experienced" + " in" + " hospitality" + " services";
    var ds := Details(clean, [Criterion("Customer Empathy", Some(30), Some(["customer empathy", "hospitality"]))]);
    assert ds[..0] == [];
  }

  lemma FluentWords()
    ensures IsWord("Fluent") && IsSpacedWord(" in") && IsSpacedWord(" French")
    ensures IsSpacedWord(" and") && IsSpacedWord(" English")
  {
    assert " French"[1..] == "French";
    assert " English"[1..] == "English";
  }

  lemma FluentWordsLowered()
    ensures Lower("Fluent") == "fluent" && Lower(" in") == " in" && Lower(" French") == " french"
    ensures Lower(" and") == " and" && Lower(" English") == " english"
  {
  }

  /** Cleaning "Fluent in French and English" only lowercases it. */
  lemma FluentTextCleans()
    ensures CleanText("Fluent" + " in" + " French" + " and" + " English")
      == "fluent" + " in" + " french" + " and" + " english"
  {
    FluentWords();
    FluentWordsLowered();
    CleanTextOfFiveWords("Fluent", " in", " French", " and", " English");
  }

  /** The cleaned text contains neither "arabic" nor "bilingual": it has no 'b'. */
  lemma FluentKeywords()
    ensures var clean := "fluent" + " in" + " french" + " and" + " english";
      !Contains(clean, Lower("arabic")) && !Contains(clean, Lower("bilingual"))
  {
    var clean := "fluent" + " in" + " french" + " and" + " english";
    assert 'b' !in "fluent" && 'b' !in " in" && 'b' !in " french" && 'b' !in " and" && 'b' !in " english";
    assert Lower("arabic")[3] == 'b' && Lower("bilingual")[0] == 'b';
    ContainsNeedsChars(clean, Lower("arabic"), 'b');
    ContainsNeedsChars(clean, Lower("bilingual"), 'b');
  }

  /** "Fluent in French and English" matches neither "arabic" nor "bilingual", and scores 0. */
  lemma NoArabicExample()
    ensures var ds := Details(CleanText("Fluent" + " in" + " French" + " and" + " English"),
      [Criterion("Arabic", Some(20), Some(["arabic", "bilingual"]))]);
      ds[0].matched == [] && Score(ds) == 0
  {
    FluentTextCleans();
    FluentKeywords();
    var clean := "fluent" + " in" + " french" + " and" + " english";
    var ds := Details(clean, [Criterion("Arabic", Some(20), Some(["arabic", "bilingual"]))]);
    assert ds[..0] == [];
  }
}
