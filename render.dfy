/**
  The pure part of `render_candidate_result` (app.py:178-207): score the
  text, render the explanation, pick the top strengths, fill the concierge
  script and build the audit-log row. Display, the generated id, the
  timestamps and the criteria-weights text of the row are not modelled.
 */
module Render {
  import opened Normalize
  import opened Strings
  import opened Scoring
  import opened Explain
  import opened Concierge

  /** The modelled fields of the audit-log row. */
  datatype AuditRow = AuditRow(
    candidateName: string,
    isEmirati: bool,
    roleTitle: string,
    fitScore: nat,
    matchedCriteria: string)

  /** What one call computes: the fit score, the explanation, the script and the row it logs. */
  datatype CandidateResult = CandidateResult(
    fitScore: nat,
    explanation: string,
    script: string,
    row: AuditRow)

  /** Every criterion carries a weight, as the audit row's weight map reads `c["weight"]` directly. */
  predicate AllWeighted(criteria: seq<Criterion>) {
    forall i :: 0 <= i < |criteria| ==> criteria[i].weight.Some?
  }

  /**
    Scoring one résumé: the score is the weight of the matched criteria and at most
    the total weight, the script greets the candidate with the top strengths, and
    the row records "None" exactly when nothing matched. A criterion without a
    weight makes building the row's weight map raise `KeyError` (app.py:196), so
    then no result is logged and `None` is returned.
   */
  method RenderCandidateResult(candidateName: string, roleTitle: string, criteria: seq<Criterion>,
                               text: string, isEmirati: bool) returns (r: Option<CandidateResult>)
    ensures r.None? <==> !AllWeighted(criteria)
    ensures r.Some? ==> var ds := Details(CleanText(text), criteria);
      && r.value.fitScore == SumWeights(MatchedCriteria(ds))
      && r.value.fitScore <= TotalWeight(criteria)
      && r.value.explanation == Join(Lines(ds), "\n")
      && r.value.script == ConciergeScript(candidateName, roleTitle, TopStrengths(ds))
      && r.value.row == AuditRow(candidateName, isEmirati, roleTitle, r.value.fitScore, Summary(ds))
      && (r.value.row.matchedCriteria == "None" <==> MatchedCriteria(ds) == [])
  {
    var total, details := KeywordScore(text, criteria);
    var explanation := Explainability(details);
    var topTwo := TopStrengths(details);
    var script := ConciergeScript(candidateName, roleTitle, topTwo);
    var matched := MatchedSummary(details);
    if !AllWeighted(criteria) {
      return None;
    }
    SummaryNoneIffNothingMatched(details);
    r := Some(CandidateResult(total, explanation, script, AuditRow(candidateName, isEmirati, roleTitle, total, matched)));
  }
}
