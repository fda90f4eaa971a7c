/**
  The concierge call script `concierge_script` (app.py:119-123): a greeting
  with the candidate's name and the role, a paragraph listing the top
  strengths, and a fixed call to action, separated by blank lines.
 */
module Concierge {
  import opened Strings

  // The fixed texts of the template. The longer ones are written as short pieces so
  // that facts about their characters stay cheap to prove.

  const Greeting: string := "Hello "
  const Introduction: string :=
    ", this is the EMAAR " + "Talent Concierge. " + "Thanks for your " + "interest in the "
  const RoleEnd: string := " role."
  const Focus: string := "We focus on service " + "excellence and " + "multicultural teamwork. "
  const StoodOut: string := "Your background " + "stood out for: "
  const BodyLead: string := Focus + StoodOut
  const Invitation: string :=
    "I\U{2019}d love to walk you " + "through the role " + "expectations and " + "answer your " + "questions. "
  const Question: string := "Would you prefer a " + "quick 15-minute call " + "or a 25-minute " + "deep-dive?"
  const Close: string := Invitation + Question

  function Opener(candidateName: string, roleTitle: string): string {
    Greeting + candidateName + Introduction + roleTitle + RoleEnd
  }

  function Body(topStrengths: seq<string>): string {
    BodyLead + Join(topStrengths, ", ") + "."
  }

  /** `concierge_script(candidate_name, role_title, top_strengths)` */
  function ConciergeScript(candidateName: string, roleTitle: string, topStrengths: seq<string>): string {
    Opener(candidateName, roleTitle) + "\n\n" + Body(topStrengths) + "\n\n" + Close
  }

  lemma IntroductionIsSingleLine()
    ensures '\n' !in Introduction
  {
    assert '\n' !in ", this is the EMAAR ";
    assert '\n' !in "Talent Concierge. ";
    assert '\n' !in "Thanks for your ";
    assert '\n' !in "interest in the ";
  }

  lemma FocusIsSingleLine()
    ensures '\n' !in Focus
  {
    assert '\n' !in "We focus on service ";
    assert '\n' !in "excellence and ";
    assert '\n' !in "multicultural teamwork. ";
  }

  lemma StoodOutIsSingleLine()
    ensures '\n' !in StoodOut
  {
    assert '\n' !in "Your background ";
    assert '\n' !in "stood out for: ";
  }

  lemma InvitationIsSingleLine()
    ensures '\n' !in Invitation
  {
    assert '\n' !in "I\U{2019}d love to walk you ";
    assert '\n' !in "through the role ";
    assert '\n' !in "expectations and ";
    assert '\n' !in "answer your ";
    assert '\n' !in "questions. ";
  }

  lemma QuestionIsSingleLine()
    ensures '\n' !in Question
  {
    assert '\n' !in "Would you prefer a ";
    assert '\n' !in "quick 15-minute call ";
    assert '\n' !in "or a 25-minute ";
    assert '\n' !in "deep-dive?";
  }

  /**
    The script is three paragraphs separated by blank lines: the greeting with the
    candidate's name and role, the strengths joined by ", ", and the call to action.
   */
  lemma ConciergeScriptParagraphs(candidateName: string, roleTitle: string, topStrengths: seq<string>)
    requires '\n' !in candidateName && '\n' !in roleTitle
    requires forall i :: 0 <= i < |topStrengths| ==> '\n' !in topStrengths[i]
    ensures Split(ConciergeScript(candidateName, roleTitle, topStrengths), '\n') ==
      [Opener(candidateName, roleTitle), "", Body(topStrengths), "", Close]
  {
    var o, b := Opener(candidateName, roleTitle), Body(topStrengths);
    IntroductionIsSingleLine();
    FocusIsSingleLine();
    StoodOutIsSingleLine();
    InvitationIsSingleLine();
    QuestionIsSingleLine();
    JoinAvoids(topStrengths, ", ", '\n');
    assert "\n\n" == ['\n', '\n'];
    BlankLineSeparated(o, b, Close, '\n');
  }

  /** Three single-line texts separated by blank lines split into the texts and two empty lines. */
  lemma BlankLineSeparated(a: string, b: string, z: string, c: char)
    requires c !in a && c !in b && c !in z
    ensures Split(a + [c, c] + b + [c, c] + z, c) == [a, "", b, "", z]
  {
    var x3 := "" + [c] + z;
    var x2 := b + [c] + x3;
    var x1 := "" + [c] + x2;
    SplitWithoutSeparator(z, c);
    SplitAtFirstSeparator("", z, c);
    SplitAtFirstSeparator(b, x3, c);
    SplitAtFirstSeparator("", x2, c);
    SplitAtFirstSeparator(a, x1, c);
    assert a + [c] + x1 == a + [c, c] + b + [c, c] + z;
  }
}
