/** Marking a submitted answer sheet against a test's answer key:
    +4 for a correct answer, -1 for a wrong one, 0 for a blank one. */
module Scoring {
  import opened Text

  /** Points for one question, given the normalised answer and key entry:
      a blank answer is skipped, a matching one earns 4, any other costs 1. */
  function Points(answer: string, key: string): (p: int)
    ensures -1 <= p <= 4
    ensures p == 0 <==> answer == ""
    ensures p == 4 <==> answer != "" && answer == key
    ensures p == -1 <==> answer != "" && answer != key
  {
    if answer == "" then 0 else if answer == key then 4 else -1
  }

  /** The score of a whole sheet, accumulated question by question. */
  function Score(key: seq<string>, answers: seq<string>): (r: int)
    requires |answers| == |key|
    ensures -|key| <= r <= 4 * |key|
    decreases |key|
  {
    if key == [] then 0
    else Score(key[..|key| - 1], answers[..|key| - 1]) + Points(answers[|key| - 1], key[|key| - 1])
  }

  /** Questions answered (non-blank) and matching the key. */
  ghost function Correct(key: seq<string>, answers: seq<string>): set<nat>
    requires |answers| == |key|
  {
    set i: nat | i < |key| && answers[i] != "" && answers[i] == key[i]
  }

  /** Questions answered (non-blank) and not matching the key. */
  ghost function Incorrect(key: seq<string>, answers: seq<string>): set<nat>
    requires |answers| == |key|
  {
    set i: nat | i < |key| && answers[i] != "" && answers[i] != key[i]
  }

  /** Extending a sheet by one question adds that question to the correct
      set exactly when it is answered and matches. */
  lemma CorrectSnoc(key: seq<string>, answers: seq<string>)
    requires |answers| == |key| > 0
    ensures var n := |key| - 1;
      Correct(key, answers)
      == Correct(key[..n], answers[..n]) + (if answers[n] != "" && answers[n] == key[n] then {n} else {})
  {
    var n := |key| - 1;
    forall i | 0 <= i < n ensures key[..n][i] == key[i] && answers[..n][i] == answers[i] { }
  }

  /** Extending a sheet by one question adds that question to the wrong set
      exactly when it is answered and does not match. */
  lemma IncorrectSnoc(key: seq<string>, answers: seq<string>)
    requires |answers| == |key| > 0
    ensures var n := |key| - 1;
      Incorrect(key, answers)
      == Incorrect(key[..n], answers[..n]) + (if answers[n] != "" && answers[n] != key[n] then {n} else {})
  {
    var n := |key| - 1;
    forall i | 0 <= i < n ensures key[..n][i] == key[i] && answers[..n][i] == answers[i] { }
  }

  /** The score is four per correct answer minus one per wrong answer. */
  lemma {:induction false} ScoreCounts(key: seq<string>, answers: seq<string>)
    requires |answers| == |key|
    ensures Score(key, answers) == 4 * |Correct(key, answers)| - |Incorrect(key, answers)|
  {
    if key != [] {
      var n := |key| - 1;
      var k', a' := key[..n], answers[..n];
      ScoreCounts(k', a');
      CorrectSnoc(key, answers);
      IncorrectSnoc(key, answers);
      assert n !in Correct(k', a') && n !in Incorrect(k', a');
    }
  }

  /** A sheet with every question left blank scores 0. */
  lemma {:induction false} BlankSheetScoresZero(key: seq<string>, answers: seq<string>)
    requires |answers| == |key|
    requires forall i :: 0 <= i < |answers| ==> answers[i] == ""
    ensures Score(key, answers) == 0
  {
    if key != [] {
      BlankSheetScoresZero(key[..|key| - 1], answers[..|key| - 1]);
    }
  }

  /** Answers `A`, `B` and a blank against key `A`, `C`, `D` score 4 - 1 + 0. */
  lemma ScoreExample()
    ensures Score(["A", "C", "D"], ["A", "B", ""]) == 3
  {
    assert ["A", "C", "D"][..2] == ["A", "C"];
    assert ["A", "B", ""][..2] == ["A", "B"];
    assert ["A", "C"][..1] == ["A"];
    assert ["A", "B"][..1] == ["A"];
  }

  /** The answer key: each entry of the answer column, stripped and upper-cased. */
  function AnswerKey(column: seq<string>): (r: seq<string>)
    ensures |r| == |column|
  {
    seq(|column|, i requires 0 <= i < |column| => Normalize(column[i]))
  }

  /** Every key entry is already in normal form, so an answer equal to it
      after normalisation is marked correct. */
  lemma KeyEntriesNormalised(column: seq<string>)
    ensures forall i :: 0 <= i < |column| ==> Normalize(AnswerKey(column)[i]) == AnswerKey(column)[i]
  {
    forall i | 0 <= i < |column| ensures Normalize(AnswerKey(column)[i]) == AnswerKey(column)[i] {
      NormalizeIdempotent(column[i]);
    }
  }

  /** The raw form value posted for question `q` (1-based); a missing field reads as "". */
  function FormValue(form: map<nat, string>, q: nat): string
  {
    if q in form then form[q] else ""
  }

  /** The answers recorded for an n-question test: one entry per question,
      each the normalised form value. */
  function Graded(form: map<nat, string>, n: nat): (r: seq<string>)
    ensures |r| == n
  {
    seq(n, i requires 0 <= i < n => Normalize(FormValue(form, i + 1)))
  }

  /** Each recorded answer is in normal form, and it is blank exactly when
      the question's field was not posted or held only whitespace. */
  lemma GradedSpec(form: map<nat, string>, n: nat)
    ensures forall i :: 0 <= i < n ==> Normalize(Graded(form, n)[i]) == Graded(form, n)[i]
    ensures forall i :: 0 <= i < n ==>
      (Graded(form, n)[i] == "" <==> AllSpace(FormValue(form, i + 1)))
  {
    forall i | 0 <= i < n
      ensures Normalize(Graded(form, n)[i]) == Graded(form, n)[i]
      ensures Graded(form, n)[i] == "" <==> AllSpace(FormValue(form, i + 1))
    {
      NormalizeIdempotent(FormValue(form, i + 1));
      StripSpec(FormValue(form, i + 1));
    }
  }

  /** Marking one more question adds that question's points. */
  lemma ScoreStep(key: seq<string>, answers: seq<string>, ans: string)
    requires |answers| < |key|
    ensures Score(key[..|answers| + 1], answers + [ans])
         == Score(key[..|answers|], answers) + Points(ans, key[|answers|])
  {
    var i := |answers|;
    var k, a := key[..i + 1], answers + [ans];
    assert |k| == |a| == i + 1 && k != [];
    assert k[..|k| - 1] == key[..i];
    assert a[..|k| - 1] == answers;
    assert a[|k| - 1] == ans && k[|k| - 1] == key[i];
  }

  /** Grading one more question appends that question's normalised answer. */
  lemma GradedSnoc(form: map<nat, string>, n: nat)
    ensures Graded(form, n + 1) == Graded(form, n) + [Normalize(FormValue(form, n + 1))]
  {
    var g, g' := Graded(form, n), Graded(form, n + 1);
    forall j | 0 <= j < n ensures g'[j] == g[j] { }
  }

  /** Walks the answer key in order, normalising each posted answer and
      accumulating the score. */
  method GradeAnswers(key: seq<string>, form: map<nat, string>) returns (answers: seq<string>, score: int)
    ensures answers == Graded(form, |key|)
    ensures score == Score(key, answers)
    ensures score == 4 * |Correct(key, answers)| - |Incorrect(key, answers)|
    ensures -|key| <= score <= 4 * |key|
  {
    answers, score := [], 0;
    var i := 0;
    while i < |key|
      invariant 0 <= i <= |key|
      invariant answers == Graded(form, i)
      invariant score == Score(key[..i], answers)
    {
      var ans := Normalize(FormValue(form, i + 1));
      ScoreStep(key, answers, ans);
      GradedSnoc(form, i);
      answers := answers + [ans];
      score := score + Points(ans, key[i]);
      i := i + 1;
    }
    assert key[..i] == key;
    ScoreCounts(key, answers);
  }
}
