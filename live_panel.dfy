/**
 * The teacher's question form and the per-question statistics shown under each sent question.
 */
module LivePanel {
  import opened Wrappers
  import opened Strings
  import opened Events
  import opened DashboardStats
  import opened Arith

  const TimerPresets: seq<int> := [10, 20, 30]
  const BlankOptions: seq<string> := ["", "", "", ""]

  /** The fields handed to the dashboard when the form is sent. */
  datatype FormPayload = FormPayload(qtype: string, questionText: string, correctAnswer: string,
                                     options: seq<string>, durationSec: int)

  predicate IsDigits(s: string) {
    forall i :: 0 <= i < |s| ==> '0' <= s[i] <= '9'
  }

  /** `Number(s)` on the value of a number input: decimal digits, optionally negated. Any other
      text has no integer value and yields 0, which the server treats like NaN. */
  function NumberOf(s: string): (n: int)
    ensures s != [] && IsDigits(s) ==> n == DigitsToNat(s)
    ensures |s| >= 2 && s[0] == '-' && IsDigits(s[1..]) ==> n == -(DigitsToNat(s[1..]) as int)
  {
    if s != [] && IsDigits(s) then DigitsToNat(s)
    else if |s| >= 2 && s[0] == '-' && IsDigits(s[1..]) then -(DigitsToNat(s[1..]) as int)
    else 0
  }

  /** Typing the decimal rendering of a count reads back that count. */
  lemma NumberOfDigits(n: nat)
    ensures NumberOf(NatToDigits(n)) == n
  {
    DigitsRoundTrip(n);
  }

  /** The duration sent: a non-empty custom timer overrides the selected preset. */
  function SelectedDuration(customTimer: string, durationSec: int): (d: int)
    ensures customTimer != "" ==> d == NumberOf(customTimer)
    ensures customTimer == "" ==> d == durationSec
  {
    if customTimer != "" then NumberOf(customTimer) else durationSec
  }

  /** A custom timer of `n` seconds is sent as `n` whatever preset is selected. */
  lemma CustomTimerOverrides(n: nat, preset: int)
    ensures SelectedDuration(NatToDigits(n), preset) == n
  {
    NumberOfDigits(n);
  }

  class QuestionForm {
    var qtype: string
    var questionText: string
    var correctAnswer: string
    var options: seq<string>
    var durationSec: int
    var customTimer: string

    constructor ()
      ensures qtype == "MCQ" && questionText == "" && correctAnswer == ""
      ensures options == BlankOptions && durationSec == 20 && customTimer == ""
    {
      qtype := "MCQ";
      questionText := "";
      correctAnswer := "";
      options := BlankOptions;
      durationSec := 20;
      customTimer := "";
    }

    /** Whether a preset button shows as selected. */
    predicate PresetSelected(preset: int)
      reads this
    {
      durationSec == preset && customTimer == ""
    }

    /** `submitQuestion`: hands on the form's fields with the chosen duration, then clears the
        prompt, the correct answer and the options; type, preset and custom timer are kept. */
    method SubmitQuestion() returns (payload: FormPayload)
      modifies this
      ensures payload == FormPayload(old(qtype), old(questionText), old(correctAnswer), old(options),
                                     SelectedDuration(old(customTimer), old(durationSec)))
      ensures questionText == "" && correctAnswer == "" && options == BlankOptions
      ensures qtype == old(qtype) && durationSec == old(durationSec) && customTimer == old(customTimer)
    {
      var selectedDuration := if customTimer != "" then NumberOf(customTimer) else durationSec;
      payload := FormPayload(qtype, questionText, correctAnswer, options, selectedDuration);
      questionText := "";
      correctAnswer := "";
      options := BlankOptions;
    }

    /** Editing one option field (the inputs exist only for the current options). */
    method EditOption(idx: nat, value: string)
      requires idx < |options|
      modifies this
      ensures options == old(options)[idx := value]
      ensures |options| == |old(options)| && forall k :: 0 <= k < |options| && k != idx ==> options[k] == old(options)[k]
      ensures qtype == old(qtype) && questionText == old(questionText) && correctAnswer == old(correctAnswer)
      ensures durationSec == old(durationSec) && customTimer == old(customTimer)
    {
      var next := options;
      next := next[idx := value];
      options := next;
    }

    /** Clicking a preset selects it and clears the custom timer. */
    method SelectPreset(preset: int)
      requires preset in TimerPresets
      modifies this
      ensures PresetSelected(preset) && SelectedDuration(customTimer, durationSec) == preset
      ensures qtype == old(qtype) && questionText == old(questionText) && correctAnswer == old(correctAnswer)
      ensures options == old(options)
    {
      durationSec := preset;
      customTimer := "";
    }

    method SetCustomTimer(value: string)
      modifies this
      ensures customTimer == value && durationSec == old(durationSec)
      ensures qtype == old(qtype) && questionText == old(questionText) && correctAnswer == old(correctAnswer)
      ensures options == old(options)
    {
      customTimer := value;
    }
  }

  // ---------------------------------------------------------------------------------------
  // Per-question statistics

  /** `answersByQuestion[q.id] || {total: 0, correct: 0, answers: []}`. */
  function StatsFor(t: seq<Slot>, qid: string): (st: QStats)
    ensures Lookup(t, qid).None? ==> st == NoStats
    ensures Lookup(t, qid).Some? ==> st == Lookup(t, qid).value
  {
    Lookup(t, qid).GetOr(NoStats)
  }

  /** "Not answered": `Math.max(0, activeStudents - total)`. */
  function NotAnswered(activeStudents: nat, st: QStats): (n: nat)
    ensures n + st.total >= activeStudents
    ensures st.total <= activeStudents ==> n + st.total == activeStudents
    ensures st.total >= activeStudents ==> n == 0
  {
    if activeStudents > st.total then activeStudents - st.total else 0
  }

  /** "Wrong": `total - correct`, which is not guarded against going below zero. */
  function Wrong(st: QStats): int {
    st.total - st.correct
  }

  /** Some report is both locked and correct. */
  predicate LockedCorrect(xs: seq<AnswerReport>) {
    exists i :: 0 <= i < |xs| && xs[i].locked && xs[i].isCorrect
  }

  lemma {:induction false} CorrectAtMostOnTime(xs: seq<AnswerReport>)
    requires !LockedCorrect(xs)
    ensures CountCorrect(xs) <= CountOnTime(xs)
  {
    if xs != [] {
      assert forall i :: 0 <= i < |xs[1..]| ==> xs[1..][i] == xs[i + 1];
      CorrectAtMostOnTime(xs[1..]);
    }
  }

  /** "Wrong" is never negative while no locked answer was marked correct. */
  lemma WrongNonNegative(st: QStats)
    requires StatsConsistent(st) && !LockedCorrect(st.answers)
    ensures Wrong(st) >= 0
  {
    CorrectAtMostOnTime(st.answers);
  }

  /** A single late but correct answer makes "Wrong" negative: it counts in `correct` and not
      in `total`. */
  lemma WrongGoesNegative(report: AnswerReport)
    requires report.locked && report.isCorrect
    ensures Wrong(StatsFor(OnAnswerUpdate([], report), report.questionId)) == -1
  {
  }

  /** The sum of the response times. */
  function SumTimes(xs: seq<AnswerReport>): int {
    if xs == [] then 0 else xs[0].responseTimeMs + SumTimes(xs[1..])
  }

  /** The average response time over every received answer, locked ones included, rounded to
      the nearest integer with halves up; 0 with no answers. */
  function AvgMs(xs: seq<AnswerReport>): (r: int)
    ensures xs == [] ==> r == 0
    ensures xs != [] ==> 2 * |xs| * r <= 2 * SumTimes(xs) + |xs| < 2 * |xs| * r + 2 * |xs|
  {
    if xs == [] then 0
    else
      DivBracket(2 * SumTimes(xs) + |xs|, 2 * |xs|);
      (2 * SumTimes(xs) + |xs|) / (2 * |xs|)
  }

  lemma {:induction false} SumTimesBounds(xs: seq<AnswerReport>, lo: int, hi: int)
    requires forall i :: 0 <= i < |xs| ==> lo <= xs[i].responseTimeMs <= hi
    ensures |xs| * lo <= SumTimes(xs) <= |xs| * hi
  {
    if xs != [] {
      SumTimesBounds(xs[1..], lo, hi);
      assert |xs| * lo == lo + (|xs| - 1) * lo && |xs| * hi == hi + (|xs| - 1) * hi;
    }
  }

  /** A mean of values in [lo, hi], rounded half up, stays in [lo, hi]. */
  lemma RoundedMeanBetween(sum: int, n: int, lo: int, hi: int)
    requires n > 0 && n * lo <= sum <= n * hi
    ensures lo <= (2 * sum + n) / (2 * n) <= hi
  {
    var d, num := 2 * n, 2 * sum + n;
    var r := num / d;
    DivBracket(num, d);
    assert d * lo == 2 * (n * lo) && d * hi == 2 * (n * hi);
    assert d * (r + 1) == d * r + d && d * (hi + 1) == d * hi + d;
    MulCancelLess(d, lo, r + 1);
    MulCancelLess(d, r, hi + 1);
  }

  /** The average lies between the fastest and the slowest response. */
  lemma AvgMsBetween(xs: seq<AnswerReport>, lo: int, hi: int)
    requires xs != []
    requires forall i :: 0 <= i < |xs| ==> lo <= xs[i].responseTimeMs <= hi
    ensures lo <= AvgMs(xs) <= hi
  {
    SumTimesBounds(xs, lo, hi);
    RoundedMeanBetween(SumTimes(xs), |xs|, lo, hi);
  }
}
