/**
 * The question popup on the student's page: one instance per question (it is keyed by the
 * question id), holding the typed or chosen answer and whether time has run out.
 */
module QuestionPopup {
  import opened Wrappers
  import opened Strings
  import opened Events

  const LockedMessage := "Answer locked. Time ended."
  const CorrectMessage := "Correct!"
  const IncorrectMessage := "Incorrect. Keep going."

  /** The `locked` and `isCorrect` fields of a result; a refusal has neither (both falsy). */
  predicate ResultLocked(r: AnswerResult) {
    r.Graded? && r.report.locked
  }

  predicate ResultCorrect(r: AnswerResult) {
    r.Graded? && r.report.isCorrect
  }

  /** The result banner: shown only for a result about the question on screen, with the
      precedence locked, then correct, then incorrect. */
  function ResultMessage(question: Option<QuestionNew>, result: Option<AnswerResult>): (m: Option<string>)
    ensures m.Some? <==> question.Some? && result.Some? && ResultQuestionId(result.value) == question.value.id
    ensures m.Some? && ResultLocked(result.value) ==> m == Some(LockedMessage)
    ensures m.Some? && !ResultLocked(result.value) && ResultCorrect(result.value) ==> m == Some(CorrectMessage)
    ensures m.Some? && !ResultLocked(result.value) && !ResultCorrect(result.value) ==> m == Some(IncorrectMessage)
  {
    if question.None? || result.None? || ResultQuestionId(result.value) != question.value.id then None
    else if ResultLocked(result.value) then Some(LockedMessage)
    else if ResultCorrect(result.value) then Some(CorrectMessage)
    else Some(IncorrectMessage)
  }

  /** A refusal that names the question on screen (a duplicate, or a shape error) is shown with
      the "incorrect" banner, since it carries neither `locked` nor `isCorrect`. */
  lemma RefusalShownAsIncorrect(q: QuestionNew, message: Refusal)
    ensures ResultMessage(Some(q), Some(Rejected(message, q.id))) == Some(IncorrectMessage)
  {
  }

  /** A graded late answer shows the locked banner even when it was right. */
  lemma LockedWinsOverCorrect(q: QuestionNew, rep: AnswerReport)
    requires rep.questionId == q.id && rep.locked && rep.isCorrect
    ensures ResultMessage(Some(q), Some(Graded(rep))) == Some(LockedMessage)
  {
  }

  class Popup {
    const question: Option<QuestionNew>
    var answer: string
    var locked: bool

    constructor (question: Option<QuestionNew>)
      ensures this.question == question && answer == "" && !locked
    {
      this.question := question;
      answer := "";
      locked := false;
    }

    /** `submit` would hand an answer on. */
    predicate CanSubmit()
      reads this
    {
      question.Some? && !locked && Trim(answer) != ""
    }

    /** The submit button (present only with a question) is disabled exactly when `submit`
        would do nothing. */
    function ButtonDisabled(): (d: bool)
      reads this
      ensures question.Some? ==> (d <==> !CanSubmit())
    {
      locked || Trim(answer) == ""
    }

    /** Typing, or choosing an MCQ option. */
    method SetAnswer(value: string)
      modifies this
      ensures answer == value && locked == old(locked)
    {
      answer := value;
    }

    /** `submit`: the trimmed answer is handed on unless time is up or the answer is blank;
        with no question there is nothing to submit. */
    method Submit() returns (submitted: Option<string>)
      ensures submitted == if CanSubmit() then Some(Trim(answer)) else None
      ensures submitted.Some? ==> submitted.value != "" && IsTrimmed(submitted.value)
    {
      if question.None? || locked || Trim(answer) == "" {
        return None;
      }
      submitted := Some(Trim(answer));
    }

    /** The timer's completion locks the popup; nothing unlocks it. */
    method OnTimerComplete()
      modifies this
      ensures locked && answer == old(answer)
    {
      locked := true;
    }
  }
}
