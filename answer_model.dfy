/** The stored Answer record: its schema, required fields and defaults. Its indexes on
    sessionCode, questionId and studentId are not unique, so nothing here forbids two answers
    for the same question and student; that is left to the submit handler. */
module AnswerModel {
  import opened Wrappers

  datatype Answer = Answer(
    sessionCode: string,
    questionId: string,
    studentId: string,
    studentName: string,
    answer: string,
    isCorrect: bool,
    responseTimeMs: int,
    answeredAt: int,
    locked: bool)

  /** What the handler passes to create; None stands for an absent field. */
  datatype AnswerFields = AnswerFields(
    sessionCode: string,
    questionId: string,
    studentId: string,
    studentName: Option<string>,
    answer: string,
    isCorrect: Option<bool>,
    responseTimeMs: int,
    answeredAt: int,
    locked: Option<bool>)

  /** Schema validation and defaults applied by create: the required strings must be non-empty,
      `studentName` defaults to "", `isCorrect` and `locked` to false. */
  function CreateAnswer(f: AnswerFields): (r: Option<Answer>)
    ensures r.Some? <==> f.sessionCode != "" && f.questionId != "" && f.studentId != "" && f.answer != ""
    ensures r.Some? ==>
              && r.value.sessionCode == f.sessionCode && r.value.questionId == f.questionId
              && r.value.studentId == f.studentId && r.value.answer == f.answer
              && r.value.responseTimeMs == f.responseTimeMs && r.value.answeredAt == f.answeredAt
              && r.value.studentName == (if f.studentName.Some? then f.studentName.value else "")
              && r.value.isCorrect == (f.isCorrect.Some? && f.isCorrect.value)
              && r.value.locked == (f.locked.Some? && f.locked.value)
  {
    if f.sessionCode == "" || f.questionId == "" || f.studentId == "" || f.answer == "" then
      None
    else
      Some(Answer(f.sessionCode, f.questionId, f.studentId, f.studentName.GetOr(""), f.answer,
                  f.isCorrect.GetOr(false), f.responseTimeMs, f.answeredAt, f.locked.GetOr(false)))
  }
}
