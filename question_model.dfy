/** The stored Question record: its schema, enums, required fields and defaults. */
module QuestionModel {
  import opened Wrappers

  datatype QuestionType = MCQ | MANUAL

  datatype QuestionStatus = ACTIVE | ENDED

  /** A stored question; times are milliseconds since the epoch. */
  datatype Question = Question(
    id: string,
    sessionCode: string,
    teacherId: string,
    questionText: string,
    qtype: QuestionType,
    options: seq<string>,
    correctAnswer: string,
    durationSec: int,
    sentAt: int,
    endsAt: int,
    status: QuestionStatus)

  /** The schema's spelling of each type. */
  function TypeName(t: QuestionType): string {
    match t
    case MCQ => "MCQ"
    case MANUAL => "MANUAL"
  }

  /** The enum check on `type`: only the two schema spellings are accepted. */
  function ParseType(name: string): (r: Option<QuestionType>)
    ensures r.Some? <==> name == "MCQ" || name == "MANUAL"
    ensures r.Some? ==> TypeName(r.value) == name
  {
    if name == "MCQ" then Some(MCQ) else if name == "MANUAL" then Some(MANUAL) else None
  }

  lemma ParseTypeName(t: QuestionType)
    ensures ParseType(TypeName(t)) == Some(t)
  {
  }

  /** What the handler passes to create; `options` is None when the field is absent. */
  datatype QuestionFields = QuestionFields(
    sessionCode: string,
    teacherId: string,
    questionText: string,
    qtype: string,
    options: Option<seq<string>>,
    correctAnswer: string,
    durationSec: int,
    sentAt: int,
    endsAt: int)

  /** Schema validation and defaults applied by create: a required string must be non-empty,
      `type` must be in the enum, `options` defaults to [] and `status` to ACTIVE. None is the
      validation error create throws. Numbers and dates are always present here. */
  function CreateQuestion(id: string, f: QuestionFields): (r: Option<Question>)
    ensures r.Some? <==>
              && f.sessionCode != "" && f.teacherId != "" && f.questionText != ""
              && f.correctAnswer != "" && (f.qtype == "MCQ" || f.qtype == "MANUAL")
    ensures r.Some? ==>
              && r.value.id == id && r.value.sessionCode == f.sessionCode
              && r.value.teacherId == f.teacherId && r.value.questionText == f.questionText
              && TypeName(r.value.qtype) == f.qtype
              && r.value.options == (if f.options.Some? then f.options.value else [])
              && r.value.correctAnswer == f.correctAnswer && r.value.durationSec == f.durationSec
              && r.value.sentAt == f.sentAt && r.value.endsAt == f.endsAt
              && r.value.status == ACTIVE
  {
    var t := ParseType(f.qtype);
    if f.sessionCode == "" || f.teacherId == "" || f.questionText == "" || f.correctAnswer == "" || t.None? then
      None
    else
      Some(Question(id, f.sessionCode, f.teacherId, f.questionText, t.value, f.options.GetOr([]),
                    f.correctAnswer, f.durationSec, f.sentAt, f.endsAt, ACTIVE))
  }
}
