/**
 * The quiz engine of the classroom sockets: answer normalisation and shape checking, the
 * `presence:join`, `question:send` and `answer:submit` handlers. The Question and Answer
 * collections become a map and a sequence, the clock a `now` parameter (milliseconds), and
 * everything the handlers emit is appended to an outbox.
 */
module Classroom {
  import opened Wrappers
  import opened Strings
  import opened QuestionModel
  import opened AnswerModel
  import opened Events

  // ---------------------------------------------------------------------------------------
  // Normalisation and the answer shape check

  /** The comparison form of a one-word answer: trimmed, then lower-cased. A missing value is "". */
  function NormalizeOneWord(v: string): (r: string)
    ensures IsTrimmed(r) && |r| <= |v|
    ensures ToLower(r) == r
    ensures r == "" <==> AllSpace(v)
    ensures IsTrimmed(v) ==> r == ToLower(v)
  {
    TrimEmptyIffAllSpace(v);
    assert IsTrimmed(v) ==> Trim(v) == v by {
      if IsTrimmed(v) { TrimOfTrimmed(v); }
    }
    ToLowerKeepsTrimmed(Trim(v));
    ToLowerIdempotent(Trim(v));
    ToLower(Trim(v))
  }

  /** Normalising twice is normalising once. */
  lemma NormalizeIdempotent(v: string)
    ensures NormalizeOneWord(NormalizeOneWord(v)) == NormalizeOneWord(v)
  {
    TrimOfTrimmed(NormalizeOneWord(v));
  }

  /** Two trimmed answers have the same comparison form exactly when they agree up to letter
      case: a different word is never taken for the correct one. */
  lemma NormalizeComparesLetters(a: string, b: string)
    requires IsTrimmed(a) && IsTrimmed(b)
    ensures NormalizeOneWord(a) == NormalizeOneWord(b) <==> ToLower(a) == ToLower(b)
  {
  }

  /** Surrounding whitespace and letter case do not matter to the comparison form. */
  lemma NormalizeIgnoresPaddingAndCase(pre: string, w: string, post: string)
    requires AllSpace(pre) && AllSpace(post)
    ensures NormalizeOneWord(pre + w + post) == NormalizeOneWord(w)
    ensures NormalizeOneWord(pre + ToUpper(w) + post) == NormalizeOneWord(w)
  {
    TrimPadded(pre, w, post);
    TrimPadded(pre, ToUpper(w), post);
    TrimToLower(ToUpper(w));
    ToLowerToUpper(w);
    TrimToLower(w);
  }

  datatype Shape = ShapeOk(answer: string) | ShapeError(reason: Refusal)

  /** The MCQ membership test: some option has the same comparison form as `w`. */
  predicate AmongOptions(w: string, options: seq<string>) {
    exists k :: 0 <= k < |options| && NormalizeOneWord(options[k]) == NormalizeOneWord(w)
  }

  /** Checks a (correct or submitted) answer against a question type and its options, in a fixed
      order: blank, then internal whitespace, then (for "MCQ" only) membership. On success the
      trimmed answer is returned with its case kept. */
  function ValidateAnswerShape(qtype: string, answer: string, options: seq<string>): (r: Shape)
    ensures r == ShapeError(EmptyAnswer) <==> AllSpace(answer)
    ensures r == ShapeError(OneWordOnly) <==> !AllSpace(answer) && HasSpace(Trim(answer))
    ensures r == ShapeError(NotInOptions) <==>
              !AllSpace(answer) && !HasSpace(Trim(answer)) && qtype == "MCQ" && !AmongOptions(Trim(answer), options)
    ensures r.ShapeOk? <==>
              !AllSpace(answer) && !HasSpace(Trim(answer)) && (qtype == "MCQ" ==> AmongOptions(Trim(answer), options))
    ensures r.ShapeOk? ==> r.answer == Trim(answer) && r.answer != "" && IsTrimmed(r.answer)
  {
    TrimEmptyIffAllSpace(answer);
    var trimmed := Trim(answer);
    if trimmed == "" then ShapeError(EmptyAnswer)
    else if HasSpace(trimmed) then ShapeError(OneWordOnly)
    else if qtype == "MCQ" && !AmongOptions(trimmed, options) then ShapeError(NotInOptions)
    else ShapeOk(trimmed)
  }

  /** An accepted answer passes the check again unchanged. */
  lemma ValidateAcceptedAgain(qtype: string, answer: string, options: seq<string>)
    requires ValidateAnswerShape(qtype, answer, options).ShapeOk?
    ensures var a := ValidateAnswerShape(qtype, answer, options).answer;
            ValidateAnswerShape(qtype, a, options) == ShapeOk(a)
  {
    var a := Trim(answer);
    TrimIdempotent(answer);
    TrimEmptyIffAllSpace(a);
  }

  // ---------------------------------------------------------------------------------------
  // question:send

  /** The first guard of the handler: a required field is absent or falsy (a zero or NaN
      duration included). */
  predicate MissingQuestionFields(p: QuestionSend) {
    p.roomId == "" || p.teacherId == "" || p.questionText == "" || p.qtype == "" || p.durationSec == 0
  }

  /** Some cleaned option still contains whitespace. */
  predicate OptionWithSpace(options: seq<string>) {
    exists k :: 0 <= k < |options| && HasSpace(options[k])
  }

  /** What every stored question satisfies. */
  ghost predicate WellFormed(q: Question) {
    && q.sessionCode != "" && q.teacherId != "" && q.questionText != "" && IsTrimmed(q.questionText)
    && q.durationSec != 0 && q.endsAt == q.sentAt + q.durationSec * 1000
    && (forall k :: 0 <= k < |q.options| ==> q.options[k] != "" && IsTrimmed(q.options[k]))
    && (q.qtype == MCQ ==> !OptionWithSpace(q.options))
    && ValidateAnswerShape(TypeName(q.qtype), q.correctAnswer, q.options) == ShapeOk(q.correctAnswer)
    && q.status == ACTIVE
  }

  datatype SendOutcome = Created(question: Question) | SendRefused(message: Refusal)

  /** The decision of `question:send` for payload `p` at time `now`, with `id` the identifier
      the store assigns on create. */
  function PrepareQuestion(p: QuestionSend, now: int, id: string): (r: SendOutcome)
    ensures r.Created? ==> r.question.id == id && r.question.sentAt == now
  {
    if MissingQuestionFields(p) then SendRefused(MissingFields)
    else
      var trimmedOptions := TrimNonBlank(p.options);
      if p.qtype == "MCQ" && OptionWithSpace(trimmedOptions) then SendRefused(OptionsOneWord)
      else
        var validation := ValidateAnswerShape(p.qtype, p.correctAnswer, trimmedOptions);
        if validation.ShapeError? then SendRefused(validation.reason)
        else
          var sentAt := now;
          var endsAt := sentAt + p.durationSec * 1000;
          var created := CreateQuestion(id, QuestionFields(p.roomId, p.teacherId, Trim(p.questionText), p.qtype,
                                                           Some(trimmedOptions), validation.answer, p.durationSec,
                                                           sentAt, endsAt));
          if created.None? then SendRefused(SendFailed) else Created(created.value)
  }

  /** Which payloads `question:send` refuses with which message, in the order of its checks,
      and what a created question holds: the cleaned text, options and correct answer, the
      requested duration and the deadline `sentAt + durationSec * 1000`, and it is well formed. */
  lemma PrepareQuestionOutcome(p: QuestionSend, now: int, id: string)
    ensures var r := PrepareQuestion(p, now, id); r == SendRefused(MissingFields) <==> MissingQuestionFields(p)
    ensures var r := PrepareQuestion(p, now, id); r == SendRefused(OptionsOneWord) <==>
              !MissingQuestionFields(p) && p.qtype == "MCQ" && OptionWithSpace(TrimNonBlank(p.options))
    ensures var r := PrepareQuestion(p, now, id); var v := ValidateAnswerShape(p.qtype, p.correctAnswer, TrimNonBlank(p.options));
            && ((!MissingQuestionFields(p) && !(p.qtype == "MCQ" && OptionWithSpace(TrimNonBlank(p.options)))
                 && v.ShapeError?) ==> r == SendRefused(v.reason))
            && (r == SendRefused(SendFailed) <==>
                  && !MissingQuestionFields(p) && !(p.qtype == "MCQ" && OptionWithSpace(TrimNonBlank(p.options)))
                  && v.ShapeOk? && (ParseType(p.qtype).None? || Trim(p.questionText) == ""))
            && (r.Created? <==>
                  && !MissingQuestionFields(p) && !(p.qtype == "MCQ" && OptionWithSpace(TrimNonBlank(p.options)))
                  && v.ShapeOk? && ParseType(p.qtype).Some? && Trim(p.questionText) != "")
    ensures var r := PrepareQuestion(p, now, id); r.Created? ==>
              var q := r.question;
              && WellFormed(q) && q.id == id && q.sessionCode == p.roomId && q.teacherId == p.teacherId
              && q.questionText == Trim(p.questionText) && TypeName(q.qtype) == p.qtype
              && q.options == TrimNonBlank(p.options) && q.correctAnswer == Trim(p.correctAnswer)
              && q.durationSec == p.durationSec && q.sentAt == now && q.endsAt == now + p.durationSec * 1000
  {
    var trimmedOptions := TrimNonBlank(p.options);
    if !MissingQuestionFields(p) && ValidateAnswerShape(p.qtype, p.correctAnswer, trimmedOptions).ShapeOk? {
      ValidateAcceptedAgain(p.qtype, p.correctAnswer, trimmedOptions);
      TrimOfTrimmed(Trim(p.questionText));
    }
  }

  /** The `question:new` payload: every field of the stored question except its correct answer. */
  function View(q: Question): (v: QuestionNew)
    ensures v.id == q.id && v.questionText == q.questionText && v.qtype == q.qtype && v.options == q.options
    ensures v.durationSec == q.durationSec && v.sentAt == q.sentAt && v.endsAt == q.endsAt
  {
    QuestionNew(q.id, q.questionText, q.qtype, q.options, q.durationSec, q.sentAt, q.endsAt)
  }

  /** The broadcast does not depend on the correct answer: questions that differ only there
      are announced identically. */
  lemma ViewHidesCorrectAnswer(q: Question, other: string)
    ensures View(q.(correctAnswer := other)) == View(q)
  {
  }

  /** What `question:send` emits: the question to the whole room, or the error to the sender. */
  function SendEmits(p: QuestionSend, r: SendOutcome): (e: seq<Emit>)
    ensures |e| == 1
    ensures r.Created? ==> e[0] == Emit(Room(p.roomId), QuestionNewMsg(View(r.question)))
    ensures r.SendRefused? ==> e[0] == Emit(Sender, QuestionError(r.message))
  {
    match r
    case Created(q) => [Emit(Room(p.roomId), QuestionNewMsg(View(q)))]
    case SendRefused(m) => [Emit(Sender, QuestionError(m))]
  }

  // ---------------------------------------------------------------------------------------
  // answer:submit

  /** `Math.max(0, x)`. */
  function NonNegative(x: int): (r: nat)
    ensures r >= x && (x >= 0 ==> r == x) && (x < 0 ==> r == 0)
  {
    if x > 0 then x else 0
  }

  /** Some stored answer has this question and this student. */
  predicate Answered(answers: seq<Answer>, questionId: string, studentId: string) {
    exists i :: 0 <= i < |answers| && answers[i].questionId == questionId && answers[i].studentId == studentId
  }

  /** `Answer.findOne({questionId, studentId})`: the stored answer for the pair, if any. */
  function FindAnswer(answers: seq<Answer>, questionId: string, studentId: string): (r: Option<Answer>)
    ensures r.Some? <==> Answered(answers, questionId, studentId)
    ensures r.Some? ==> r.value in answers && r.value.questionId == questionId && r.value.studentId == studentId
  {
    if answers == [] then None
    else if answers[0].questionId == questionId && answers[0].studentId == studentId then Some(answers[0])
    else
      var r := FindAnswer(answers[1..], questionId, studentId);
      assert Answered(answers[1..], questionId, studentId) ==> Answered(answers, questionId, studentId) by {
        if Answered(answers[1..], questionId, studentId) {
          var i :| 0 <= i < |answers[1..]| && answers[1..][i].questionId == questionId && answers[1..][i].studentId == studentId;
          assert answers[i + 1] == answers[1..][i];
        }
      }
      assert Answered(answers, questionId, studentId) ==> Answered(answers[1..], questionId, studentId) by {
        if Answered(answers, questionId, studentId) {
          var i :| 0 <= i < |answers| && answers[i].questionId == questionId && answers[i].studentId == studentId;
          assert i > 0 && answers[1..][i - 1] == answers[i];
        }
      }
      r
  }

  /** How a stored answer relates to its question and the time it arrived. */
  predicate GradedAgainst(a: Answer, q: Question, now: int) {
    && a.answeredAt == now
    && a.locked == (now > q.endsAt)
    && a.isCorrect == (NormalizeOneWord(a.answer) == NormalizeOneWord(q.correctAnswer))
    && a.responseTimeMs == NonNegative(now - q.sentAt)
  }

  /** The `answer:result` / `answer:update` payload of a stored answer. */
  function ReportOf(a: Answer): (rep: AnswerReport)
    ensures rep.ok == !a.locked && rep.locked == a.locked
    ensures rep.questionId == a.questionId && rep.studentId == a.studentId && rep.studentName == a.studentName
    ensures rep.answer == a.answer && rep.isCorrect == a.isCorrect
    ensures rep.responseTimeMs == a.responseTimeMs && rep.answeredAt == a.answeredAt
  {
    AnswerReport(!a.locked, a.locked, a.questionId, a.studentId, a.studentName, a.answer, a.isCorrect,
                 a.responseTimeMs, a.answeredAt)
  }

  predicate SubmitFieldsPresent(p: AnswerSubmit) {
    p.roomId != "" && p.questionId != "" && p.studentId != ""
  }

  datatype SubmitOutcome = Accepted(stored: Answer) | SubmitRefused(message: Refusal, questionId: string)

  /** The decision of `answer:submit` for payload `p` at time `now` against the stores. */
  function JudgeSubmission(questions: map<string, Question>, answers: seq<Answer>, p: AnswerSubmit, now: int)
    : (r: SubmitOutcome)
    ensures r.Accepted? ==>
              && r.stored.questionId == p.questionId && r.stored.studentId == p.studentId
              && !Answered(answers, p.questionId, p.studentId)
  {
    if !SubmitFieldsPresent(p) then SubmitRefused(MissingFields, "")
    else if p.questionId !in questions then SubmitRefused(QuestionNotFound, "")
    else
      var q := questions[p.questionId];
      var locked := now > q.endsAt;
      var validation := ValidateAnswerShape(TypeName(q.qtype), p.answer, q.options);
      if validation.ShapeError? then SubmitRefused(validation.reason, p.questionId)
      else
        var isCorrect := NormalizeOneWord(validation.answer) == NormalizeOneWord(q.correctAnswer);
        var responseTimeMs := NonNegative(now - q.sentAt);
        if FindAnswer(answers, p.questionId, p.studentId).Some? then SubmitRefused(AlreadySubmitted, p.questionId)
        else
          Accepted(CreateAnswer(AnswerFields(p.roomId, p.questionId, p.studentId, Some(p.studentName),
                                             validation.answer, Some(isCorrect), responseTimeMs, now,
                                             Some(locked))).value)
  }

  /** Which submissions `answer:submit` refuses with which message, in the order of its checks,
      and what an accepted answer holds: the cleaned text, graded against the stored question
      at its arrival time, under the payload's room, question and student. */
  lemma JudgeSubmissionOutcome(questions: map<string, Question>, answers: seq<Answer>, p: AnswerSubmit, now: int)
    ensures var r := JudgeSubmission(questions, answers, p, now); r == SubmitRefused(MissingFields, "") <==> !SubmitFieldsPresent(p)
    ensures var r := JudgeSubmission(questions, answers, p, now); r == SubmitRefused(QuestionNotFound, "") <==> SubmitFieldsPresent(p) && p.questionId !in questions
    ensures var r := JudgeSubmission(questions, answers, p, now); SubmitFieldsPresent(p) && p.questionId in questions ==>
              var q := questions[p.questionId];
              var v := ValidateAnswerShape(TypeName(q.qtype), p.answer, q.options);
              && (v.ShapeError? ==> r == SubmitRefused(v.reason, p.questionId))
              && (v.ShapeOk? && Answered(answers, p.questionId, p.studentId) ==>
                    r == SubmitRefused(AlreadySubmitted, p.questionId))
              && (r.Accepted? <==> v.ShapeOk? && !Answered(answers, p.questionId, p.studentId))
              && (r.Accepted? ==>
                    && r.stored.answer == v.answer && GradedAgainst(r.stored, q, now))
    ensures var r := JudgeSubmission(questions, answers, p, now); r.Accepted? ==>
              && SubmitFieldsPresent(p) && p.questionId in questions
              && r.stored.sessionCode == p.roomId && r.stored.questionId == p.questionId
              && r.stored.studentId == p.studentId && r.stored.studentName == p.studentName
  {
  }

  /** What `answer:submit` emits: a refusal to the sender only, or the same report to the
      sender (`answer:result`) and to the room named in the payload (`answer:update`). */
  function SubmitEmits(p: AnswerSubmit, r: SubmitOutcome): (e: seq<Emit>)
    ensures r.SubmitRefused? ==> e == [Emit(Sender, AnswerResultMsg(Rejected(r.message, r.questionId)))]
    ensures r.Accepted? ==>
              e == [Emit(Sender, AnswerResultMsg(Graded(ReportOf(r.stored)))),
                    Emit(Room(p.roomId), AnswerUpdate(ReportOf(r.stored)))]
  {
    match r
    case SubmitRefused(m, qid) => [Emit(Sender, AnswerResultMsg(Rejected(m, qid)))]
    case Accepted(a) => [Emit(Sender, AnswerResultMsg(Graded(ReportOf(a)))), Emit(Room(p.roomId), AnswerUpdate(ReportOf(a)))]
  }

  /** At most one stored answer per (question, student) pair. */
  predicate UniquePairs(answers: seq<Answer>) {
    forall i, j :: 0 <= i < j < |answers| ==>
      answers[i].questionId != answers[j].questionId || answers[i].studentId != answers[j].studentId
  }

  /** Appending an answer for a pair not yet answered keeps the pairs unique. */
  lemma AppendKeepsPairsUnique(answers: seq<Answer>, a: Answer)
    requires UniquePairs(answers) && !Answered(answers, a.questionId, a.studentId)
    ensures UniquePairs(answers + [a])
  {
    var s := answers + [a];
    forall i, j | 0 <= i < j < |s|
      ensures s[i].questionId != s[j].questionId || s[i].studentId != s[j].studentId
    {
      assert s[i] == answers[i];
      if j < |answers| {
        assert s[j] == answers[j];
      }
    }
  }

  /** Storing an accepted answer keeps the pairs unique. */
  lemma AcceptedKeepsPairsUnique(questions: map<string, Question>, answers: seq<Answer>, p: AnswerSubmit, now: int)
    requires UniquePairs(answers)
    requires JudgeSubmission(questions, answers, p, now).Accepted?
    ensures UniquePairs(answers + [JudgeSubmission(questions, answers, p, now).stored])
  {
    AppendKeepsPairsUnique(answers, JudgeSubmission(questions, answers, p, now).stored);
  }

  /** Once an answer for a pair is stored, a second well-shaped submission for the same pair is
      refused as a duplicate, whatever its text and time. */
  lemma SecondSubmissionRefused(questions: map<string, Question>, answers: seq<Answer>,
                                p: AnswerSubmit, now: int, p': AnswerSubmit, now': int)
    requires JudgeSubmission(questions, answers, p, now).Accepted?
    requires p'.roomId != "" && p'.questionId == p.questionId && p'.studentId == p.studentId
    requires var q := questions[p.questionId];
             ValidateAnswerShape(TypeName(q.qtype), p'.answer, q.options).ShapeOk?
    ensures var a := JudgeSubmission(questions, answers, p, now).stored;
            JudgeSubmission(questions, answers + [a], p', now') == SubmitRefused(AlreadySubmitted, p.questionId)
  {
    JudgeSubmissionOutcome(questions, answers, p, now);
    var a := JudgeSubmission(questions, answers, p, now).stored;
    assert (answers + [a])[|answers|] == a;
    assert Answered(answers + [a], p.questionId, p.studentId);
  }

  /** The lock rule and the correctness rule, for every accepted submission: it is locked exactly
      when it arrives strictly after `endsAt`, and correct exactly when its comparison form
      equals the correct answer's; the submitter's `ok` is the negation of `locked`. */
  lemma AcceptedGrading(questions: map<string, Question>, answers: seq<Answer>, p: AnswerSubmit, now: int)
    requires JudgeSubmission(questions, answers, p, now).Accepted?
    ensures var a := JudgeSubmission(questions, answers, p, now).stored;
            var q := questions[p.questionId];
            && (a.locked <==> now > q.endsAt)
            && (a.isCorrect <==> NormalizeOneWord(p.answer) == NormalizeOneWord(q.correctAnswer))
            && (ReportOf(a).ok <==> now <= q.endsAt)
            && a.responseTimeMs >= 0 && a.responseTimeMs >= now - q.sentAt
  {
    JudgeSubmissionOutcome(questions, answers, p, now);
    var q := questions[p.questionId];
    TrimIdempotent(p.answer);
    ToLowerIdempotent(Trim(p.answer));
  }

  /** The `presence:join` handler: without a room or a student nothing is emitted; otherwise one
      JOINED update goes to the room. */
  function PresenceJoinEmits(p: PresenceJoin, now: int): (e: seq<Emit>)
    ensures e == [] <==> p.roomId == "" || p.studentId == ""
    ensures e != [] ==> e == [Emit(Room(p.roomId), PresenceUpdateMsg(PresenceUpdate(p.studentId, p.studentName, "JOINED", now)))]
  {
    if p.roomId == "" || p.studentId == "" then []
    else [Emit(Room(p.roomId), PresenceUpdateMsg(PresenceUpdate(p.studentId, p.studentName, "JOINED", now)))]
  }

  /** What the two stores keep: each question under its own id and well formed; each answer
      about a stored question, graded against it at its arrival time; one answer per pair. */
  ghost predicate StoresConsistent(questions: map<string, Question>, answers: seq<Answer>) {
    QuestionsConsistent(questions) && AnswersConsistent(questions, answers) && UniquePairs(answers)
  }

  /** Each stored question sits under its own id and is well formed. */
  ghost predicate QuestionsConsistent(questions: map<string, Question>) {
    forall id {:trigger WellFormed(questions[id])} :: id in questions ==> questions[id].id == id && WellFormed(questions[id])
  }

  /** Each stored answer is about a stored question, graded against it. */
  ghost predicate AnswersConsistent(questions: map<string, Question>, answers: seq<Answer>) {
    forall i :: 0 <= i < |answers| ==> AnswerStored(questions, answers[i])
  }

  /** A stored answer names a stored question, a student and a room, and is graded against
      that question at its arrival time. */
  ghost predicate AnswerStored(questions: map<string, Question>, a: Answer) {
    && a.questionId in questions && a.studentId != "" && a.sessionCode != ""
    && GradedAgainst(a, questions[a.questionId], a.answeredAt)
  }

  /** Storing a well-formed question under its fresh id keeps the stores consistent. */
  lemma CreatedKeepsStores(questions: map<string, Question>, answers: seq<Answer>, q: Question)
    requires StoresConsistent(questions, answers) && q.id !in questions && WellFormed(q)
    ensures StoresConsistent(questions[q.id := q], answers)
  {
    var qs := questions[q.id := q];
    forall id | id in qs ensures qs[id].id == id && WellFormed(qs[id]) {
      if id != q.id {
        assert qs[id] == questions[id] && WellFormed(questions[id]);
      }
    }
    forall i | 0 <= i < |answers| ensures AnswerStored(qs, answers[i]) {
      assert AnswerStored(questions, answers[i]);
      assert qs[answers[i].questionId] == questions[answers[i].questionId];
    }
  }

  /** Whatever `question:send` creates can be stored under its fresh id. */
  lemma SendKeepsStores(questions: map<string, Question>, answers: seq<Answer>, p: QuestionSend, now: int, id: string)
    requires StoresConsistent(questions, answers) && id !in questions
    requires PrepareQuestion(p, now, id).Created?
    ensures StoresConsistent(questions[id := PrepareQuestion(p, now, id).question], answers)
  {
    PrepareQuestionOutcome(p, now, id);
    CreatedKeepsStores(questions, answers, PrepareQuestion(p, now, id).question);
  }

  /** An accepted answer satisfies what every stored answer satisfies. */
  lemma AcceptedAnswerStored(questions: map<string, Question>, answers: seq<Answer>, p: AnswerSubmit, now: int)
    requires JudgeSubmission(questions, answers, p, now).Accepted?
    ensures AnswerStored(questions, JudgeSubmission(questions, answers, p, now).stored)
  {
    JudgeSubmissionOutcome(questions, answers, p, now);
  }

  /** Appending a stored-shaped answer for a pair not yet answered keeps the stores consistent. */
  lemma AppendKeepsStores(questions: map<string, Question>, answers: seq<Answer>, a: Answer)
    requires StoresConsistent(questions, answers) && AnswerStored(questions, a)
    requires !Answered(answers, a.questionId, a.studentId)
    ensures StoresConsistent(questions, answers + [a])
  {
    AppendKeepsPairsUnique(answers, a);
    var s := answers + [a];
    forall i | 0 <= i < |s| ensures AnswerStored(questions, s[i]) {
      if i < |answers| {
        assert s[i] == answers[i];
      }
    }
  }

  /** Storing an accepted answer keeps the stores consistent. */
  lemma AcceptedKeepsStores(questions: map<string, Question>, answers: seq<Answer>, p: AnswerSubmit, now: int)
    requires StoresConsistent(questions, answers)
    requires JudgeSubmission(questions, answers, p, now).Accepted?
    ensures StoresConsistent(questions, answers + [JudgeSubmission(questions, answers, p, now).stored])
  {
    AcceptedAnswerStored(questions, answers, p, now);
    AppendKeepsStores(questions, answers, JudgeSubmission(questions, answers, p, now).stored);
  }

  // ---------------------------------------------------------------------------------------
  // The engine

  class QuizEngine {
    /** The Question collection, keyed by the identifier the store assigns. */
    var questions: map<string, Question>
    /** The Answer collection, in insertion order. */
    var answers: seq<Answer>
    /** Everything emitted so far, in order. */
    var outbox: seq<Emit>

    ghost predicate Valid()
      reads this
    {
      StoresConsistent(questions, answers)
    }

    constructor ()
      ensures Valid()
      ensures questions == map[] && answers == [] && outbox == []
    {
      questions := map[];
      answers := [];
      outbox := [];
    }

    method PresenceJoinHandler(p: PresenceJoin, now: int)
      requires Valid()
      modifies this
      ensures Valid()
      ensures questions == old(questions) && answers == old(answers)
      ensures outbox == old(outbox) + PresenceJoinEmits(p, now)
    {
      if p.roomId == "" || p.studentId == "" {
        return;
      }
      outbox := outbox + [Emit(Room(p.roomId), PresenceUpdateMsg(PresenceUpdate(p.studentId, p.studentName, "JOINED", now)))];
    }

    /** `question:send` at time `now`; `id` is the fresh identifier the store assigns on create. */
    method SendQuestion(p: QuestionSend, now: int, id: string)
      requires Valid()
      requires id !in questions
      modifies this
      ensures Valid()
      ensures answers == old(answers)
      ensures var r := PrepareQuestion(p, now, id);
              && questions == (if r.Created? then old(questions)[id := r.question] else old(questions))
              && outbox == old(outbox) + SendEmits(p, r)
    {
      var r := PrepareQuestion(p, now, id);
      if r.SendRefused? {
        outbox := outbox + [Emit(Sender, QuestionError(r.message))];
        return;
      }
      SendKeepsStores(questions, answers, p, now, id);
      questions := questions[id := r.question];
      outbox := outbox + [Emit(Room(p.roomId), QuestionNewMsg(View(r.question)))];
    }

    /** `answer:submit` at time `now`. */
    method SubmitAnswer(p: AnswerSubmit, now: int)
      requires Valid()
      modifies this
      ensures Valid()
      ensures questions == old(questions)
      ensures var r := JudgeSubmission(old(questions), old(answers), p, now);
              && answers == (if r.Accepted? then old(answers) + [r.stored] else old(answers))
              && outbox == old(outbox) + SubmitEmits(p, r)
    {
      var r := JudgeSubmission(questions, answers, p, now);
      if r.SubmitRefused? {
        outbox := outbox + [Emit(Sender, AnswerResultMsg(Rejected(r.message, r.questionId)))];
        return;
      }
      AcceptedKeepsStores(questions, answers, p, now);
      answers := answers + [r.stored];
      var payload := ReportOf(r.stored);
      outbox := outbox + [Emit(Sender, AnswerResultMsg(Graded(payload))), Emit(Room(p.roomId), AnswerUpdate(payload))];
    }
  }
}
