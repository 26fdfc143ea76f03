/**
 * How the server's messages land on the clients: a graded submission as the student's banner
 * and as the dashboard's counters, and a relayed focus report in the dashboard's focus map.
 */
module Flows {
  import opened Wrappers
  import opened Strings
  import opened QuestionModel
  import opened AnswerModel
  import opened Events
  import opened Classroom
  import opened Focus
  import opened DashboardStats
  import opened Dashboard
  import opened QuestionPopup

  /** The student's banner for an accepted submission follows the lock rule first and the
      correctness rule second. */
  lemma BannerForAccepted(questions: map<string, Question>, answers: seq<Answer>, p: AnswerSubmit, now: int)
    requires forall id :: id in questions ==> questions[id].id == id
    requires JudgeSubmission(questions, answers, p, now).Accepted?
    ensures var q := questions[p.questionId];
            var e := SubmitEmits(p, JudgeSubmission(questions, answers, p, now));
            && e[0].target == Sender && e[0].msg.AnswerResultMsg?
            && ResultMessage(Some(View(q)), Some(e[0].msg.result)) ==
                 Some(if now > q.endsAt then LockedMessage
                      else if NormalizeOneWord(p.answer) == NormalizeOneWord(q.correctAnswer) then CorrectMessage
                      else IncorrectMessage)
  {
    AcceptedGrading(questions, answers, p, now);
  }

  /** The room's copy of an accepted submission raises that question's `total` exactly when
      it was on time and its `correct` exactly when it was right. */
  lemma DashboardCountsAccepted(t: seq<Slot>, questions: map<string, Question>, answers: seq<Answer>,
                                p: AnswerSubmit, now: int)
    requires JudgeSubmission(questions, answers, p, now).Accepted?
    ensures var q := questions[p.questionId];
            var e := SubmitEmits(p, JudgeSubmission(questions, answers, p, now));
            var before := Lookup(t, p.questionId).GetOr(NoStats);
            && e[1] == Emit(Room(p.roomId), e[1].msg) && e[1].msg.AnswerUpdate?
            && var after := Lookup(OnAnswerUpdate(t, e[1].msg.report), p.questionId).value;
               && after.total == before.total + (if now > q.endsAt then 0 else 1)
               && after.correct == before.correct +
                    (if NormalizeOneWord(p.answer) == NormalizeOneWord(q.correctAnswer) then 1 else 0)
  {
    AcceptedGrading(questions, answers, p, now);
  }

  /** A relayed focus report becomes the dashboard's entry for that student. */
  lemma RelayedFocusRecorded(d: FocusUpdate, focus: map<string, FocusEntry>, now: int)
    requires FocusRelay(d) != []
    ensures var m := FocusRelay(d)[0].msg;
            m.FocusReceiveMsg? && OnFocusReceive(focus, m.receive, now)[d.studentId] == FocusEntry(d.status, now)
  {
  }
}
