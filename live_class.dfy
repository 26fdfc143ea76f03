/**
 * The student's live-class page: the session it belongs to, the focus reports it forwards,
 * the current question and result, and the answers it submits. The signed-in user and the
 * session code are fixed for the lifetime of the page; `""` stands for an absent code.
 */
module LiveClass {
  import opened Wrappers
  import opened Events

  const Calibrating := "CALIBRATING"

  /** The signed-in student; the display name is the full name, else the first name. */
  datatype Student = Student(id: string, fullName: string, firstName: string)

  function StudentName(u: Student): (n: string)
    ensures u.fullName != "" ==> n == u.fullName
    ensures u.fullName == "" ==> n == u.firstName
  {
    if u.fullName != "" then u.fullName else u.firstName
  }

  /** The session code: the one handed over on navigation, else the one kept in session
      storage. */
  function ChooseSessionCode(navigationCode: string, storedCode: string): (c: string)
    ensures navigationCode != "" ==> c == navigationCode
    ensures navigationCode == "" ==> c == storedCode
  {
    if navigationCode != "" then navigationCode else storedCode
  }

  /** The statuses carried by the `focus:update` messages among `sent`, in order. */
  function FocusStatuses(sent: seq<Message>): seq<string> {
    if sent == [] then []
    else
      var last := sent[|sent| - 1];
      FocusStatuses(sent[..|sent| - 1]) + (if last.FocusUpdateMsg? then [last.focus.status] else [])
  }

  /** No two consecutive statuses are equal. */
  predicate NoRepeats(xs: seq<string>) {
    forall i :: 0 < i < |xs| ==> xs[i - 1] != xs[i]
  }

  lemma FocusStatusesSnoc(sent: seq<Message>, m: Message)
    ensures FocusStatuses(sent + [m]) == FocusStatuses(sent) + (if m.FocusUpdateMsg? then [m.focus.status] else [])
  {
    assert (sent + [m])[..|sent|] == sent;
  }

  class LiveClassPage {
    const sessionCode: string
    const user: Option<Student>
    var focusStatus: string
    var lastSentStatus: string
    var question: Option<QuestionNew>
    var result: Option<AnswerResult>
    /** Messages emitted to the server, in order. */
    var sent: seq<Message>

    predicate CanEmit()
      reads this
    {
      sessionCode != "" && user.Some?
    }

    ghost predicate Valid()
      reads this
    {
      var statuses := FocusStatuses(sent);
      && focusStatus == lastSentStatus
      && NoRepeats(statuses)
      && (!CanEmit() ==> statuses == [])
      && (CanEmit() && statuses == [] ==> lastSentStatus == Calibrating)
      && (statuses != [] ==> statuses[|statuses| - 1] == lastSentStatus && statuses[0] != Calibrating)
    }

    constructor (navigationCode: string, storedCode: string, user: Option<Student>)
      ensures Valid()
      ensures sessionCode == ChooseSessionCode(navigationCode, storedCode) && this.user == user
      ensures focusStatus == Calibrating && lastSentStatus == Calibrating
      ensures question == None && result == None && sent == []
    {
      sessionCode := ChooseSessionCode(navigationCode, storedCode);
      this.user := user;
      focusStatus := Calibrating;
      lastSentStatus := Calibrating;
      question := None;
      result := None;
      sent := [];
    }

    /** The join effect: with a session and a user, join the room and announce presence. */
    method Join()
      requires Valid()
      modifies this
      ensures Valid()
      ensures sent == if !CanEmit() then old(sent)
                      else old(sent) + [JoinRoom(sessionCode),
                                        PresenceJoinMsg(PresenceJoin(sessionCode, user.value.id, StudentName(user.value)))]
      ensures focusStatus == old(focusStatus) && lastSentStatus == old(lastSentStatus)
      ensures question == old(question) && result == old(result)
    {
      if sessionCode == "" || user.None? {
        return;
      }
      FocusStatusesSnoc(sent, JoinRoom(sessionCode));
      var presence := PresenceJoinMsg(PresenceJoin(sessionCode, user.value.id, StudentName(user.value)));
      FocusStatusesSnoc(sent + [JoinRoom(sessionCode)], presence);
      assert sent + [JoinRoom(sessionCode), presence] == (sent + [JoinRoom(sessionCode)]) + [presence];
      sent := sent + [JoinRoom(sessionCode), presence];
    }

    /** `question:new`: the new question replaces the current one and the result is cleared. */
    method QuestionNewHandler(q: QuestionNew)
      requires Valid()
      modifies this
      ensures Valid()
      ensures question == Some(q) && result == None
      ensures focusStatus == old(focusStatus) && lastSentStatus == old(lastSentStatus) && sent == old(sent)
    {
      question := Some(q);
      result := None;
    }

    method AnswerResultHandler(r: AnswerResult)
      requires Valid()
      modifies this
      ensures Valid()
      ensures result == Some(r) && question == old(question)
      ensures focusStatus == old(focusStatus) && lastSentStatus == old(lastSentStatus) && sent == old(sent)
    {
      result := Some(r);
    }

    /** `handleFocusUpdate`: a report equal to the last one is ignored; a new one is recorded and
        forwarded when there is a session and a user. */
    method HandleFocusUpdate(newStatus: string)
      requires Valid()
      modifies this
      ensures Valid()
      ensures newStatus == old(lastSentStatus) ==>
                focusStatus == old(focusStatus) && lastSentStatus == old(lastSentStatus) && sent == old(sent)
      ensures newStatus != old(lastSentStatus) ==>
                && focusStatus == newStatus && lastSentStatus == newStatus
                && sent == if CanEmit() then old(sent) + [FocusUpdateMsg(FocusUpdate(sessionCode, user.value.id, newStatus))]
                           else old(sent)
      ensures question == old(question) && result == old(result)
    {
      if newStatus == lastSentStatus {
        return;
      }
      focusStatus := newStatus;
      lastSentStatus := newStatus;
      if sessionCode == "" || user.None? {
        return;
      }
      var m := FocusUpdateMsg(FocusUpdate(sessionCode, user.value.id, newStatus));
      FocusStatusesSnoc(sent, m);
      sent := sent + [m];
    }

    /** `submitAnswer`: nothing without a question, a session or a user; otherwise one
        `answer:submit` for the current question. */
    method SubmitAnswer(answer: string)
      requires Valid()
      modifies this
      ensures Valid()
      ensures sent == if question.None? || !CanEmit() then old(sent)
                      else old(sent) + [AnswerSubmitMsg(AnswerSubmit(sessionCode, question.value.id, user.value.id,
                                                                     StudentName(user.value), answer))]
      ensures focusStatus == old(focusStatus) && lastSentStatus == old(lastSentStatus)
      ensures question == old(question) && result == old(result)
    {
      if question.None? || sessionCode == "" || user.None? {
        return;
      }
      var m := AnswerSubmitMsg(AnswerSubmit(sessionCode, question.value.id, user.value.id, StudentName(user.value), answer));
      FocusStatusesSnoc(sent, m);
      sent := sent + [m];
    }
  }
}
