/** The socket events exchanged between the clients and the server, with their payloads.
    A string field that the sender leaves out (undefined or null) is "" here: every reader
    of these fields tests them only for truthiness or passes them on. Times are milliseconds
    since the epoch. */
module Events {
  import opened QuestionModel

  /** `question:send`, teacher to server. */
  datatype QuestionSend = QuestionSend(
    roomId: string,
    teacherId: string,
    questionText: string,
    qtype: string,
    options: seq<string>,
    correctAnswer: string,
    durationSec: int)

  /** `question:new`, server to the room: the stored question minus its correct answer. */
  datatype QuestionNew = QuestionNew(
    id: string,
    questionText: string,
    qtype: QuestionType,
    options: seq<string>,
    durationSec: int,
    sentAt: int,
    endsAt: int)

  /** `answer:submit`, student to server. */
  datatype AnswerSubmit = AnswerSubmit(
    roomId: string,
    questionId: string,
    studentId: string,
    studentName: string,
    answer: string)

  /** The payload of a graded submission: sent to the submitter as `answer:result` and to the
      room as `answer:update`. */
  datatype AnswerReport = AnswerReport(
    ok: bool,
    locked: bool,
    questionId: string,
    studentId: string,
    studentName: string,
    answer: string,
    isCorrect: bool,
    responseTimeMs: int,
    answeredAt: int)

  /** The refusals the server sends back to the sender. Each is carried on the wire as the
      `message` string `RefusalText` gives. */
  datatype Refusal =
    | MissingFields | OptionsOneWord | EmptyAnswer | OneWordOnly | NotInOptions
    | SendFailed | QuestionNotFound | AlreadySubmitted

  /** The exact text of each refusal. */
  function RefusalText(m: Refusal): (t: string)
    ensures t != ""
  {
    match m
    case MissingFields => "Missing required fields."
    case OptionsOneWord => "MCQ options must be one word."
    case EmptyAnswer => "Empty answer"
    case OneWordOnly => "One word only"
    case NotInOptions => "Answer not in options"
    case SendFailed => "Failed to send question."
    case QuestionNotFound => "Question not found."
    case AlreadySubmitted => "Answer already submitted."
  }

  /** Different refusals read differently, so a client can tell them apart by the text alone. */
  lemma RefusalTextInjective(a: Refusal, b: Refusal)
    ensures RefusalText(a) == RefusalText(b) ==> a == b
  {
    var ta, tb := RefusalText(a), RefusalText(b);
    assert ta == tb ==> |ta| == |tb| && ta[0] == tb[0] && ta[1] == tb[1];
  }

  /** `answer:result`: a graded report, or a refusal `{ok: false, message, questionId?}`
      ("" when the refusal carries no questionId). */
  datatype AnswerResult =
    | Graded(report: AnswerReport)
    | Rejected(message: Refusal, questionId: string)

  /** The `questionId` field of an `answer:result` payload ("" when it has none). */
  function ResultQuestionId(r: AnswerResult): string {
    match r
    case Graded(rep) => rep.questionId
    case Rejected(_, qid) => qid
  }

  /** `presence:join`, student to server. */
  datatype PresenceJoin = PresenceJoin(roomId: string, studentId: string, studentName: string)

  /** `presence:update`, server to the room. */
  datatype PresenceUpdate = PresenceUpdate(studentId: string, studentName: string, status: string, at: int)

  /** `focus:update`, student to server; the status is not restricted to any set of values. */
  datatype FocusUpdate = FocusUpdate(roomId: string, studentId: string, status: string)

  /** `focus:receive`, server to the room. */
  datatype FocusReceive = FocusReceive(studentId: string, status: string)

  /** One socket message, named by the event it travels under. */
  datatype Message =
    | JoinRoom(roomId: string)
    | QuestionSendMsg(send: QuestionSend)
    | QuestionError(message: Refusal)
    | QuestionNewMsg(question: QuestionNew)
    | AnswerSubmitMsg(submit: AnswerSubmit)
    | AnswerResultMsg(result: AnswerResult)
    | AnswerUpdate(report: AnswerReport)
    | PresenceJoinMsg(join: PresenceJoin)
    | PresenceUpdateMsg(update: PresenceUpdate)
    | FocusUpdateMsg(focus: FocusUpdate)
    | FocusReceiveMsg(receive: FocusReceive)

  /** The event name each message is emitted under. */
  function EventName(m: Message): string {
    match m
    case JoinRoom(_) => "join-room"
    case QuestionSendMsg(_) => "question:send"
    case QuestionError(_) => "question:error"
    case QuestionNewMsg(_) => "question:new"
    case AnswerSubmitMsg(_) => "answer:submit"
    case AnswerResultMsg(_) => "answer:result"
    case AnswerUpdate(_) => "answer:update"
    case PresenceJoinMsg(_) => "presence:join"
    case PresenceUpdateMsg(_) => "presence:update"
    case FocusUpdateMsg(_) => "focus:update"
    case FocusReceiveMsg(_) => "focus:receive"
  }

  /** Where the server sends a message: back to the socket that sent the event
      (`socket.emit`), or to every socket in a room (`io.to(room).emit`). */
  datatype Target = Sender | Room(roomId: string)

  /** One server-side emit. */
  datatype Emit = Emit(target: Target, msg: Message)
}
