# FocusAI live classroom — a Dafny model

FocusAI runs a live class: a teacher opens a session and gets a short code, students join
with it, a focus detector on each student's page reports FOCUSED / DISTRACTED, and the teacher
sends timed quiz questions (MCQ, or one-word "MANUAL" answers). The server checks, grades and
stores every answer, tells the student how it went and tells the room, and the teacher's
dashboard keeps live counters, a focus rate, a class history and a top-five leaderboard.

This project models that core and proves what it promises:

- **Server quiz engine** (`classroom.dfy`): answer normalisation (`trim` then `toLowerCase`),
  the shape check of an answer (blank, then internal whitespace, then MCQ membership), and the
  three socket handlers `presence:join`, `question:send` and `answer:submit`. `QuizEngine` is a
  class holding the Question collection (a map keyed by the assigned id), the Answer collection
  (a sequence) and an outbox of emitted messages. Each handler is proved against a pure decision
  function (`PrepareQuestion`, `JudgeSubmission`), and every handler keeps the stores
  consistent: each question well formed under its own id, each answer graded against its
  question at its arrival time, at most one answer per (question, student).
- **Record schemas** (`question_model.dfy`, `answer_model.dfy`, `session_model.dfy`): the
  required fields, enums and defaults that `create` / `save` apply.
- **Server helpers** (`server.dfy`): the allowed-origins list, the session code, and the
  create-session / join-session endpoints over a session store keyed by code.
- **Focus relay** (`focus.dfy`): `focus:update` forwarded to the room as `focus:receive`.
- **Socket messages** (`events.dfy`): every payload, and the refusal texts as an enumeration
  whose texts are pairwise different.
- **Teacher dashboard** (`dashboard.dfy`, `dashboard_stats.dfy`, `standings.dfy`): the
  presence and focus upserts, the per-question counters kept in JavaScript object key order
  (an association list), the focus rate, the history of ended classes, and the leaderboard,
  computed by the same nested loops as the source and proved equal to a stable sort of the
  tally.
- **Question form and statistics** (`live_panel.dfy`): the form's state and submission, and
  the "not answered / wrong / average time" figures.
- **Student side** (`live_class.dfy`, `question_popup.dfy`, `timer.dfy`): the live-class page
  (join, focus forwarding with repeats suppressed, answer submission), the popup's submit rule
  and banner, and the countdown with its `mm:ss` rendering.
- **Peer grid** (`classroom_grid.dfy`): the peer lists kept by the video grid under the
  signalling events.
- `flows.dfy` connects server and clients: the banner a student sees and the counters a teacher
  sees for an accepted submission, and the focus entry a relayed report becomes.
- `strings.dfy`, `arith.dfy` and `wrappers.dfy` hold the JavaScript string primitives, a few
  facts about integer division, and `Option`.

Conventions. A string field that a sender leaves out (undefined or null) is `""`, since the
code only checks such fields for truthiness. Times are integer milliseconds; `now` is a
parameter wherever the code reads the clock, and the identifier a store assigns, the random
rendering behind a session code and a history entry's id are parameters too. A zero or NaN
`durationSec` is `0`.

Behaviour of the code worth knowing:

- `durationSec` is only checked for truthiness, so a negative duration is accepted and gives a
  deadline in the past.
- The deadline is `sentAt + durationSec * 1000`: times are milliseconds.
- `answer:submit` never checks that the question belongs to the room named in the payload; the
  answer is stored under the payload's room and broadcast to it.
- Nothing keeps at most one question ACTIVE: every created question is ACTIVE and stays so.
- The free-text type is called `MANUAL`.
- The stored correct answer is trimmed but keeps its case; only the comparison lower-cases.
- Focus statuses are relayed whatever their value, as long as they are non-empty.
- Room broadcasts (`io.to(room)`) reach the sender too, when it has joined the room.
- Leaderboard ties keep first-seen order over the slots in key order with each slot's reports
  newest first.

Behaviour the proofs bring out (each stated by the member named):

- A refusal that names the question on screen is shown as "Incorrect. Keep going."
  (`QuestionPopup.RefusalShownAsIncorrect`).
- A late answer counts in `correct` but not in `total`, so "Wrong" can go below zero
  (`LivePanel.WrongGoesNegative`). It cannot while no late answer was correct
  (`LivePanel.WrongNonNegative`).
- The focus rate can exceed 100 when focus reports arrive from ids that are not on the roster.
  (`Dashboard.FocusRateCanExceed100`). It is at most 100 when they are all on it
  (`Dashboard.DashboardState.CurrentFocusRate`).
- A peer that sends two offers gets two entries, and `user-left` destroys only the first
  connection while it removes both entries (`ClassroomGrid.LeaveDestroysOnlyFirst`).
- `CLIENT_ORIGINS` made only of commas and blanks allows no origin at all
  (`Server.BlankOriginsAllowNone`).
- A random rendering shorter than eight characters gives a session code shorter than six
  (`Server.ShortRenderingShortCode`).
- A countdown without `endsAt` never completes, so its popup never locks
  (`Timer.Countdown.constructor`, `Timer.Countdown.Rerun`).

## Model

| member | source | states |
|---|---|---|
| Classroom.NormalizeOneWord | server/sockets/classroom.js:4-7 | the comparison form is trimmed, already lower-case, no longer than the input, empty exactly when the input is all whitespace, and the lower-cased input itself when the input is already trimmed |
| Classroom.NormalizeComparesLetters | server/sockets/classroom.js:4-7 | two trimmed answers have the same comparison form exactly when they agree up to letter case |
| Classroom.NormalizeIdempotent | server/sockets/classroom.js:4-7 | normalising a normalised answer changes nothing |
| Classroom.NormalizeIgnoresPaddingAndCase | server/sockets/classroom.js:4-7 | surrounding whitespace and upper-casing do not change the comparison form |
| Classroom.ValidateAnswerShape | server/sockets/classroom.js:9-20 | each of the three refusals, and acceptance, happens exactly under its condition, in the source's order; an accepted answer is the trimmed text, non-empty, case kept |
| Classroom.ValidateAcceptedAgain | server/sockets/classroom.js:9-20 | an accepted (trimmed) answer passes the check again unchanged |
| Classroom.MissingQuestionFields | server/sockets/classroom.js:46-49 | the first guard: a room, teacher, text or type that is empty, or a duration of 0; PrepareQuestionOutcome states that exactly these payloads get "Missing required fields." before any other check |
| Classroom.PrepareQuestion | server/sockets/classroom.js:73-89 | a created question carries the identifier the store assigned and the send time |
| Classroom.PrepareQuestionOutcome | server/sockets/classroom.js:46-86 | which payloads are refused with which message, in order (missing fields, MCQ option with a space, shape refusal, schema failure), when a question is created, and that it holds the cleaned text, options and answer, the duration and the deadline `now + durationSec * 1000`, and is well formed |
| Classroom.View | server/sockets/classroom.js:88-96 | the broadcast payload carries every field of the question except its correct answer |
| Classroom.ViewHidesCorrectAnswer | server/sockets/classroom.js:88-96 | two questions that differ only in the correct answer are announced identically |
| Classroom.SendEmits | server/sockets/classroom.js:46-100 | exactly one message: the question to the room, or the refusal to the sender |
| Classroom.NonNegative | server/sockets/classroom.js:150-153 | `Math.max(0, x)` is at least `x` and at least 0, and equals `x` when `x` is not negative |
| Classroom.FindAnswer | server/sockets/classroom.js:155 | an answer is found exactly when one is stored for the pair, and it is one of the stored answers for that pair |
| Classroom.ReportOf | server/sockets/classroom.js:177-187 | the result payload copies the stored answer, with `ok` the negation of `locked` |
| Classroom.JudgeSubmission | server/sockets/classroom.js:103-175 | an accepted answer is for the payload's question and student, and no answer for that pair was stored before |
| Classroom.JudgeSubmissionOutcome | server/sockets/classroom.js:113-175 | which submissions are refused with which message, in order (missing fields, unknown question, shape refusal, duplicate), acceptance exactly when the shape is fine and the pair is unanswered, and the stored answer: cleaned text, graded against the question at `now`, under the payload's room, question, student and name |
| Classroom.SubmitEmits | server/sockets/classroom.js:113-190 | a refusal goes to the sender only; an accepted answer's report goes to the sender as `answer:result` and to the room as `answer:update` |
| Classroom.AppendKeepsPairsUnique | server/sockets/classroom.js:155-175 | storing an answer for an unanswered pair keeps one answer per pair |
| Classroom.AcceptedKeepsPairsUnique | server/sockets/classroom.js:155-175 | storing an accepted answer keeps one answer per pair |
| Classroom.SecondSubmissionRefused | server/sockets/classroom.js:155-163 | once a pair is answered, any later well-shaped submission for it is refused as already submitted, whatever its text and time |
| Classroom.GradedAgainst | server/sockets/classroom.js:130-153 | the grading of a stored answer against its question: answered now, locked iff now is after `endsAt`, correct iff the comparison forms agree, response time `max(0, now - sentAt)`; JudgeSubmissionOutcome and AcceptedAnswerStored state that every accepted answer satisfies it |
| Classroom.AcceptedGrading | server/sockets/classroom.js:130-153 | an accepted answer is locked exactly when it arrives after `endsAt`, correct exactly when its comparison form equals the correct answer's, `ok` exactly when on time, and its response time is at least 0 and at least `now - sentAt` |
| Classroom.PresenceJoinEmits | server/sockets/classroom.js:23-32 | nothing without a room or a student; otherwise one JOINED update to the room |
| Classroom.CreatedKeepsStores | server/sockets/classroom.js:76-86 | storing a well-formed question under a fresh id keeps the stores consistent |
| Classroom.SendKeepsStores | server/sockets/classroom.js:73-86 | what `question:send` creates can be stored under its fresh id with the stores kept consistent |
| Classroom.AcceptedAnswerStored | server/sockets/classroom.js:165-175 | an accepted answer names a stored question, a student and a room, and is graded against that question |
| Classroom.AppendKeepsStores | server/sockets/classroom.js:165-175 | appending such an answer for an unanswered pair keeps the stores consistent |
| Classroom.AcceptedKeepsStores | server/sockets/classroom.js:155-175 | storing an accepted answer keeps the stores consistent |
| Classroom.QuizEngine.constructor | server/sockets/classroom.js:22 | the engine starts with empty collections and nothing emitted |
| Classroom.QuizEngine.PresenceJoinHandler | server/sockets/classroom.js:23-32 | the stores are unchanged and the emits are appended to the outbox |
| Classroom.QuizEngine.SendQuestion | server/sockets/classroom.js:34-101 | the question map gains the created question under its id or stays as it was, the answers are unchanged, the emits are appended, and the stores stay consistent |
| Classroom.QuizEngine.SubmitAnswer | server/sockets/classroom.js:103-198 | the answers gain the accepted answer at the end or stay as they were, the questions are unchanged, the emits are appended, and the stores stay consistent |
| QuestionModel.ParseType | server/models/Question.js:8 | only "MCQ" and "MANUAL" are accepted, and each reads back as its own spelling |
| QuestionModel.ParseTypeName | server/models/Question.js:8 | every type's spelling parses back to that type |
| QuestionModel.CreateQuestion | server/models/Question.js:3-17 | creation succeeds exactly when the required strings are non-empty and the type is in the enum; the record copies the fields, options default to [] and status to ACTIVE |
| AnswerModel.CreateAnswer | server/models/Answer.js:3-21 | creation succeeds exactly when the required strings are non-empty; the record copies the fields, name defaults to "", `isCorrect` and `locked` to false |
| SessionModel.NewSession | server/models/Session.js:3-9 | a new session has the code, the teacher and the current time, no participants, and is active |
| Events.RefusalText | server/sockets/classroom.js:47-162 | every refusal is sent with a non-empty text |
| Events.RefusalTextInjective | server/sockets/classroom.js:47-162 | different refusals have different texts |
| Focus.FocusRelay | server/sockets/focus.js:2-6 | nothing is emitted exactly when the room, the student or the status is empty; otherwise one `focus:receive` with the student and status goes to that room |
| Server.ParseOrigins | server/index.js:15-19 | every parsed origin is non-empty, trimmed and comma-free, and an origin is listed exactly when some comma-separated piece trims to it |
| Server.ParseJoinedOrigins | server/index.js:15-19 | joining clean origins with commas and parsing gives them back |
| Server.BlankOriginsAllowNone | server/index.js:15-23 | a variable of only commas and blanks allows no origin |
| Server.AllowedOrigins | server/index.js:21-23 | an unset or empty variable gives the two local origins; otherwise the parsed list |
| Server.Substring | server/index.js:68 | `substring` clamps both ends to the string |
| Server.ShortRenderingShortCode | server/index.js:68 | the code's length is the rendering's length less two, clamped to 0..6: shorter than six below eight characters |
| Server.SessionCode | server/index.js:68 | the code is at most six characters, upper-case, and exactly six when the rendering has at least eight |
| Server.AddParticipant | server/index.js:86-89 | the student is listed afterwards, nobody is dropped, and a new student goes last |
| Server.AddParticipantLaws | server/index.js:86-89 | the roster never lists anyone twice, and joining twice is joining once |
| Server.SessionStore.constructor | server/models/Session.js:3-9 | the store starts empty |
| Server.SessionStore.CreateSession | server/index.js:65-75 | a missing teacher, an empty code or a taken code fails and changes nothing; otherwise the new session is stored under its code |
| Server.SessionStore.JoinSession | server/index.js:77-94 | no code is an error; an unknown upper-cased code is "Session not found"; a known one gains the student once and answers with its stored code |
| Strings.Trim | server/sockets/classroom.js:10 | the result is trimmed and is the slice between the leading and the trailing whitespace |
| Strings.TrimEmptyIffAllSpace | server/sockets/classroom.js:10-11 | a string trims to "" exactly when it is all whitespace |
| Strings.TrimUnique | server/sockets/classroom.js:10 | any trimmed slice with only whitespace around it is what the string trims to |
| Strings.TrimOfTrimmed | server/sockets/classroom.js:10 | a trimmed string trims to itself |
| Strings.TrimIdempotent | server/sockets/classroom.js:10 | trimming twice is trimming once |
| Strings.TrimPadded | server/sockets/classroom.js:4-7 | whitespace around a string does not change what it trims to |
| Strings.ToLower | server/sockets/classroom.js:7 | same length, each character lower-cased |
| Strings.ToUpper | server/index.js:68 | same length, each character upper-cased |
| Strings.ToLowerIdempotent | server/sockets/classroom.js:7 | lower-casing twice is lower-casing once |
| Strings.ToUpperIdempotent | server/index.js:80 | upper-casing twice is upper-casing once |
| Strings.ToLowerKeepsTrimmed | server/sockets/classroom.js:4-7 | lower-casing keeps a trimmed string trimmed |
| Strings.TrimToLower | server/sockets/classroom.js:4-7 | lower-casing commutes with trimming |
| Strings.ToLowerToUpper | server/sockets/classroom.js:4-7 | lower-casing after upper-casing is plain lower-casing |
| Strings.ToLowerKeepsSpaces | server/sockets/classroom.js:12 | a string has whitespace exactly when its lower-cased form has |
| Strings.Prefix | client/src/pages/Teacher/Dashboard.jsx:39 | `slice(0, n)` has `min(n, length)` characters and is a prefix |
| Strings.IndexOf | server/index.js:17 | the position found holds the separator and no earlier one does |
| Strings.Split | server/index.js:17 | at least one piece, and no piece contains the separator |
| Strings.JoinSplit | server/index.js:15-19 | joining the pieces of a split gives back the text |
| Strings.SplitJoin | server/index.js:15-19 | splitting separator-free pieces joined with it gives back the pieces |
| Strings.NatToDigits | client/src/components/Timer.jsx:5-8 | `toString()` of a count is decimal digits without a leading zero |
| Strings.DigitsRoundTrip | client/src/components/Timer.jsx:5-8 | reading back the digits of a count gives the count |
| Strings.LeadingZeros | client/src/components/Timer.jsx:5-8 | leading zeros do not change a digit string's value |
| Strings.PadStartZero | client/src/components/Timer.jsx:7 | `padStart(width, "0")` reaches the width, ends with the original and is zeros before it |
| Strings.TrimNonBlank | server/sockets/classroom.js:53-55 | at most as many elements, each non-empty and trimmed |
| Strings.TrimNonBlankMembers | server/sockets/classroom.js:53-55 | an element is kept exactly when it is the non-empty trim of some original |
| Strings.TrimNonBlankOfClean | server/index.js:15-19 | clean elements are kept as they are |
| Strings.TrimKeepsAbsent | server/index.js:18 | trimming never introduces a character |
| DashboardStats.SlotIndex | client/src/pages/Teacher/Dashboard.jsx:62 | the slot found holds the key and no earlier slot does |
| DashboardStats.Lookup | client/src/pages/Teacher/Dashboard.jsx:62 | absent exactly when no slot has the key; a value found is some slot's under that key |
| DashboardStats.Put | client/src/pages/Teacher/Dashboard.jsx:67-74 | the key then maps to the new counters, every other key keeps its value, keys stay distinct, an existing key keeps its place and a new key goes last |
| DashboardStats.Counted | client/src/pages/Teacher/Dashboard.jsx:62-73 | one question's counters with a report added; OnAnswerUpdateConsistent states that it keeps `total` equal to the on-time reports and `correct` equal to the correct ones |
| DashboardStats.OnAnswerUpdate | client/src/pages/Teacher/Dashboard.jsx:60-76 | the question's counters gain one on-time answer unless locked, one correct answer if correct, and the report at the front; every other question is unchanged |
| DashboardStats.CountOnTime | client/src/pages/Teacher/Dashboard.jsx:70 | no more on-time reports than reports |
| DashboardStats.CountCorrect | client/src/pages/Teacher/Dashboard.jsx:71 | no more correct reports than reports |
| DashboardStats.OnAnswerUpdateConsistent | client/src/pages/Teacher/Dashboard.jsx:60-76 | the counters of every question keep agreeing with the reports they hold |
| DashboardStats.SumTotalsCountsOnTime | client/src/pages/Teacher/Dashboard.jsx:164-167 | the sum of the totals is the number of on-time reports received |
| DashboardStats.Flatten | client/src/pages/Teacher/Dashboard.jsx:94-95 | every report, question by question in key order and newest first within a question, the order the leaderboard's nested loops visit them; SumTotalsCountsOnTime and BoardFacts are stated over it |
| DashboardStats.SumTotals | client/src/pages/Teacher/Dashboard.jsx:164-167 | the `answersReceived` sum of the per-question totals; SumTotalsCountsOnTime states that it is the number of on-time reports |
| Standings.Points | client/src/pages/Teacher/Dashboard.jsx:102 | 10 exactly when correct, 2 exactly when not |
| Standings.DisplayName | client/src/pages/Teacher/Dashboard.jsx:99 | the report's name, or the first six characters of the id |
| Standings.IndexOfId | client/src/pages/Teacher/Dashboard.jsx:97 | the entry found has the id and no earlier one does |
| Standings.Tally | client/src/pages/Teacher/Dashboard.jsx:93-104 | the scores have distinct, non-empty ids |
| Standings.TallyScores | client/src/pages/Teacher/Dashboard.jsx:93-104 | a student is listed exactly when they earned points, with exactly the points they earned |
| Standings.Insert | client/src/pages/Teacher/Dashboard.jsx:105 | inserting adds one entry |
| Standings.InsertPermutes | client/src/pages/Teacher/Dashboard.jsx:105 | inserting adds exactly that entry |
| Standings.InsertSorted | client/src/pages/Teacher/Dashboard.jsx:105 | inserting into a descending list keeps it descending |
| Standings.InsertIndex | client/src/pages/Teacher/Dashboard.jsx:105 | the entries before the insertion point stay, the new entry follows, the rest shift by one |
| Standings.InsertDistinct | client/src/pages/Teacher/Dashboard.jsx:105 | inserting a new id keeps the ids distinct |
| Standings.SortDesc | client/src/pages/Teacher/Dashboard.jsx:105 | the sort keeps the length and orders by descending score |
| Standings.SortPermutes | client/src/pages/Teacher/Dashboard.jsx:105 | the sort is a permutation |
| Standings.InsertStable | client/src/pages/Teacher/Dashboard.jsx:105 | inserting keeps the order of equal scores, the new entry after them |
| Standings.SortStable | client/src/pages/Teacher/Dashboard.jsx:105 | among equal scores the sort keeps the original order |
| Standings.SortKeepsDistinct | client/src/pages/Teacher/Dashboard.jsx:105 | sorting keeps the ids distinct |
| Standings.Top5 | client/src/pages/Teacher/Dashboard.jsx:105 | `slice(0, 5)` is a prefix of at most five, all of the list when it is shorter |
| Standings.BoardFacts | client/src/pages/Teacher/Dashboard.jsx:92-106 | at most five entries, descending, distinct ids, each a student's full positive points, and nobody left off outscores anyone on it |
| Standings.CreditReport | client/src/pages/Teacher/Dashboard.jsx:96-102 | the loop body credits one report exactly as the tally does |
| Standings.Credit | client/src/pages/Teacher/Dashboard.jsx:96-102 | one report credited to the scores: skipped when locked or without a student, a new student added last with 0, then 10 or 2 points; CreditReport states the loop body does exactly this and TallyScores gives the resulting totals |
| Standings.Board | client/src/pages/Teacher/Dashboard.jsx:92-106 | the leaderboard as a function of the answer slots (tally, stable descending sort, first five); BoardFacts states its order, bound and scores, and Leaderboard states that the nested loops compute it |
| Standings.Leaderboard | client/src/pages/Teacher/Dashboard.jsx:92-106 | the nested loops, the sort and the cut compute the leaderboard of all received reports |
| Dashboard.OnPresenceUpdate | client/src/pages/Teacher/Dashboard.jsx:35-44 | the student's entry gets the status, time and name (the id's first six characters without a name); every other entry is unchanged |
| Dashboard.OnFocusReceive | client/src/pages/Teacher/Dashboard.jsx:46-54 | the student's entry becomes the status stamped with the arrival time; every other entry is unchanged |
| Dashboard.UpsertIdempotent | client/src/pages/Teacher/Dashboard.jsx:35-44 | repeating a presence update changes nothing |
| Dashboard.UpsertSize | client/src/pages/Teacher/Dashboard.jsx:35-44 | the roster grows by one exactly when the student is new |
| Dashboard.FocusedIds | client/src/pages/Teacher/Dashboard.jsx:85-87 | exactly the ids whose last status is FOCUSED |
| Dashboard.FocusRate | client/src/pages/Teacher/Dashboard.jsx:88-90 | 0 with no students; otherwise the integer nearest to 100·focused/active, halves up; at most 100 when focused ≤ active |
| Dashboard.FocusRateBounded | client/src/pages/Teacher/Dashboard.jsx:88-90 | the rounding bracket of the rate, and the bound 100 |
| Dashboard.FocusRateExtremes | client/src/pages/Teacher/Dashboard.jsx:88-90 | everyone focused gives 100, nobody focused gives 0 |
| Dashboard.FocusRateCanExceed100 | client/src/pages/Teacher/Dashboard.jsx:88-90 | more focused ids than students (by half a percent of the roster) give a rate above 100; one student and two focused ids give 200 |
| Dashboard.PushHistory | client/src/pages/Teacher/Dashboard.jsx:169 | the new entry first, then the old entries, at most twelve |
| Dashboard.PushAllNewestFirst | client/src/pages/Teacher/Dashboard.jsx:169 | after several ended classes the history is the entries newest first, then the older history, cut to twelve |
| Dashboard.DashboardState.constructor | client/src/pages/Teacher/Dashboard.jsx:16-29 | no session and no start time, empty rosters and counters, the saved history |
| Dashboard.DashboardState.ActiveStudents | client/src/pages/Teacher/Dashboard.jsx:84 | the number of students on the roster |
| Dashboard.DashboardState.CurrentFocusRate | client/src/pages/Teacher/Dashboard.jsx:84-90 | 0 with an empty roster, the rounding bracket otherwise, and at most 100 when every focused id is on the roster |
| Dashboard.DashboardState.PresenceUpdateHandler | client/src/pages/Teacher/Dashboard.jsx:35-44 | the roster is upserted and nothing else changes |
| Dashboard.DashboardState.FocusReceiveHandler | client/src/pages/Teacher/Dashboard.jsx:46-54 | the focus map is upserted and nothing else changes |
| Dashboard.DashboardState.QuestionNewHandler | client/src/pages/Teacher/Dashboard.jsx:56-58 | the new question goes first and nothing else changes |
| Dashboard.DashboardState.AnswerUpdateHandler | client/src/pages/Teacher/Dashboard.jsx:60-76 | the counters take the report, stay consistent, and nothing else changes |
| Dashboard.DashboardState.CreateClass | client/src/pages/Teacher/Dashboard.jsx:127-151 | with a user and a successful response a new class starts empty and joins its room; otherwise nothing changes |
| Dashboard.DashboardState.EndClass | client/src/pages/Teacher/Dashboard.jsx:153-174 | without a session nothing happens; otherwise the summary goes first in the history, its answer count is the number of on-time reports, and the session code and start time are cleared |
| Dashboard.DashboardState.SendQuestion | client/src/pages/Teacher/Dashboard.jsx:176-195 | with a session and a user the form's fields go to the server under them; otherwise nothing is sent |
| Dashboard.DashboardState.CurrentLeaderboard | client/src/pages/Teacher/Dashboard.jsx:92-106 | the leaderboard of the current counters |
| LivePanel.NumberOf | client/src/pages/Teacher/LivePanel.jsx:23-25 | decimal text reads as its value, negated after a minus sign |
| LivePanel.NumberOfDigits | client/src/pages/Teacher/LivePanel.jsx:23-25 | the decimal rendering of a count reads back as that count |
| LivePanel.SelectedDuration | client/src/pages/Teacher/LivePanel.jsx:23-25 | a non-empty custom timer overrides the preset |
| LivePanel.CustomTimerOverrides | client/src/pages/Teacher/LivePanel.jsx:23-25 | a custom timer of `n` seconds sends `n` whatever preset is selected |
| LivePanel.QuestionForm.constructor | client/src/pages/Teacher/LivePanel.jsx:15-20 | MCQ, empty texts, four blank options, 20 seconds, no custom timer |
| LivePanel.QuestionForm.SubmitQuestion | client/src/pages/Teacher/LivePanel.jsx:22-36 | the payload is the form's fields with the chosen duration; prompt, answer and options are cleared, type and timers kept |
| LivePanel.QuestionForm.EditOption | client/src/pages/Teacher/LivePanel.jsx:134-138 | only the edited option changes |
| LivePanel.QuestionForm.SelectPreset | client/src/pages/Teacher/LivePanel.jsx:159-164 | the preset shows as selected and is the duration sent |
| LivePanel.QuestionForm.SetCustomTimer | client/src/pages/Teacher/LivePanel.jsx:178 | the custom timer takes the typed text and the preset is kept |
| LivePanel.StatsFor | client/src/pages/Teacher/LivePanel.jsx:203-207 | the question's counters, or zero counters when it has none |
| LivePanel.NotAnswered | client/src/pages/Teacher/LivePanel.jsx:235 | students minus answers, never below zero |
| LivePanel.CorrectAtMostOnTime | client/src/pages/Teacher/LivePanel.jsx:237-238 | without a late correct report there are no more correct reports than on-time ones |
| LivePanel.WrongNonNegative | client/src/pages/Teacher/LivePanel.jsx:238 | "Wrong" is not negative while no late report was correct |
| LivePanel.Wrong | client/src/pages/Teacher/LivePanel.jsx:238 | "Wrong" as `total - correct`; WrongNonNegative states it is not negative while no late report was correct, and WrongGoesNegative that one late correct report makes it -1 |
| LivePanel.WrongGoesNegative | client/src/pages/Teacher/LivePanel.jsx:238 | one late correct report makes "Wrong" −1 |
| LivePanel.AvgMs | client/src/pages/Teacher/LivePanel.jsx:208-216 | 0 with no reports; otherwise the integer nearest to the mean response time, halves up |
| LivePanel.SumTimes | client/src/pages/Teacher/LivePanel.jsx:210-214 | the sum of the response times over every received report, locked ones included; SumTimesBounds states that it lies between count times the fastest and count times the slowest |
| LivePanel.SumTimesBounds | client/src/pages/Teacher/LivePanel.jsx:211-214 | the sum of times lies between count·fastest and count·slowest |
| LivePanel.AvgMsBetween | client/src/pages/Teacher/LivePanel.jsx:208-216 | the average lies between the fastest and the slowest response |
| LiveClass.StudentName | client/src/pages/Student/LiveClass.jsx:46 | the full name, else the first name |
| LiveClass.ChooseSessionCode | client/src/pages/Student/LiveClass.jsx:13-14 | the code handed over on navigation, else the stored one |
| LiveClass.LiveClassPage.constructor | client/src/pages/Student/LiveClass.jsx:13-19 | the chosen code, CALIBRATING, no question or result, nothing sent |
| LiveClass.LiveClassPage.Join | client/src/pages/Student/LiveClass.jsx:40-48 | with a session and a user, join the room and announce presence; otherwise nothing |
| LiveClass.LiveClassPage.QuestionNewHandler | client/src/pages/Student/LiveClass.jsx:25-28 | the new question replaces the old and the result is cleared |
| LiveClass.LiveClassPage.AnswerResultHandler | client/src/pages/Student/LiveClass.jsx:30-32 | the result is recorded |
| LiveClass.LiveClassPage.HandleFocusUpdate | client/src/pages/Student/LiveClass.jsx:50-60 | a repeated status is ignored; a new one is recorded and forwarded with a session and a user; the forwarded statuses never repeat consecutively and never start with CALIBRATING |
| LiveClass.LiveClassPage.SubmitAnswer | client/src/pages/Student/LiveClass.jsx:62-71 | with a question, a session and a user, one `answer:submit` for that question; otherwise nothing |
| QuestionPopup.ResultMessage | client/src/pages/Student/QuestionPopup.jsx:71-86 | a banner only for a result about the question on screen; locked first, then correct, then incorrect |
| QuestionPopup.RefusalShownAsIncorrect | client/src/pages/Student/QuestionPopup.jsx:71-86 | a refusal about the question on screen shows the incorrect banner |
| QuestionPopup.LockedWinsOverCorrect | client/src/pages/Student/QuestionPopup.jsx:81-85 | a late correct answer shows the locked banner |
| QuestionPopup.Popup.constructor | client/src/pages/Student/QuestionPopup.jsx:5-6 | no answer yet, not locked |
| QuestionPopup.Popup.CanSubmit | client/src/pages/Student/QuestionPopup.jsx:16-19 | `submit` hands an answer on: a question is shown, the popup is not locked and the answer is not blank; Submit states that it hands on the trimmed answer exactly then, and ButtonDisabled that the button is disabled exactly otherwise |
| QuestionPopup.Popup.ButtonDisabled | client/src/pages/Student/QuestionPopup.jsx:65 | the button is disabled exactly when submitting would do nothing |
| QuestionPopup.Popup.SetAnswer | client/src/pages/Student/QuestionPopup.jsx:42 | the answer takes the value and the lock is kept |
| QuestionPopup.Popup.Submit | client/src/pages/Student/QuestionPopup.jsx:16-19 | the trimmed, non-empty answer is handed on unless time is up or it is blank |
| QuestionPopup.Popup.OnTimerComplete | client/src/pages/Student/QuestionPopup.jsx:33 | completion locks the popup |
| Timer.FormatTime | client/src/components/Timer.jsx:3-10 | `mm:ss` of the time left; FormatExpired states that no time left gives "00:00", and FormatReadBack that the fields are two-digit seconds below 60 and Pad2 minutes that read back as the whole seconds left |
| Timer.TotalSeconds | client/src/components/Timer.jsx:4 | whole seconds left rounded up, 0 once time is up |
| Timer.Pad2 | client/src/components/Timer.jsx:5-8 | the plain decimal digits from 10 on, a single leading zero below 10; so at least two digits reading back as the number |
| Timer.FormatExpired | client/src/components/Timer.jsx:3-10 | no time left reads "00:00" |
| Timer.FormatReadBack | client/src/components/Timer.jsx:3-10 | `mm:ss` with two-digit seconds below 60 and at least two minute digits (no extra leading zero, through Pad2), reading back as the seconds left |
| Timer.Countdown.constructor | client/src/components/Timer.jsx:14-30 | the initial time left, and with an end time a first tick at once |
| Timer.Countdown.Tick | client/src/components/Timer.jsx:21-29 | a tick records the time left, completes when none is left and reschedules otherwise |
| Timer.Countdown.Rerun | client/src/components/Timer.jsx:18-34 | with an end time, re-running the effect replaces the pending tick with one at once, so an expired countdown completes again; without one nothing is scheduled and nothing completes |
| ClassroomGrid.FirstIndex | client/src/components/features/ClassroomGrid.jsx:93-95 | the first position holding the id |
| ClassroomGrid.FindFirst | client/src/components/features/ClassroomGrid.jsx:93-95 | absent exactly when no entry has the id; otherwise the first entry that has it |
| ClassroomGrid.RemoveAll | client/src/components/features/ClassroomGrid.jsx:109-110 | no entry with the id is left, and every entry left was there |
| ClassroomGrid.RemoveAllAppend | client/src/components/features/ClassroomGrid.jsx:109-110 | removal distributes over concatenation |
| ClassroomGrid.RemoveAllIdempotent | client/src/components/features/ClassroomGrid.jsx:109-110 | removing twice is removing once |
| ClassroomGrid.RemoveAllAbsent | client/src/components/features/ClassroomGrid.jsx:109-110 | a list without the id is kept whole |
| ClassroomGrid.Batch | client/src/components/features/ClassroomGrid.jsx:69-76 | one entry per listed id, in order, with consecutive handles |
| ClassroomGrid.HandlesOf | client/src/components/features/ClassroomGrid.jsx:115 | the handles of the entries, in order |
| ClassroomGrid.PeerGrid.constructor | client/src/components/features/ClassroomGrid.jsx:15-16 | both lists empty |
| ClassroomGrid.PeerGrid.AllUsers | client/src/components/features/ClassroomGrid.jsx:69-77 | one new peer per listed id appended to `peersRef`; the displayed list becomes that batch |
| ClassroomGrid.PeerGrid.Offer | client/src/components/features/ClassroomGrid.jsx:83-90 | a new peer for the caller, signalled with the offer, appended to both lists |
| ClassroomGrid.PeerGrid.Answer | client/src/components/features/ClassroomGrid.jsx:92-97 | the first peer with the responder's id is signalled; no match changes nothing |
| ClassroomGrid.PeerGrid.IceCandidate | client/src/components/features/ClassroomGrid.jsx:99-104 | as for an answer, and a missing candidate changes nothing |
| ClassroomGrid.PeerGrid.UserLeft | client/src/components/features/ClassroomGrid.jsx:106-111 | the first peer with the id is destroyed and every entry with the id leaves both lists |
| ClassroomGrid.PeerGrid.Cleanup | client/src/components/features/ClassroomGrid.jsx:113-117 | every peer in `peersRef` is destroyed in order and `peersRef` is emptied |
| ClassroomGrid.LeaveDestroysOnlyFirst | client/src/components/features/ClassroomGrid.jsx:106-111 | with two connections for one id only the first is destroyed, and both leave the list |
| Flows.BannerForAccepted | client/src/pages/Student/QuestionPopup.jsx:71-86 | the submitter's banner for an accepted answer is "locked" when late, else "correct" or "incorrect" by whether its comparison form matches |
| Flows.DashboardCountsAccepted | client/src/pages/Teacher/Dashboard.jsx:60-76 | the room's copy of an accepted answer raises `total` exactly when on time and `correct` exactly when right |
| Flows.RelayedFocusRecorded | server/sockets/focus.js:2-6 | a relayed focus report becomes the dashboard's entry for that student |

## Left out

- Transport, persistence and rendering are left out. Socket.IO delivery and room membership
  (`join-room`) are not modelled: an emit only records its target. MongoDB is replaced by a map
  and a sequence. The model has no HTTP, no JSX and no styling.
- Concurrency is left out: every handler runs to completion before the next event.
- Classroom.QuizEngine.SubmitAnswer: the duplicate check and the insert are atomic here. In the
  source they are separate awaits, so two simultaneous submissions for one pair can both be
  stored.
- JudgeSubmission: a question id that is not a valid ObjectId makes `findById` throw, and the
  source then answers "Failed to submit answer.". The model has no ObjectId syntax and answers
  "Question not found.".
- The "Failed to submit answer." and "Failed to send question." branches for store failures
  are left out: the store never fails here. Schema validation failures of `Question.create` are
  modelled and give "Failed to send question.".
- Clerk sign-in, `fetch`, `localStorage` / `sessionStorage`, navigation and the student page's
  `leave` are left out. The signed-in user, the create-session response, the stored session
  code and the saved history are parameters; a history that fails to parse is the empty list.
- Clocks and randomness are parameters: `now`, the store's new id, `Math.random().toString(36)`
  and `buildId`.
- Times are integer milliseconds. ISO time strings are not modelled: `presence:update.at`,
  `sessionStart` and a focus entry's `lastSeen` carry the number.
- Dashboard.FocusRate: the rate is computed exactly, as the integer nearest to
  100·focused/active with halves up. The source rounds a floating-point product, which can
  land just below a half (29 of 200 students gives 14, not 15).
- LivePanel.AvgMs: the average is computed exactly. The source divides in floating point,
  which agrees for sums below 2^53.
- The Timer's progress-bar percentage is floating-point display only and is left out.
- LivePanel.NumberOf: only decimal integers, optionally negated, are read. Fractions,
  exponents and other text give 0, which the server treats like a missing duration.
- Fractional durations are left out: `durationSec * 1000` is always an integer here.
- `toLowerCase` / `toUpperCase` map ASCII letters only.
- Strings are sequences of code points, not UTF-16 units, so `slice(0, 6)` and `length` count
  code points.
- Object keys that look like array indices come first in JavaScript key order. Student and
  question ids are assumed not to look like that: they keep insertion order.
- simple-peer's internals, media streams, the microphone and camera toggles and the
  `user-joined` log are left out. A peer connection is an opaque handle, and its signals and
  destruction are recorded.
- The signalling relay on the server and the legacy pages that are not named here are not part
  of this model.
- LiveClass.LiveClassPage.constructor: the signed-in user is fixed when the page is built. A
  user who signs in after the page loads, which makes the join effect run again, is not
  modelled.
- ClassroomGrid.PeerGrid.Cleanup: the source's cleanup disconnects the shared socket and
  destroys the peers but never removes its `all-users`, `offer`, `answer`, `ice-candidate` and
  `user-left` listeners, so each re-run of the effect (every mount under React's Strict Mode)
  adds another set and one event is then handled once per set: one `offer` makes two peers and
  one `user-left` destroys a connection twice. The model keeps one listener per event and
  handles each event once.
