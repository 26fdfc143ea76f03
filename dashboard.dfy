/**
 * The teacher dashboard's state and its event reducers: presence and focus upserts, the
 * question history, the answer counters, the focus rate, the start and end of a class and the
 * forwarding of a question to the server. The clock and history-entry ids are parameters;
 * `""` stands for a null session code.
 */
module Dashboard {
  import opened Wrappers
  import opened Strings
  import opened Events
  import opened DashboardStats
  import opened Standings
  import opened Arith

  const HistoryLimit := 12

  datatype StudentEntry = StudentEntry(name: string, status: string, lastSeen: int)
  datatype FocusEntry = FocusEntry(status: string, lastSeen: int)

  /** One ended class, as kept in the teacher's history. */
  datatype HistoryEntry = HistoryEntry(
    id: string,
    sessionCode: string,
    startedAt: int,
    endedAt: int,
    totalStudents: nat,
    focusUpdates: nat,
    questionsAsked: nat,
    answersReceived: nat)

  /** The `presence:update` reducer: an upsert keyed by student id. */
  function OnPresenceUpdate(students: map<string, StudentEntry>, d: PresenceUpdate): (r: map<string, StudentEntry>)
    ensures r.Keys == students.Keys + {d.studentId}
    ensures r[d.studentId].status == d.status && r[d.studentId].lastSeen == d.at
    ensures r[d.studentId].name == if d.studentName != "" then d.studentName else Prefix(d.studentId, 6)
    ensures forall k :: k in students && k != d.studentId ==> r[k] == students[k]
  {
    students[d.studentId := StudentEntry(if d.studentName != "" then d.studentName else Prefix(d.studentId, 6), d.status, d.at)]
  }

  /** The `focus:receive` reducer: an upsert keyed by student id, stamped with the time of
      arrival. */
  function OnFocusReceive(focus: map<string, FocusEntry>, d: FocusReceive, now: int): (r: map<string, FocusEntry>)
    ensures r.Keys == focus.Keys + {d.studentId}
    ensures r[d.studentId] == FocusEntry(d.status, now)
    ensures forall k :: k in focus && k != d.studentId ==> r[k] == focus[k]
  {
    focus[d.studentId := FocusEntry(d.status, now)]
  }

  /** Repeating an upsert changes nothing. */
  lemma UpsertIdempotent(students: map<string, StudentEntry>, d: PresenceUpdate)
    ensures OnPresenceUpdate(OnPresenceUpdate(students, d), d) == OnPresenceUpdate(students, d)
  {
    var r := OnPresenceUpdate(students, d);
    var r2 := OnPresenceUpdate(r, d);
    assert r2.Keys == r.Keys;
    assert r2[d.studentId] == r[d.studentId];
    assert forall k :: k in r2 ==> r2[k] == r[k];
  }

  /** An upsert grows the roster by one exactly when the student is new. */
  lemma UpsertSize(students: map<string, StudentEntry>, d: PresenceUpdate)
    ensures |OnPresenceUpdate(students, d)| == if d.studentId in students then |students| else |students| + 1
  {
    var r := OnPresenceUpdate(students, d);
    if d.studentId in students {
      assert r.Keys == students.Keys;
    } else {
      assert r.Keys == students.Keys + {d.studentId};
      assert |r.Keys| == |students.Keys| + 1;
    }
  }

  /** The ids whose last focus status is "FOCUSED". */
  function FocusedIds(focus: map<string, FocusEntry>): (ids: set<string>)
    ensures ids <= focus.Keys
    ensures forall k :: k in ids <==> k in focus && focus[k].status == "FOCUSED"
  {
    set k | k in focus && focus[k].status == "FOCUSED"
  }

  /** `Math.round(focused / active * 100)`, or 0 with no students, computed exactly: the
      result is the integer nearest to 100·focused/active, halves rounded up. */
  function FocusRate(active: nat, focused: nat): (r: nat)
    ensures active == 0 ==> r == 0
    ensures active > 0 ==> 2 * active * r <= 200 * focused + active < 2 * active * r + 2 * active
    ensures focused <= active ==> r <= 100
  {
    if active == 0 then 0
    else
      FocusRateBounded(active, focused);
      (200 * focused + active) / (2 * active)
  }

  /** The rounding bracket, and at most 100 when nobody counted is missing from the roster. */
  lemma FocusRateBounded(active: nat, focused: nat)
    requires active > 0
    ensures var r := (200 * focused + active) / (2 * active);
            && r >= 0 && 2 * active * r <= 200 * focused + active < 2 * active * r + 2 * active
            && (focused <= active ==> r <= 100)
  {
    var d, num := 2 * active, 200 * focused + active;
    DivBracket(num, d);
    if focused <= active && num / d > 100 {
      MulMonotone(d, 101, num / d);
    }
  }

  /** A subset is no larger than its superset. */
  lemma SubsetCard(a: set<string>, b: set<string>)
    ensures a <= b ==> |a| <= |b|
  {
    if a <= b {
      assert b == a + (b - a);
    }
  }

  /** Everyone focused gives 100, nobody focused gives 0. */
  lemma FocusRateExtremes(active: nat)
    requires active > 0
    ensures FocusRate(active, active) == 100 && FocusRate(active, 0) == 0
  {
    DivUnique(200 * active + active, 2 * active, 100);
    DivUnique(active, 2 * active, 0);
  }

  /** More focus reports than students on the roster, by at least half a percent of the roster,
      push the rate above 100: one student with two focused ids reads 200. */
  lemma {:induction false} FocusRateCanExceed100(active: nat, focused: nat)
    requires active > 0 && 200 * (focused - active) >= active
    ensures FocusRate(active, focused) > 100
    ensures FocusRate(1, 2) == 200
  {
    var r := FocusRate(active, focused);
    assert 2 * active * 100 < 2 * active * r;
    MulCancelLess(2 * active, 100, r);
    DivUnique(200 * 2 + 1, 2, 200);
  }

  /** `[entry, ...history].slice(0, 12)`. */
  function PushHistory(history: seq<HistoryEntry>, entry: HistoryEntry): (r: seq<HistoryEntry>)
    ensures |r| == if |history| < HistoryLimit then |history| + 1 else HistoryLimit
    ensures r[0] == entry
    ensures forall k :: 1 <= k < |r| ==> r[k] == history[k - 1]
  {
    var next := [entry] + history;
    next[..if |next| < HistoryLimit then |next| else HistoryLimit]
  }

  /** Pushing several entries, oldest first. */
  function PushAll(history: seq<HistoryEntry>, entries: seq<HistoryEntry>): seq<HistoryEntry> {
    if entries == [] then history
    else PushHistory(PushAll(history, entries[..|entries| - 1]), entries[|entries| - 1])
  }

  function Reverse(s: seq<HistoryEntry>): seq<HistoryEntry> {
    if s == [] then [] else [s[|s| - 1]] + Reverse(s[..|s| - 1])
  }

  /** The first twelve entries. */
  function Cut(s: seq<HistoryEntry>): seq<HistoryEntry> {
    s[..if |s| < HistoryLimit then |s| else HistoryLimit]
  }

  lemma CutCons(x: HistoryEntry, s: seq<HistoryEntry>)
    ensures Cut([x] + Cut(s)) == Cut([x] + s)
  {
    var l, r := Cut([x] + Cut(s)), Cut([x] + s);
    assert |l| == |r|;
    forall i | 0 <= i < |l| ensures l[i] == r[i] {
      if i > 0 {
        assert l[i] == Cut(s)[i - 1] == s[i - 1];
      }
    }
  }

  /** After any number of ended classes the history holds the twelve most recent entries,
      newest first, followed by what was there before while room remains. */
  lemma {:induction false} PushAllNewestFirst(history: seq<HistoryEntry>, entries: seq<HistoryEntry>)
    ensures entries != [] ==> PushAll(history, entries) == Cut(Reverse(entries) + history)
  {
    if entries != [] {
      var init, x := entries[..|entries| - 1], entries[|entries| - 1];
      if init != [] {
        PushAllNewestFirst(history, init);
        CutCons(x, Reverse(init) + history);
      } else {
        assert Reverse(init) == [];
      }
      assert Reverse(entries) + history == [x] + (Reverse(init) + history);
    }
  }

  class DashboardState {
    var sessionCode: string
    /** When the class started, in milliseconds; 0 stands for the source's `null` (no class). */
    var sessionStart: int
    var students: map<string, StudentEntry>
    var focusMap: map<string, FocusEntry>
    var questionHistory: seq<QuestionNew>
    var answersByQuestion: seq<Slot>
    var history: seq<HistoryEntry>
    /** Messages emitted to the server, in order. */
    var sent: seq<Message>

    ghost predicate Valid()
      reads this
    {
      KeysDistinct(answersByQuestion) && AllConsistent(answersByQuestion)
    }

    /** A fresh dashboard, with the history read back from storage. */
    constructor (savedHistory: seq<HistoryEntry>)
      ensures Valid()
      ensures sessionCode == "" && sessionStart == 0 && students == map[] && focusMap == map[]
      ensures questionHistory == [] && answersByQuestion == [] && history == savedHistory && sent == []
    {
      sessionCode := "";
      sessionStart := 0;
      students := map[];
      focusMap := map[];
      questionHistory := [];
      answersByQuestion := [];
      history := savedHistory;
      sent := [];
    }

    function ActiveStudents(): (n: nat)
      reads this
      ensures n == |students.Keys|
    {
      |students|
    }

    /** The focus rate shown on the dashboard. */
    function CurrentFocusRate(): (r: nat)
      reads this
      ensures students == map[] ==> r == 0
      ensures var n, f := |students|, |FocusedIds(focusMap)|;
              n > 0 ==> 2 * n * r <= 200 * f + n < 2 * n * r + 2 * n
      ensures FocusedIds(focusMap) <= students.Keys ==> r <= 100
    {
      SubsetCard(FocusedIds(focusMap), students.Keys);
      FocusRate(|students|, |FocusedIds(focusMap)|)
    }

    method PresenceUpdateHandler(d: PresenceUpdate)
      requires Valid()
      modifies this
      ensures Valid()
      ensures students == OnPresenceUpdate(old(students), d)
      ensures focusMap == old(focusMap) && questionHistory == old(questionHistory)
      ensures answersByQuestion == old(answersByQuestion) && history == old(history) && sent == old(sent)
      ensures sessionCode == old(sessionCode) && sessionStart == old(sessionStart)
    {
      students := OnPresenceUpdate(students, d);
    }

    method FocusReceiveHandler(d: FocusReceive, now: int)
      requires Valid()
      modifies this
      ensures Valid()
      ensures focusMap == OnFocusReceive(old(focusMap), d, now)
      ensures students == old(students) && questionHistory == old(questionHistory)
      ensures answersByQuestion == old(answersByQuestion) && history == old(history) && sent == old(sent)
      ensures sessionCode == old(sessionCode) && sessionStart == old(sessionStart)
    {
      focusMap := OnFocusReceive(focusMap, d, now);
    }

    /** `question:new`: the newest question goes first. */
    method QuestionNewHandler(q: QuestionNew)
      requires Valid()
      modifies this
      ensures Valid()
      ensures questionHistory == [q] + old(questionHistory)
      ensures students == old(students) && focusMap == old(focusMap)
      ensures answersByQuestion == old(answersByQuestion) && history == old(history) && sent == old(sent)
      ensures sessionCode == old(sessionCode) && sessionStart == old(sessionStart)
    {
      questionHistory := [q] + questionHistory;
    }

    method AnswerUpdateHandler(d: AnswerReport)
      requires Valid()
      modifies this
      ensures Valid()
      ensures answersByQuestion == OnAnswerUpdate(old(answersByQuestion), d)
      ensures students == old(students) && focusMap == old(focusMap) && questionHistory == old(questionHistory)
      ensures history == old(history) && sent == old(sent)
      ensures sessionCode == old(sessionCode) && sessionStart == old(sessionStart)
    {
      OnAnswerUpdateConsistent(answersByQuestion, d);
      answersByQuestion := OnAnswerUpdate(answersByQuestion, d);
    }

    /** `createClass`: with a signed-in user, a successful response starts a new class with
        empty rosters and counters and joins its room; anything else changes nothing. */
    method CreateClass(user: Option<string>, response: Option<string>, now: int)
      requires Valid()
      modifies this
      ensures Valid()
      ensures history == old(history)
      ensures if user.Some? && response.Some? then
                && sessionCode == response.value && sessionStart == now
                && students == map[] && focusMap == map[] && questionHistory == [] && answersByQuestion == []
                && sent == old(sent) + [JoinRoom(response.value)]
              else
                && sessionCode == old(sessionCode) && sessionStart == old(sessionStart)
                && students == old(students) && focusMap == old(focusMap)
                && questionHistory == old(questionHistory) && answersByQuestion == old(answersByQuestion)
                && sent == old(sent)
    {
      if user.None? || response.None? {
        return;
      }
      sessionCode := response.value;
      sessionStart := now;
      students := map[];
      focusMap := map[];
      questionHistory := [];
      answersByQuestion := [];
      sent := sent + [JoinRoom(response.value)];
    }

    /** `endClass`: with no session nothing happens; otherwise one summary entry goes to the
        front of the history (at most twelve kept) and the session is cleared. The rosters and
        counters stay as they were. */
    method EndClass(now: int, entryId: string)
      requires Valid()
      modifies this
      ensures Valid()
      ensures old(sessionCode) == "" ==>
                sessionCode == old(sessionCode) && sessionStart == old(sessionStart) && history == old(history)
      ensures old(sessionCode) != "" ==>
                && sessionCode == "" && sessionStart == 0
                && history == PushHistory(old(history),
                     HistoryEntry(entryId, old(sessionCode), old(sessionStart), now, |old(students)|,
                                  |old(focusMap)|, |old(questionHistory)|, SumTotals(old(answersByQuestion))))
                && history[0].answersReceived == CountOnTime(Flatten(old(answersByQuestion)))
      ensures students == old(students) && focusMap == old(focusMap) && questionHistory == old(questionHistory)
      ensures answersByQuestion == old(answersByQuestion) && sent == old(sent)
    {
      if sessionCode == "" {
        return;
      }
      SumTotalsCountsOnTime(answersByQuestion);
      var entry := HistoryEntry(entryId, sessionCode, sessionStart, now, |students|, |focusMap|,
                                |questionHistory|, SumTotals(answersByQuestion));
      history := PushHistory(history, entry);
      sessionCode := "";
      sessionStart := 0;
    }

    /** `sendQuestion`: forwards the form's fields to the server under the current session and
        user id; nothing without a session or a user. */
    method SendQuestion(user: Option<string>, qtype: string, questionText: string, correctAnswer: string,
                        options: seq<string>, durationSec: int)
      requires Valid()
      modifies this
      ensures Valid()
      ensures sent == if sessionCode == "" || user.None? then old(sent)
                      else old(sent) + [QuestionSendMsg(QuestionSend(sessionCode, user.value, questionText, qtype,
                                                                     options, correctAnswer, durationSec))]
      ensures sessionCode == old(sessionCode) && sessionStart == old(sessionStart)
      ensures students == old(students) && focusMap == old(focusMap) && questionHistory == old(questionHistory)
      ensures answersByQuestion == old(answersByQuestion) && history == old(history)
    {
      if sessionCode == "" || user.None? {
        return;
      }
      sent := sent + [QuestionSendMsg(QuestionSend(sessionCode, user.value, questionText, qtype, options,
                                                   correctAnswer, durationSec))];
    }

    /** The leaderboard over the current counters. */
    method CurrentLeaderboard() returns (board: seq<Standing>)
      ensures board == Board(answersByQuestion)
    {
      board := Leaderboard(answersByQuestion);
    }
  }
}
