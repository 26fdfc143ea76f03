/**
 * The teacher dashboard's per-question answer counters. `answersByQuestion` is a JavaScript
 * object whose keys keep insertion order, so it is an association list here, one slot per
 * question id in the order the ids first arrived.
 */
module DashboardStats {
  import opened Wrappers
  import opened Events

  /** The counters of one question: `total` counts answers on time, `correct` counts answers
      marked correct, `answers` holds every report received, newest first. */
  datatype QStats = QStats(total: nat, correct: nat, answers: seq<AnswerReport>)

  const NoStats := QStats(0, 0, [])

  datatype Slot = Slot(questionId: string, stats: QStats)

  /** Each question id occupies at most one slot. */
  predicate KeysDistinct(t: seq<Slot>) {
    forall i, j :: 0 <= i < j < |t| ==> t[i].questionId != t[j].questionId
  }

  /** The slot index of `qid`, or `|t|` when it has none. */
  function SlotIndex(t: seq<Slot>, qid: string): (k: nat)
    ensures k <= |t|
    ensures k < |t| ==> t[k].questionId == qid
    ensures forall j :: 0 <= j < k ==> t[j].questionId != qid
  {
    if t == [] then 0
    else if t[0].questionId == qid then 0
    else 1 + SlotIndex(t[1..], qid)
  }

  /** `answersByQuestion[qid]`. */
  function Lookup(t: seq<Slot>, qid: string): (r: Option<QStats>)
    ensures r.None? <==> forall j :: 0 <= j < |t| ==> t[j].questionId != qid
    ensures r.Some? ==> exists j :: 0 <= j < |t| && t[j] == Slot(qid, r.value)
  {
    var k := SlotIndex(t, qid);
    if k == |t| then None else Some(t[k].stats)
  }

  /** `{...t, [qid]: st}`: an existing key keeps its place, a new key goes last. */
  function Put(t: seq<Slot>, qid: string, st: QStats): (r: seq<Slot>)
    ensures KeysDistinct(t) ==> KeysDistinct(r)
    ensures Lookup(r, qid) == Some(st)
    ensures forall q :: q != qid ==> Lookup(r, q) == Lookup(t, q)
    ensures Lookup(t, qid).Some? ==> |r| == |t| && forall j :: 0 <= j < |t| ==> r[j].questionId == t[j].questionId
    ensures Lookup(t, qid).None? ==> r == t + [Slot(qid, st)]
  {
    var k := SlotIndex(t, qid);
    if k == |t| then
      PutAppendFacts(t, qid, st);
      t + [Slot(qid, st)]
    else
      PutReplaceFacts(t, k, qid, st);
      t[k := Slot(qid, st)]
  }

  /** What `Put` promises, for a key that has no slot yet. */
  lemma PutAppendFacts(t: seq<Slot>, qid: string, st: QStats)
    requires SlotIndex(t, qid) == |t|
    ensures var r := t + [Slot(qid, st)];
            && (KeysDistinct(t) ==> KeysDistinct(r))
            && Lookup(r, qid) == Some(st)
            && forall q :: q != qid ==> Lookup(r, q) == Lookup(t, q)
  {
    var r := t + [Slot(qid, st)];
    SlotIndexAppend(t, Slot(qid, st), qid);
    forall q | q != qid ensures Lookup(r, q) == Lookup(t, q) {
      SlotIndexAppend(t, Slot(qid, st), q);
    }
  }

  /** What `Put` promises, for a key that already has slot `k`. */
  lemma PutReplaceFacts(t: seq<Slot>, k: nat, qid: string, st: QStats)
    requires k < |t| && SlotIndex(t, qid) == k
    ensures var r := t[k := Slot(qid, st)];
            && (KeysDistinct(t) ==> KeysDistinct(r))
            && Lookup(r, qid) == Some(st)
            && (forall q :: q != qid ==> Lookup(r, q) == Lookup(t, q))
            && |r| == |t| && forall j :: 0 <= j < |t| ==> r[j].questionId == t[j].questionId
  {
    var r := t[k := Slot(qid, st)];
    SlotIndexFirst(r, k, qid);
    forall q | q != qid ensures Lookup(r, q) == Lookup(t, q) {
      PutIndexReplace(t, k, qid, st, q);
    }
  }

  /** The index of a key is the first position holding it. */
  lemma {:induction false} SlotIndexFirst(t: seq<Slot>, k: nat, q: string)
    requires k < |t| && t[k].questionId == q
    requires forall j :: 0 <= j < k ==> t[j].questionId != q
    ensures SlotIndex(t, q) == k
  {
    if k > 0 {
      SlotIndexFirst(t[1..], k - 1, q);
    }
  }

  lemma {:induction false} SlotIndexAppend(t: seq<Slot>, x: Slot, q: string)
    ensures SlotIndex(t + [x], q) ==
              if SlotIndex(t, q) < |t| then SlotIndex(t, q) else if x.questionId == q then |t| else |t| + 1
  {
    if t != [] {
      assert (t + [x])[1..] == t[1..] + [x];
      SlotIndexAppend(t[1..], x, q);
    }
  }

  lemma {:induction false} PutIndexReplace(t: seq<Slot>, k: nat, qid: string, st: QStats, q: string)
    requires k < |t| && t[k].questionId == qid && q != qid
    ensures SlotIndex(t[k := Slot(qid, st)], q) == SlotIndex(t, q)
  {
    if k > 0 {
      if t[0].questionId != q {
        assert t[k := Slot(qid, st)][1..] == t[1..][k - 1 := Slot(qid, st)];
        PutIndexReplace(t[1..], k - 1, qid, st, q);
      }
    }
  }

  /** The `answer:update` reducer. */
  function OnAnswerUpdate(t: seq<Slot>, d: AnswerReport): (r: seq<Slot>)
    ensures var e := Lookup(t, d.questionId).GetOr(NoStats);
            Lookup(r, d.questionId) ==
              Some(QStats(e.total + (if d.locked then 0 else 1), e.correct + (if d.isCorrect then 1 else 0), [d] + e.answers))
    ensures forall q :: q != d.questionId ==> Lookup(r, q) == Lookup(t, q)
    ensures KeysDistinct(t) ==> KeysDistinct(r)
  {
    Put(t, d.questionId, Counted(Lookup(t, d.questionId).GetOr(NoStats), d))
  }

  /** The counters `e` with report `d` added. */
  function Counted(e: QStats, d: AnswerReport): QStats {
    QStats(e.total + (if d.locked then 0 else 1), e.correct + (if d.isCorrect then 1 else 0), [d] + e.answers)
  }

  /** Reports that were on time. */
  function CountOnTime(xs: seq<AnswerReport>): (n: nat)
    ensures n <= |xs|
  {
    if xs == [] then 0 else (if xs[0].locked then 0 else 1) + CountOnTime(xs[1..])
  }

  /** Reports marked correct. */
  function CountCorrect(xs: seq<AnswerReport>): (n: nat)
    ensures n <= |xs|
  {
    if xs == [] then 0 else (if xs[0].isCorrect then 1 else 0) + CountCorrect(xs[1..])
  }

  /** The counters agree with the reports they summarise. */
  predicate StatsConsistent(st: QStats) {
    st.total == CountOnTime(st.answers) && st.correct == CountCorrect(st.answers)
  }

  predicate AllConsistent(t: seq<Slot>) {
    forall k :: 0 <= k < |t| ==> StatsConsistent(t[k].stats)
  }

  /** Storing consistent counters keeps every question's counters consistent. */
  lemma PutConsistent(t: seq<Slot>, qid: string, st: QStats)
    requires KeysDistinct(t) && AllConsistent(t) && StatsConsistent(st)
    ensures AllConsistent(Put(t, qid, st))
  {
    var r := Put(t, qid, st);
    forall k | 0 <= k < |r| ensures StatsConsistent(r[k].stats) {
      var q := r[k].questionId;
      LookupFinds(r, k);
      if q != qid {
        assert Lookup(t, q) == Some(r[k].stats);
        var j :| 0 <= j < |t| && t[j] == Slot(q, r[k].stats);
        assert StatsConsistent(t[j].stats);
      }
    }
  }

  /** A stored counter found by a lookup is consistent. */
  lemma LookupConsistent(t: seq<Slot>, qid: string)
    requires AllConsistent(t)
    ensures StatsConsistent(Lookup(t, qid).GetOr(NoStats))
  {
    var o := Lookup(t, qid);
    if o.Some? {
      var j :| 0 <= j < |t| && t[j] == Slot(qid, o.value);
      assert StatsConsistent(t[j].stats);
    }
  }

  /** Counting one more report on top of consistent counters stays consistent. */
  lemma CountReportConsistent(e: QStats, d: AnswerReport)
    requires StatsConsistent(e)
    ensures StatsConsistent(Counted(e, d))
  {
    assert ([d] + e.answers)[0] == d && ([d] + e.answers)[1..] == e.answers;
  }

  /** The reducer keeps every question's counters in agreement with its reports. */
  lemma OnAnswerUpdateConsistent(t: seq<Slot>, d: AnswerReport)
    requires KeysDistinct(t) && AllConsistent(t)
    ensures AllConsistent(OnAnswerUpdate(t, d))
  {
    var e := Lookup(t, d.questionId).GetOr(NoStats);
    LookupConsistent(t, d.questionId);
    CountReportConsistent(e, d);
    PutConsistent(t, d.questionId, Counted(e, d));
  }

  /** A slot of a list with distinct keys is what a lookup of its key finds. */
  lemma LookupFinds(t: seq<Slot>, k: nat)
    requires k < |t| && KeysDistinct(t)
    ensures Lookup(t, t[k].questionId) == Some(t[k].stats)
  {
  }

  /** Every report received, slot by slot in key order, each slot's newest first:
      `Object.values(t).flatMap(item => item.answers)`. */
  function Flatten(t: seq<Slot>): (xs: seq<AnswerReport>)
  {
    if t == [] then [] else Flatten(t[..|t| - 1]) + t[|t| - 1].stats.answers
  }

  /** The sum of the per-question totals (`answersReceived` of a history entry). */
  function SumTotals(t: seq<Slot>): nat {
    if t == [] then 0 else SumTotals(t[..|t| - 1]) + t[|t| - 1].stats.total
  }

  lemma {:induction false} CountOnTimeAppend(a: seq<AnswerReport>, b: seq<AnswerReport>)
    ensures CountOnTime(a + b) == CountOnTime(a) + CountOnTime(b)
  {
    if a != [] {
      assert (a + b)[0] == a[0] && (a + b)[1..] == a[1..] + b;
      CountOnTimeAppend(a[1..], b);
    } else {
      assert a + b == b;
    }
  }

  /** With consistent counters, the sum of the totals is the number of on-time reports
      received across all questions. */
  lemma {:induction false} SumTotalsCountsOnTime(t: seq<Slot>)
    requires AllConsistent(t)
    ensures SumTotals(t) == CountOnTime(Flatten(t))
  {
    if t != [] {
      var u := t[..|t| - 1];
      assert AllConsistent(u) by {
        forall k | 0 <= k < |u| ensures StatsConsistent(u[k].stats) {
          assert u[k] == t[k];
        }
      }
      SumTotalsCountsOnTime(u);
      CountOnTimeAppend(Flatten(t[..|t| - 1]), t[|t| - 1].stats.answers);
    }
  }
}
