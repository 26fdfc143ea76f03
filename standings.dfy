/**
 * The dashboard's leaderboard: scores taken from every received report, sorted by score
 * with ties in first-seen order, cut to the top five.
 */
module Standings {
  import opened Strings
  import opened Events
  import opened DashboardStats

  datatype Standing = Standing(id: string, name: string, score: nat)

  /** What one report is worth: 10 when correct, 2 otherwise. */
  function Points(a: AnswerReport): (p: nat)
    ensures p == 10 <==> a.isCorrect
    ensures p == 2 <==> !a.isCorrect
  {
    if a.isCorrect then 10 else 2
  }

  /** Reports without a student or marked locked earn nothing. */
  predicate Counts(a: AnswerReport) {
    a.studentId != "" && !a.locked
  }

  /** The displayed name: the report's name, or the first six characters of the id. */
  function DisplayName(a: AnswerReport): (n: string)
    ensures a.studentName != "" ==> n == a.studentName
    ensures a.studentName == "" ==> n == Prefix(a.studentId, 6)
  {
    if a.studentName != "" then a.studentName else Prefix(a.studentId, 6)
  }

  /** The position of `id` in a standings list, or its length. */
  function IndexOfId(s: seq<Standing>, id: string): (k: nat)
    ensures k <= |s|
    ensures k < |s| ==> s[k].id == id
    ensures forall j :: 0 <= j < k ==> s[j].id != id
  {
    if s == [] then 0 else if s[0].id == id then 0 else 1 + IndexOfId(s[1..], id)
  }

  predicate IdsDistinct(s: seq<Standing>) {
    forall i, j :: 0 <= i < j < |s| ==> s[i].id != s[j].id
  }

  /** Crediting one report: a student seen for the first time is added last with score 0,
      then the report's points are added. */
  function Credit(s: seq<Standing>, a: AnswerReport): seq<Standing> {
    if !Counts(a) then s
    else
      var k := IndexOfId(s, a.studentId);
      var s' := if k == |s| then s + [Standing(a.studentId, DisplayName(a), 0)] else s;
      s'[k := s'[k].(score := s'[k].score + Points(a))]
  }

  /** The `scores` object after crediting reports in order; entries keep first-seen order. */
  function Tally(xs: seq<AnswerReport>): (s: seq<Standing>)
    ensures IdsDistinct(s)
    ensures forall k :: 0 <= k < |s| ==> s[k].id != ""
  {
    if xs == [] then []
    else
      var prev := Tally(xs[..|xs| - 1]);
      var a := xs[|xs| - 1];
      var s := Credit(prev, a);
      assert IdsDistinct(s) by {
        if Counts(a) && IndexOfId(prev, a.studentId) == |prev| {
          forall i, j | 0 <= i < j < |s| ensures s[i].id != s[j].id {
            if j == |prev| {
              assert s[i] == prev[i];
            } else {
              assert s[i] == prev[i] && s[j] == prev[j];
            }
          }
        }
      }
      s
  }

  /** The points a student earns from a sequence of reports. */
  function PointsFor(xs: seq<AnswerReport>, id: string): nat {
    if xs == [] then 0
    else
      var a := xs[|xs| - 1];
      PointsFor(xs[..|xs| - 1], id) + (if Counts(a) && a.studentId == id then Points(a) else 0)
  }

  /** A student is on the tally exactly when they earned points, and their score is exactly the
      points they earned. */
  lemma {:induction false} TallyScores(xs: seq<AnswerReport>, id: string)
    ensures var s := Tally(xs); var k := IndexOfId(s, id);
            && (k < |s| <==> PointsFor(xs, id) > 0)
            && (k < |s| ==> s[k].score == PointsFor(xs, id))
  {
    if xs != [] {
      var init := xs[..|xs| - 1];
      var a := xs[|xs| - 1];
      var prev := Tally(init);
      TallyScores(init, id);
      var s := Tally(xs);
      assert s == Credit(prev, a);
      if Counts(a) {
        var m := IndexOfId(prev, a.studentId);
        if a.studentId == id {
          assert IndexOfId(s, id) == m by { IndexOfIdAt(s, m, id); }
        } else {
          var k := IndexOfId(prev, id);
          if k < |prev| {
            assert s[k] == prev[k];
            IndexOfIdAt(s, k, id);
          } else {
            IndexOfIdAbsent(s, id);
          }
        }
      }
    }
  }

  lemma {:induction false} IndexOfIdAt(s: seq<Standing>, k: nat, id: string)
    requires k < |s| && s[k].id == id
    requires forall j :: 0 <= j < k ==> s[j].id != id
    ensures IndexOfId(s, id) == k
  {
    if k > 0 {
      IndexOfIdAt(s[1..], k - 1, id);
    }
  }

  lemma IndexOfIdAbsent(s: seq<Standing>, id: string)
    requires forall j :: 0 <= j < |s| ==> s[j].id != id
    ensures IndexOfId(s, id) == |s|
  {
  }

  // ---------------------------------------------------------------------------------------
  // The stable descending sort

  predicate SortedDesc(s: seq<Standing>) {
    forall i, j :: 0 <= i < j < |s| ==> s[i].score >= s[j].score
  }

  /** Places `x` after every entry scoring at least as much. */
  function Insert(s: seq<Standing>, x: Standing): (r: seq<Standing>)
    ensures |r| == |s| + 1
  {
    if s == [] then [x]
    else if s[0].score >= x.score then [s[0]] + Insert(s[1..], x)
    else [x] + s
  }

  /** Inserting adds exactly the one entry. */
  lemma {:induction false} InsertPermutes(s: seq<Standing>, x: Standing)
    ensures multiset(Insert(s, x)) == multiset(s) + multiset{x}
  {
    if s != [] && s[0].score >= x.score {
      InsertPermutes(s[1..], x);
      assert s == [s[0]] + s[1..];
    }
  }

  /** Every score in `s` is at most `m`. */
  predicate AtMost(s: seq<Standing>, m: nat) {
    forall k :: 0 <= k < |s| ==> s[k].score <= m
  }

  lemma {:induction false} InsertAtMost(s: seq<Standing>, x: Standing, m: nat)
    requires AtMost(s, m) && x.score <= m
    ensures AtMost(Insert(s, x), m)
  {
    if s != [] && s[0].score >= x.score {
      InsertAtMost(s[1..], x, m);
    }
  }

  lemma {:induction false} InsertSorted(s: seq<Standing>, x: Standing)
    requires SortedDesc(s)
    ensures SortedDesc(Insert(s, x))
  {
    if s != [] && s[0].score >= x.score {
      var rest := Insert(s[1..], x);
      InsertSorted(s[1..], x);
      InsertAtMost(s[1..], x, s[0].score);
      var r := [s[0]] + rest;
      forall i, j | 0 <= i < j < |r| ensures r[i].score >= r[j].score {
        if i > 0 {
          assert r[i] == rest[i - 1] && r[j] == rest[j - 1];
        } else {
          assert r[j] == rest[j - 1];
        }
      }
    }
  }

  /** `Array.prototype.sort` with comparator `b.score - a.score`, which is stable. */
  function SortDesc(s: seq<Standing>): (r: seq<Standing>)
    ensures |r| == |s|
    ensures SortedDesc(r)
  {
    if s == [] then []
    else
      var rest := SortDesc(s[..|s| - 1]);
      InsertSorted(rest, s[|s| - 1]);
      Insert(rest, s[|s| - 1])
  }

  /** The sort is a permutation. */
  lemma {:induction false} SortPermutes(s: seq<Standing>)
    ensures multiset(SortDesc(s)) == multiset(s)
  {
    if s != [] {
      var init := s[..|s| - 1];
      SortPermutes(init);
      InsertPermutes(SortDesc(init), s[|s| - 1]);
      assert s == init + [s[|s| - 1]];
    }
  }

  /** The entries with a given score, in order. */
  function WithScore(s: seq<Standing>, v: nat): seq<Standing> {
    if s == [] then [] else (if s[0].score == v then [s[0]] else []) + WithScore(s[1..], v)
  }

  lemma {:induction false} WithScoreAppend(a: seq<Standing>, b: seq<Standing>, v: nat)
    ensures WithScore(a + b, v) == WithScore(a, v) + WithScore(b, v)
  {
    if a == [] {
      assert a + b == b;
    } else {
      var head := if a[0].score == v then [a[0]] else [];
      assert (a + b)[0] == a[0] && (a + b)[1..] == a[1..] + b;
      calc {
        WithScore(a + b, v);
        head + WithScore(a[1..] + b, v);
        { WithScoreAppend(a[1..], b, v); }
        head + (WithScore(a[1..], v) + WithScore(b, v));
        (head + WithScore(a[1..], v)) + WithScore(b, v);
        WithScore(a, v) + WithScore(b, v);
      }
    }
  }

  lemma {:induction false} WithScoreAbove(s: seq<Standing>, v: nat)
    requires forall k :: 0 <= k < |s| ==> s[k].score < v
    ensures WithScore(s, v) == []
  {
    if s != [] {
      WithScoreAbove(s[1..], v);
    }
  }

  lemma SortedTail(s: seq<Standing>)
    requires s != [] && SortedDesc(s)
    ensures SortedDesc(s[1..]) && forall k :: 0 <= k < |s| ==> s[k].score <= s[0].score
  {
    forall i, j | 0 <= i < j < |s[1..]| ensures s[1..][i].score >= s[1..][j].score {
      assert s[1..][i] == s[i + 1] && s[1..][j] == s[j + 1];
    }
  }

  lemma {:induction false} InsertStable(s: seq<Standing>, x: Standing, v: nat)
    requires SortedDesc(s)
    ensures WithScore(Insert(s, x), v) == WithScore(s, v) + WithScore([x], v)
  {
    if s != [] {
      SortedTail(s);
      if s[0].score >= x.score {
        assert [s[0]] + s[1..] == s;
        calc {
          WithScore(Insert(s, x), v);
          WithScore([s[0]] + Insert(s[1..], x), v);
          { WithScoreAppend([s[0]], Insert(s[1..], x), v); }
          WithScore([s[0]], v) + WithScore(Insert(s[1..], x), v);
          { InsertStable(s[1..], x, v); }
          WithScore([s[0]], v) + (WithScore(s[1..], v) + WithScore([x], v));
          (WithScore([s[0]], v) + WithScore(s[1..], v)) + WithScore([x], v);
          { WithScoreAppend([s[0]], s[1..], v); }
          WithScore(s, v) + WithScore([x], v);
        }
      } else {
        WithScoreAppend([x], s, v);
        if x.score == v {
          WithScoreAbove(s, v);
          assert WithScore(s, v) + WithScore([x], v) == WithScore([x], v);
        } else {
          assert WithScore([x], v) == [];
          assert WithScore(s, v) + WithScore([x], v) == WithScore(s, v);
        }
      }
    }
  }

  /** Stability: among entries of equal score the sort keeps the original order. */
  lemma {:induction false} SortStable(s: seq<Standing>, v: nat)
    ensures WithScore(SortDesc(s), v) == WithScore(s, v)
  {
    if s != [] {
      var init := s[..|s| - 1];
      var x := s[|s| - 1];
      SortStable(init, v);
      InsertStable(SortDesc(init), x, v);
      assert s == init + [x];
      WithScoreAppend(init, [x], v);
    }
  }

  /** The top five of the sorted standings. */
  function Top5(s: seq<Standing>): (r: seq<Standing>)
    ensures |r| <= 5 && r <= s
    ensures |s| >= 5 ==> |r| == 5
    ensures |s| < 5 ==> r == s
  {
    s[..if |s| < 5 then |s| else 5]
  }

  /** The leaderboard as a function of the answer slots. */
  function Board(t: seq<Slot>): seq<Standing> {
    Top5(SortDesc(Tally(Flatten(t))))
  }

  /** What the leaderboard promises: at most five entries, sorted by score, each a student's
      full points; nobody left off outscores anybody on it; every student on it has distinct id. */
  lemma BoardFacts(t: seq<Slot>)
    ensures var b := Board(t); var sorted := SortDesc(Tally(Flatten(t)));
            && |b| <= 5 && SortedDesc(b) && IdsDistinct(b)
            && (forall k :: 0 <= k < |b| ==> b[k].score == PointsFor(Flatten(t), b[k].id) && b[k].score > 0)
            && (forall i, j :: 0 <= i < |b| && |b| <= j < |sorted| ==> b[i].score >= sorted[j].score)
  {
    var xs := Flatten(t);
    var tally := Tally(xs);
    var sorted := SortDesc(tally);
    var b := Board(t);
    SortPermutes(tally);
    assert b == sorted[..|b|];
    forall k | 0 <= k < |b| ensures b[k].score == PointsFor(xs, b[k].id) && b[k].score > 0 {
      assert b[k] in multiset(tally) by { assert b[k] == sorted[k]; assert sorted[k] in multiset(sorted); }
      var m :| 0 <= m < |tally| && tally[m] == b[k];
      TallyScores(xs, b[k].id);
      IndexOfIdAt(tally, m, b[k].id);
    }
    assert IdsDistinct(b) by {
      SortKeepsDistinct(tally);
    }
  }

  /** Where `Insert` places its entry: after the leading run scoring at least as much. */
  function InsertPos(s: seq<Standing>, x: Standing): (p: nat)
    ensures p <= |s|
  {
    if s != [] && s[0].score >= x.score then 1 + InsertPos(s[1..], x) else 0
  }

  /** Entry by entry: the prefix before the insertion point, the entry, then the rest shifted. */
  lemma {:induction false} InsertIndex(s: seq<Standing>, x: Standing)
    ensures var r, p := Insert(s, x), InsertPos(s, x);
            && r[p] == x
            && (forall i :: 0 <= i < p ==> r[i] == s[i])
            && (forall i :: p < i < |r| ==> r[i] == s[i - 1])
  {
    if s != [] && s[0].score >= x.score {
      InsertIndex(s[1..], x);
      var rest, q := Insert(s[1..], x), InsertPos(s[1..], x);
      var r := Insert(s, x);
      assert r == [s[0]] + rest;
      forall i | 0 < i < |r| ensures r[i] == rest[i - 1] { }
      forall i | 0 < i <= q ensures r[i] == s[i] {
        assert s[i] == s[1..][i - 1];
      }
      forall i | q + 1 < i < |r| ensures r[i] == s[i - 1] {
        assert s[i - 1] == s[1..][i - 2];
      }
    }
  }

  lemma InsertDistinct(s: seq<Standing>, x: Standing)
    requires IdsDistinct(s) && forall k :: 0 <= k < |s| ==> s[k].id != x.id
    ensures IdsDistinct(Insert(s, x))
  {
    InsertIndex(s, x);
  }

  /** Sorting keeps the ids distinct. */
  lemma {:induction false} SortKeepsDistinct(s: seq<Standing>)
    requires IdsDistinct(s)
    ensures IdsDistinct(SortDesc(s))
  {
    if s != [] {
      var init := s[..|s| - 1];
      var x := s[|s| - 1];
      SortKeepsDistinct(init);
      var rest := SortDesc(init);
      SortPermutes(init);
      forall k | 0 <= k < |rest| ensures rest[k].id != x.id {
        assert rest[k] in multiset(init);
        var m :| 0 <= m < |init| && init[m] == rest[k];
        assert s[m] == init[m];
      }
      InsertDistinct(rest, x);
    }
  }

  lemma TallySnoc(xs: seq<AnswerReport>, a: AnswerReport)
    ensures Tally(xs + [a]) == Credit(Tally(xs), a)
  {
    assert (xs + [a])[..|xs|] == xs;
  }

  /** One step of the inner loop: crediting the next report of a slot. */
  lemma TallyStep(done: seq<AnswerReport>, answers: seq<AnswerReport>, j: nat)
    requires j < |answers|
    ensures Tally(done + answers[..j + 1]) == Credit(Tally(done + answers[..j]), answers[j])
  {
    assert done + answers[..j + 1] == (done + answers[..j]) + [answers[j]];
    TallySnoc(done + answers[..j], answers[j]);
  }

  lemma FlattenPrefix(t: seq<Slot>, s: nat)
    requires s < |t|
    ensures Flatten(t[..s + 1]) == Flatten(t[..s]) + t[s].stats.answers
  {
    assert t[..s + 1][..s] == t[..s];
  }

  /** The body of the inner `forEach`: skip a report without a student or a locked one,
      add a first-seen student with score 0, then add the report's points. */
  method CreditReport(scores: seq<Standing>, ans: AnswerReport) returns (r: seq<Standing>)
    ensures r == Credit(scores, ans)
  {
    r := scores;
    if ans.studentId == "" || ans.locked {
      return;
    }
    var k := IndexOfId(r, ans.studentId);
    if k == |r| {
      r := r + [Standing(ans.studentId, DisplayName(ans), 0)];
    }
    r := r[k := r[k].(score := r[k].score + Points(ans))];
  }

  /** The leaderboard memo: the nested `forEach` over slots and reports filling `scores`,
      then the sort and the cut. */
  method Leaderboard(t: seq<Slot>) returns (board: seq<Standing>)
    ensures board == Board(t)
  {
    var scores: seq<Standing> := [];
    var s := 0;
    while s < |t|
      invariant 0 <= s <= |t|
      invariant scores == Tally(Flatten(t[..s]))
    {
      var answers := t[s].stats.answers;
      ghost var done := Flatten(t[..s]);
      var j := 0;
      assert done + answers[..0] == done;
      while j < |answers|
        invariant 0 <= j <= |answers|
        invariant scores == Tally(done + answers[..j])
      {
        TallyStep(done, answers, j);
        scores := CreditReport(scores, answers[j]);
        j := j + 1;
      }
      assert answers[..j] == answers;
      FlattenPrefix(t, s);
      s := s + 1;
    }
    assert t[..s] == t;
    var sorted := SortDesc(scores);
    board := sorted[..if |sorted| < 5 then |sorted| else 5];
  }
}
