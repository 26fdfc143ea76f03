/**
 * The question countdown: `formatTime` and the per-tick decision of the self-rescheduling
 * timer. Times are integer milliseconds; the clock is a parameter.
 */
module Timer {
  import opened Strings

  /** `Math.max(0, Math.ceil(ms / 1000))`: whole seconds left, rounded up. */
  function TotalSeconds(ms: int): (t: nat)
    ensures ms <= 0 ==> t == 0
    ensures ms > 0 ==> 1000 * (t - 1) < ms <= 1000 * t
  {
    if ms <= 0 then 0 else (ms + 999) / 1000
  }

  /** `n.toString().padStart(2, "0")`. */
  function Pad2(n: nat): (r: string)
    ensures |r| >= 2 && IsDigitString(r) && DigitsToNat(r) == n
    ensures n < 100 ==> |r| == 2
    ensures n >= 10 ==> r == NatToDigits(n)
    ensures n < 10 ==> r == "0" + NatToDigits(n)
  {
    var d := NatToDigits(n);
    DigitsRoundTrip(n);
    ShortDigits(n);
    if |d| < 2 then
      var p := PadStartZero(d, 2);
      LeadingZeros(2 - |d|, d);
      assert p == seq(2 - |d|, _ => '0') + d;
      p
    else d
  }

  lemma ShortDigits(n: nat)
    ensures n < 100 ==> |NatToDigits(n)| <= 2
  {
    if 10 <= n < 100 {
      assert NatToDigits(n) == NatToDigits(n / 10) + [('0' as int + n % 10) as char];
    }
  }

  predicate IsDigitString(s: string) {
    forall i :: 0 <= i < |s| ==> '0' <= s[i] <= '9'
  }

  /** `mm:ss` with at least two minute digits and exactly two second digits. */
  function FormatTime(ms: int): (r: string)
  {
    var total := TotalSeconds(ms);
    Pad2(total / 60) + ":" + Pad2(total % 60)
  }

  /** No time left reads "00:00". */
  lemma FormatExpired(ms: int)
    requires ms <= 0
    ensures FormatTime(ms) == "00:00"
  {
    assert TotalSeconds(ms) == 0;
    Pad2Zero();
    assert "00" + ":" + "00" == "00:00";
  }

  lemma Pad2Zero()
    ensures Pad2(0) == "00"
  {
    assert NatToDigits(0) == ['0'];
    assert PadStartZero(['0'], 2) == seq(1, _ => '0') + ['0'] == "00";
  }

  /** Reading the two fields back gives the seconds left: the seconds field is two digits
      below 60, the minutes field at least two digits. */
  lemma FormatReadBack(ms: int)
    ensures var r := FormatTime(ms); var n := |r|;
            && n >= 5 && r[n - 3] == ':' && IsDigitString(r[..n - 3]) && IsDigitString(r[n - 2..])
            && DigitsToNat(r[n - 2..]) < 60
            && DigitsToNat(r[..n - 3]) * 60 + DigitsToNat(r[n - 2..]) == TotalSeconds(ms)
  {
    var t := TotalSeconds(ms);
    var m := Pad2(t / 60);
    var s := Pad2(t % 60);
    var r := FormatTime(ms);
    assert r == m + ":" + s;
    assert r[..|r| - 3] == m;
    assert r[|r| - 2..] == s;
  }

  /** The countdown of one question popup. `endsAt` 0 stands for a question without an end
      time. */
  class Countdown {
    const endsAt: int
    var remaining: int
    /** A further tick is scheduled. */
    var scheduled: bool
    /** How many times `onComplete` has been called. */
    var completions: nat

    ghost predicate Valid()
      reads this
    {
      && (endsAt == 0 ==> remaining == 0 && !scheduled && completions == 0)
      && (scheduled ==> remaining > 0)
    }

    /** Mounting: the initial remaining time, then (with an end time) the first tick at once. */
    constructor (endsAt: int, now: int)
      ensures Valid() && this.endsAt == endsAt
      ensures endsAt == 0 ==> remaining == 0 && !scheduled && completions == 0
      ensures endsAt != 0 ==> remaining == endsAt - now && scheduled == (remaining > 0)
                              && completions == (if remaining <= 0 then 1 else 0)
    {
      var left := if endsAt != 0 then endsAt - now else 0;
      this.endsAt := endsAt;
      remaining := left;
      scheduled := endsAt != 0 && left > 0;
      completions := if endsAt != 0 && left <= 0 then 1 else 0;
    }

    /** A scheduled tick at time `now`: it records the time left, completes when none is left
        and otherwise schedules the next tick. */
    method Tick(now: int)
      requires Valid() && scheduled
      modifies this
      ensures Valid()
      ensures remaining == endsAt - now
      ensures remaining <= 0 ==> !scheduled && completions == old(completions) + 1
      ensures remaining > 0 ==> scheduled && completions == old(completions)
    {
      var next := endsAt - now;
      remaining := next;
      if next <= 0 {
        completions := completions + 1;
        scheduled := false;
        return;
      }
      scheduled := true;
    }

    /** The effect running again (its dependencies changed): the pending tick is cancelled and,
        with an end time, a tick runs at once, so an expired countdown completes again. */
    method Rerun(now: int)
      requires Valid()
      modifies this
      ensures Valid()
      ensures endsAt == 0 ==> remaining == old(remaining) && !scheduled && completions == old(completions)
      ensures endsAt != 0 ==> remaining == endsAt - now && scheduled == (remaining > 0)
                              && completions == old(completions) + (if remaining <= 0 then 1 else 0)
    {
      scheduled := false;
      if endsAt == 0 {
        return;
      }
      var next := endsAt - now;
      remaining := next;
      if next <= 0 {
        completions := completions + 1;
        return;
      }
      scheduled := true;
    }
  }
}
