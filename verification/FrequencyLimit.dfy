/**
  The call limiter of marsksim/comm/comm_frequency_limit.cc.  It remembers at most count + 1
  accepted call times, and still answers as if it had kept the whole history.
 */
module FrequencyLimit {

  const TWO64: int := 0x1_0000_0000_0000_0000

  /** Number of calls accepted within `span` before `now`. */
  function Recent(history: seq<int>, now: int, span: int): nat {
    if history == [] then 0
    else (if now - history[0] <= span then 1 else 0) + Recent(history[1..], now, span)
  }

  ghost predicate Sorted(s: seq<int>) {
    forall i, j :: 0 <= i < j < |s| ==> s[i] <= s[j]
  }

  /** kept is what remains of history after dropping calls older than the span at time `last`. */
  ghost predicate Summarises(kept: seq<int>, history: seq<int>, last: int, span: int) {
    && |kept| <= |history|
    && history[|history| - |kept|..] == kept
    && forall i :: 0 <= i < |history| - |kept| ==> last - history[i] > span
  }

  /** Any count + 2 consecutive accepted calls take longer than the span. */
  ghost predicate Spaced(history: seq<int>, count: nat, span: int) {
    forall i :: 0 <= i && i + count + 1 < |history| ==> history[i + count + 1] - history[i] > span
  }

  lemma {:induction false} RecentSplit(x: seq<int>, y: seq<int>, now: int, span: int)
    ensures Recent(x + y, now, span) == Recent(x, now, span) + Recent(y, now, span)
  {
    if x == [] {
      assert x + y == y;
    } else {
      assert (x + y)[1..] == x[1..] + y;
      RecentSplit(x[1..], y, now, span);
    }
  }

  lemma {:induction false} RecentNone(x: seq<int>, now: int, span: int)
    requires forall i :: 0 <= i < |x| ==> now - x[i] > span
    ensures Recent(x, now, span) == 0
  {
    if x != [] {
      RecentNone(x[1..], now, span);
    }
  }

  lemma {:induction false} RecentAll(x: seq<int>, now: int, span: int)
    requires forall i :: 0 <= i < |x| ==> now - x[i] <= span
    ensures Recent(x, now, span) == |x|
  {
    if x != [] {
      RecentAll(x[1..], now, span);
    }
  }

  lemma {:induction false} RecentAtMost(x: seq<int>, now: int, span: int)
    ensures Recent(x, now, span) <= |x|
    ensures x != [] && now - x[0] > span ==> Recent(x, now, span) < |x|
  {
    if x != [] {
      RecentAtMost(x[1..], now, span);
    }
  }

  /** The kept times answer for the whole history. */
  lemma RecentOfKept(kept: seq<int>, history: seq<int>, last: int, now: int, span: int)
    requires Summarises(kept, history, last, span) && last <= now
    ensures Recent(history, now, span) == Recent(kept, now, span)
  {
    var k := |history| - |kept|;
    assert history == history[..k] + kept;
    RecentSplit(history[..k], kept, now, span);
    RecentNone(history[..k], now, span);
  }

  lemma DropOldest(kept: seq<int>, history: seq<int>, last: int, span: int)
    requires Summarises(kept, history, last, span) && kept != [] && last - kept[0] > span
    ensures Summarises(kept[1..], history, last, span)
  {
    var k := |history| - |kept|;
    assert history[k] == kept[0];
    assert history[k + 1..] == history[k..][1..];
  }

  lemma SpacedExtends(history: seq<int>, count: nat, span: int, now: int)
    requires Spaced(history, count, span)
    requires |history| > count ==> now - history[|history| - count - 1] > span
    ensures Spaced(history + [now], count, span)
  {
    var h := history + [now];
    forall i | 0 <= i && i + count + 1 < |h|
      ensures h[i + count + 1] - h[i] > span
    {
      if i + count + 1 < |history| {
        assert history[i + count + 1] - history[i] > span;
      }
    }
  }

  /** The kept times are a usable summary of a plausible history. */
  ghost predicate FaithfulTo(kept: seq<int>, history: seq<int>, last: int, count: nat, span: int) {
    && Summarises(kept, history, last, span)
    && Sorted(history)
    && (forall i :: 0 <= i < |history| ==> 0 <= history[i] <= last)
    && Spaced(history, count, span)
  }

  lemma AcceptKeepsFaith(kept: seq<int>, history: seq<int>, now: nat, count: nat, span: int)
    requires FaithfulTo(kept, history, now, count, span) && |kept| <= count
    ensures FaithfulTo(kept + [now], history + [now], now, count, span)
  {
    if |history| > count {
      assert now - history[|history| - count - 1] > span;
    }
    SpacedExtends(history, count, span, now);
    assert (history + [now])[|history| - |kept|..] == kept + [now];
  }

  /** now - t in unsigned 64-bit arithmetic. */
  function Elapsed(now: int, t: int): int {
    (now - t) % TWO64
  }

  class CommFrequencyLimit {
    const count: nat
    const timeSpan: nat
    var touchTimes: seq<int>
    ghost var history: seq<int>  // the times of all accepted calls
    ghost var last: int          // the time of the latest call, accepted or not
    ghost var steady: bool       // the clock never ran backwards so far

    ghost predicate Valid()
      reads this
    {
      |touchTimes| <= count + 1 && (steady ==> Faithful())
    }

    ghost predicate Faithful()
      reads this
    {
      FaithfulTo(touchTimes, history, last, count, timeSpan)
    }

    constructor (n: nat, span: nat)
      ensures Valid() && count == n && timeSpan == span && history == [] && last == 0 && steady
    {
      count, timeSpan, touchTimes := n, span, [];
      history, last, steady := [], 0, true;
    }

    /** Check() at clock reading `now`.  As long as the clock never ran backwards, a call is
        accepted exactly when at most `count` earlier ones were accepted within the span. */
    method Check(now: nat) returns (pass: bool)
      requires Valid() && now < TWO64
      modifies this
      ensures Valid() && last == now && steady == (old(steady) && old(last) <= now)
      ensures steady ==> (pass <==> Recent(old(history), now, timeSpan) <= count)
      ensures history == if pass then old(history) + [now] else old(history)
    {
      steady := steady && last <= now;
      if steady {
        Verdict(now);
      }
      last := now;
      if touchTimes != [] && now < touchTimes[0] {
        AmendClock(now);
      }
      if |touchTimes| <= count {
        Accept(now);
        return true;
      }
      if Elapsed(now, touchTimes[0]) <= timeSpan {
        return false;
      }
      DelOlderTouchTime(now);
      Accept(now);
      return true;
    }

    /** The kept times alone decide what the whole history asks for. */
    lemma Verdict(now: nat)
      requires Valid() && Faithful() && last <= now < TWO64
      ensures touchTimes != [] ==> touchTimes[0] <= now
      ensures Recent(history, now, timeSpan) <= count
        <==> |touchTimes| <= count || Elapsed(now, touchTimes[0]) > timeSpan
    {
      KeptSorted();
      RecentOfKept(touchTimes, history, last, now, timeSpan);
      RecentAtMost(touchTimes, now, timeSpan);
      if |touchTimes| == count + 1 && now - touchTimes[0] <= timeSpan {
        RecentAll(touchTimes, now, timeSpan);
      }
    }

    lemma KeptSorted()
      requires Faithful()
      ensures forall i :: 0 <= i < |touchTimes| ==> 0 <= touchTimes[0] <= touchTimes[i] <= last
    {
      var k := |history| - |touchTimes|;
      assert forall i :: 0 <= i < |touchTimes| ==> touchTimes[i] == history[k + i];
    }

    /** touch_times_.push_back(now); return true; */
    method Accept(now: nat)
      requires Valid() && last == now && |touchTimes| <= count
      modifies this`touchTimes, this`history
      ensures Valid() && history == old(history) + [now]
    {
      if steady {
        AcceptKeepsFaith(touchTimes, history, now, count, timeSpan);
      }
      touchTimes := touchTimes + [now];
      history := history + [now];
    }

    /** __DelOlderTouchTime: erases from the front while the front is out of the span. */
    method DelOlderTouchTime(now: nat)
      requires Valid() && last == now < TWO64
      requires touchTimes != [] && Elapsed(now, touchTimes[0]) > timeSpan
      modifies this`touchTimes
      ensures Valid() && |touchTimes| <= count
    {
      while touchTimes != [] && Elapsed(now, touchTimes[0]) > timeSpan
        invariant Valid()
        invariant |touchTimes| == count + 1 ==> Elapsed(now, touchTimes[0]) > timeSpan
        decreases |touchTimes|
      {
        if steady {
          KeptSorted();
          DropOldest(touchTimes, history, last, timeSpan);
        }
        touchTimes := touchTimes[1..];
      }
    }

    /** The repair after the clock ran backwards: every kept time becomes now - 1. */
    method AmendClock(now: nat)
      requires |touchTimes| <= count + 1 && now < TWO64
      modifies this`touchTimes
      ensures touchTimes == seq(|old(touchTimes)|, _ => Elapsed(now, 1))
    {
      var size := |touchTimes|;
      touchTimes := [];
      for i := 0 to size
        invariant touchTimes == seq(i, _ => Elapsed(now, 1))
      {
        touchTimes := touchTimes + [Elapsed(now, 1)];
      }
    }

    lemma Gap(i: nat)
      requires Faithful() && i + count + 1 < |history|
      ensures history[i + count + 1] - history[i] > timeSpan
    {
    }

    /** While the clock is steady, no time window as long as the span ever holds more than
        count + 1 accepted calls. */
    lemma NoCrowdedWindow(from: int, lo: nat, hi: nat)
      requires Faithful() && lo <= hi <= |history|
      requires forall i :: lo <= i < hi ==> from <= history[i] <= from + timeSpan
      ensures hi - lo <= count + 1
    {
      if lo + count + 1 < hi {
        Gap(lo);
        assert false;
      }
    }
  }
}
