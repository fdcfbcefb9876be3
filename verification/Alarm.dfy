/**
  The alarm protocol of marsksim/comm/alarm.cc.  Every operation runs under one mutex, so a
  run is an interleaving of atomic steps of any number of alarms; broadcast messages may be
  delivered late, more than once, to every alarm, and after their alarm was cancelled.
 */
module Alarms {

  const INVALID_SEQ: int := 0

  datatype Status = Init | Started | Cancelled | OnAlarm

  datatype State = State(seq_: int, status: Status, after: int, startTime: int, endTime: int)

  /** What became of the broadcast (and, on Android, of the system alarm) requested by Start. */
  datatype Posting = NullPost | AlarmRefused | Posted

  // ---------- one alarm ----------

  /** Start: the global counter and this alarm afterwards, and the result. */
  function StartStep(counter: int, s: State, after: int, now: int, posting: Posting): (int, State, bool) {
    if s.seq_ != INVALID_SEQ then (counter, s, false)
    else
      var seq_ := if counter == INVALID_SEQ then 1 else counter;
      if posting != Posted then (seq_ + 1, s, false)
      else (seq_ + 1, State(seq_, Started, after, now, 0), true)
  }

  function CancelStep(s: State, now: int): State {
    if s.seq_ == INVALID_SEQ then s else s.(status := Cancelled, endTime := now, seq_ := INVALID_SEQ)
  }

  /** OnAlarm for a message with this number.  A call on another thread only posts itself
      again, and on Android an early delivery re-arms the system alarm instead of firing. */
  function DeliverStep(s: State, body: int, now: int, ownThread: bool, postponed: bool): State {
    if !ownThread || s.seq_ != body || postponed then s
    else s.(status := OnAlarm, seq_ := INVALID_SEQ, endTime := now)
  }

  predicate Fires(s: State, body: int, ownThread: bool, postponed: bool) {
    ownThread && s.seq_ == body && !postponed
  }

  class SequenceCounter {
    var sgSeq: int
    constructor ()
      ensures sgSeq == 1
    {
      sgSeq := 1;
    }
  }

  class Alarm {
    const counter: SequenceCounter
    var seq_: int
    var status: Status
    var after: int
    var startTime: int
    var endTime: int

    /** Waiting means holding a number. */
    ghost predicate Valid()
      reads this
    {
      status == Started <==> seq_ != INVALID_SEQ
    }

    constructor (c: SequenceCounter)
      ensures Valid() && counter == c && Current() == State(INVALID_SEQ, Init, 0, 0, 0)
    {
      counter, seq_, status, after, startTime, endTime := c, INVALID_SEQ, Init, 0, 0, 0;
    }

    function Current(): State
      reads this
    {
      State(seq_, status, after, startTime, endTime)
    }

    /** Succeeds exactly when the alarm is idle and its message was posted (and, on Android, the system
        alarm was accepted); it then waits under the next number.  Otherwise the alarm is unchanged. */
    method Start(afterMs: int, now: int, posting: Posting) returns (ok: bool)
      requires Valid()
      modifies this, counter
      ensures Valid() && (ok <==> old(seq_) == INVALID_SEQ && posting == Posted)
      ensures ok ==> seq_ == (if old(counter.sgSeq) == INVALID_SEQ then 1 else old(counter.sgSeq))
      ensures ok ==> status == Started && after == afterMs && startTime == now && endTime == 0
      ensures !ok ==> Current() == old(Current())
      ensures old(seq_) != INVALID_SEQ ==> counter.sgSeq == old(counter.sgSeq)
      ensures (counter.sgSeq, Current(), ok) == StartStep(old(counter.sgSeq), old(Current()), afterMs, now, posting)
    {
      if seq_ != INVALID_SEQ { return false; }
      if counter.sgSeq == INVALID_SEQ { counter.sgSeq := 1; }
      var s := counter.sgSeq;
      counter.sgSeq := s + 1;
      if posting != Posted { return false; }
      status := Started;
      startTime := now;
      endTime := 0;
      after := afterMs;
      seq_ := s;
      return true;
    }

    method Cancel(now: int)
      requires Valid()
      modifies this
      ensures Valid() && Current() == CancelStep(old(Current()), now)
      ensures seq_ == INVALID_SEQ && after == old(after) && startTime == old(startTime)
      ensures old(seq_) != INVALID_SEQ ==> status == Cancelled && endTime == now
      ensures old(seq_) == INVALID_SEQ ==> Current() == old(Current())
    {
      if seq_ == INVALID_SEQ { return; }
      status := Cancelled;
      endTime := now;
      seq_ := INVALID_SEQ;
    }

    /** Returns whether the target is run. */
    method OnMessage(body: int, now: int, ownThread: bool, postponed: bool) returns (run: bool)
      requires Valid()
      modifies this
      ensures Valid() && Current() == DeliverStep(old(Current()), body, now, ownThread, postponed)
      ensures run == Fires(old(Current()), body, ownThread, postponed)
      ensures run <==> ownThread && old(seq_) == body && !postponed
      ensures run ==> seq_ == INVALID_SEQ && status == OnAlarm && endTime == now
      ensures run ==> after == old(after) && startTime == old(startTime)
      ensures !run ==> Current() == old(Current())
    {
      if !ownThread { return false; }
      if seq_ != body { return false; }
      if postponed { return false; }
      status := OnAlarm;
      seq_ := INVALID_SEQ;
      endTime := now;
      return true;
    }

    /** Whether a message with this alarm's number can still run the target. */
    method IsWaiting() returns (b: bool)
      requires Valid()
      ensures b <==> seq_ != INVALID_SEQ
      ensures b <==> exists n :: n != INVALID_SEQ && Fires(Current(), n, true, false)
    {
      b := status == Started;
      assert seq_ != INVALID_SEQ ==> Fires(Current(), seq_, true, false);
    }
  }

  // ---------- all alarms together ----------

  /** sent holds the number of every message ever broadcast; messages never leave it, so any
      delivery order, duplication and delay is allowed. */
  datatype World = World(counter: int, alarms: seq<State>, sent: set<int>)

  datatype Event =
    | Start(id: nat, after: int, now: int, posting: Posting)
    | Cancel(id: nat, now: int)
    | Deliver(id: nat, body: int, now: int, ownThread: bool, postponed: bool)

  ghost predicate Enabled(w: World, e: Event) {
    e.id < |w.alarms| && (e.Deliver? ==> e.body in w.sent)
  }

  function Apply(w: World, e: Event): World
    requires e.id < |w.alarms|
  {
    var s := w.alarms[e.id];
    match e
    case Start(id, after, now, posting) =>
      var (counter, s', _) := StartStep(w.counter, s, after, now, posting);
      World(counter, w.alarms[id := s'],
            if counter != w.counter && posting != NullPost then w.sent + {counter - 1} else w.sent)
    case Cancel(id, now) => w.(alarms := w.alarms[id := CancelStep(s, now)])
    case Deliver(id, body, now, own, postponed) =>
      w.(alarms := w.alarms[id := DeliverStep(s, body, now, own, postponed)])
  }

  /** What a step does to the outside: a successful start, the end of a wait, or a run of the target. */
  datatype Observation = Starts(id: nat, n: int) | Cancels(id: nat, n: int) | Runs(id: nat, n: int) | Silent

  function Observe(w: World, e: Event): Observation
    requires e.id < |w.alarms|
  {
    var s := w.alarms[e.id];
    match e
    case Start(id, after, now, posting) =>
      var (counter, s', ok) := StartStep(w.counter, s, after, now, posting);
      if ok then Starts(id, s'.seq_) else Silent
    case Cancel(id, _) => if s.seq_ != INVALID_SEQ then Cancels(id, s.seq_) else Silent
    case Deliver(id, body, _, own, postponed) => if Fires(s, body, own, postponed) then Runs(id, body) else Silent
  }

  function Initial(n: nat): World {
    World(1, seq(n, _ => State(INVALID_SEQ, Init, 0, 0, 0)), {})
  }

  ghost predicate Live(s: State) {
    s.seq_ != INVALID_SEQ
  }

  /** The safety invariant: waiting means holding a number; numbers are non-zero, distinct and
      below the counter. */
  ghost predicate Inv(w: World) {
    && w.counter >= 1
    && (forall m :: m in w.sent ==> 1 <= m < w.counter)
    && (forall i :: 0 <= i < |w.alarms| ==> (w.alarms[i].status == Started <==> Live(w.alarms[i])))
    && (forall i :: 0 <= i < |w.alarms| ==> 0 <= w.alarms[i].seq_ < w.counter)
    && (forall i :: 0 <= i < |w.alarms| && Live(w.alarms[i]) ==> w.alarms[i].seq_ in w.sent)
    && (forall i, j :: 0 <= i < j < |w.alarms| && Live(w.alarms[i]) ==> w.alarms[i].seq_ != w.alarms[j].seq_)
  }

  lemma StepKeepsInv(w: World, e: Event)
    requires Inv(w) && Enabled(w, e)
    ensures Inv(Apply(w, e))
  {
  }

  /** An idle alarm whose message is posted starts, under the counter's number, and that message is sent. */
  lemma PostedStarts(w: World, id: nat, after: int, now: int)
    requires Inv(w) && id < |w.alarms| && !Live(w.alarms[id])
    ensures var e := Start(id, after, now, Posted);
            && Observe(w, e) == Starts(id, w.counter) && Apply(w, e).alarms[id].seq_ == w.counter
            && w.counter in Apply(w, e).sent && Apply(w, e).counter == w.counter + 1
  {
  }

  /** At the beginning all alarms are idle, nothing is under way, and the first number is 1. */
  lemma FirstStart(n: nat, id: nat, after: int, now: int)
    requires id < n
    ensures Inv(Initial(n)) && Initial(n).sent == {}
    ensures Observe(Initial(n), Start(id, after, now, Posted)) == Starts(id, 1)
  {
  }

  /** A Start that is not posted, or on a waiting alarm, starts nothing. */
  lemma UnpostedStartsNothing(w: World, id: nat, after: int, now: int, posting: Posting)
    requires Inv(w) && id < |w.alarms| && (posting != Posted || Live(w.alarms[id]))
    ensures var e := Start(id, after, now, posting);
            && Observe(w, e) == Silent && Apply(w, e).alarms == w.alarms
            && (posting == NullPost || Live(w.alarms[id]) ==> Apply(w, e).sent == w.sent)
  {
  }

  /** A waiting alarm's message is under way, and its delivery runs the target. */
  lemma DeliveryRuns(w: World, id: nat, now: int)
    requires Inv(w) && id < |w.alarms| && Live(w.alarms[id])
    ensures var n := w.alarms[id].seq_; var e := Deliver(id, n, now, true, false);
            Enabled(w, e) && Observe(w, e) == Runs(id, n) && !Live(Apply(w, e).alarms[id])
  {
  }

  /** In every run, a Start that was not cancelled can still be answered: delivered in the end, it runs. */
  lemma UncancelledCanRun(x: Execution, n: nat, i: nat, k: nat, now: int)
    requires IsExecution(x, n) && i < k <= |x.events| && Seen(x, n, i).Starts?
    requires Undisturbed(x, n, i, k, Seen(x, n, i).id, Seen(x, n, i).n)
    ensures |x.worlds[k].alarms| == n && Seen(x, n, i).id < n
    ensures var q, id := Seen(x, n, i).n, Seen(x, n, i).id;
            var e := Deliver(id, q, now, true, false);
            x.worlds[k].alarms[id].seq_ == q && Enabled(x.worlds[k], e) && Observe(x.worlds[k], e) == Runs(id, q)
  {
    AlwaysSafe(x, n, k);
    StillWaiting(x, n, i, k);
    DeliveryRuns(x.worlds[k], Seen(x, n, i).id, now);
  }

  lemma {:induction false} StillWaiting(x: Execution, n: nat, i: nat, k: nat)
    requires IsExecution(x, n) && i < k <= |x.events| && Seen(x, n, i).Starts?
    requires Undisturbed(x, n, i, k, Seen(x, n, i).id, Seen(x, n, i).n)
    ensures |x.worlds[k].alarms| == n && Seen(x, n, i).id < n
    ensures Seen(x, n, i).n != INVALID_SEQ && x.worlds[k].alarms[Seen(x, n, i).id].seq_ == Seen(x, n, i).n
    decreases k
  {
    var id := Seen(x, n, i).id;
    AlwaysSafe(x, n, k - 1);
    AlwaysSafe(x, n, k);
    if i < k - 1 {
      StillWaiting(x, n, i, k - 1);
      assert Seen(x, n, k - 1) != Cancels(id, Seen(x, n, i).n) && Seen(x, n, k - 1) != Runs(id, Seen(x, n, i).n);
    }
    StepObserved(x.worlds[k - 1], x.events[k - 1], id);
  }

  /** An interleaving of any length: worlds[k] is the world before events[k]. */
  datatype Execution = Execution(worlds: seq<World>, events: seq<Event>)

  ghost predicate IsExecution(x: Execution, n: nat) {
    && |x.worlds| == |x.events| + 1
    && x.worlds[0] == Initial(n)
    && forall k :: 0 <= k < |x.events| ==>
         Enabled(x.worlds[k], x.events[k]) && x.worlds[k + 1] == Apply(x.worlds[k], x.events[k])
  }

  /** What happened at step k. */
  ghost function Seen(x: Execution, n: nat, k: nat): Observation
    requires IsExecution(x, n) && k < |x.events|
  {
    Observe(x.worlds[k], x.events[k])
  }

  lemma {:induction false} AlwaysSafe(x: Execution, n: nat, k: nat)
    requires IsExecution(x, n) && k <= |x.events|
    ensures Inv(x.worlds[k]) && |x.worlds[k].alarms| == n
  {
    if k > 0 {
      AlwaysSafe(x, n, k - 1);
      StepKeepsInv(x.worlds[k - 1], x.events[k - 1]);
    }
  }

  /** The step changes no other alarm, and this one only as observed. */
  lemma StepObserved(w: World, e: Event, id: nat)
    requires Inv(w) && Enabled(w, e) && id < |w.alarms|
    ensures var before, after := w.alarms[id].seq_, Apply(w, e).alarms[id].seq_;
            match Observe(w, e)
            case Starts(i, q) => w.counter <= q < Apply(w, e).counter && q != 0
              && (if i == id then after == q && before == 0 else after == before)
            case Cancels(i, q) => q != 0 && (if i == id then before == q && after == 0 else after == before)
            case Runs(i, q) => q != 0 && (if i == id then before == q && after == 0 else after == before)
            case Silent => after == before
    ensures w.counter <= Apply(w, e).counter
  {
  }

  /** No step between i and k (both excluded) ends the wait of alarm id for number q. */
  ghost predicate Undisturbed(x: Execution, n: nat, i: int, k: int, id: nat, q: int)
    requires IsExecution(x, n) && -1 <= i && k <= |x.events|
  {
    forall j :: i < j < k ==> Seen(x, n, j) != Cancels(id, q) && Seen(x, n, j) != Runs(id, q)
  }

  /** An alarm that holds a number got it from its own successful Start, undisturbed since. */
  lemma {:induction false} WaitingSince(x: Execution, n: nat, k: nat, id: nat) returns (i: nat)
    requires IsExecution(x, n) && k <= |x.events| && id < n
    requires |x.worlds[k].alarms| == n && x.worlds[k].alarms[id].seq_ != INVALID_SEQ
    ensures i < k && Seen(x, n, i) == Starts(id, x.worlds[k].alarms[id].seq_)
    ensures Undisturbed(x, n, i, k, id, x.worlds[k].alarms[id].seq_)
  {
    assert k > 0;
    AlwaysSafe(x, n, k - 1);
    StepObserved(x.worlds[k - 1], x.events[k - 1], id);
    if x.worlds[k - 1].alarms[id].seq_ == x.worlds[k].alarms[id].seq_ {
      i := WaitingSince(x, n, k - 1, id);
      StillUndisturbed(x, n, i, k, id, x.worlds[k].alarms[id].seq_);
    } else {
      i := k - 1;
    }
  }

  lemma StillUndisturbed(x: Execution, n: nat, i: nat, k: nat, id: nat, q: int)
    requires IsExecution(x, n) && i < k <= |x.events| && Undisturbed(x, n, i, k - 1, id, q)
    requires Seen(x, n, k - 1) != Cancels(id, q) && Seen(x, n, k - 1) != Runs(id, q)
    ensures Undisturbed(x, n, i, k, id, q)
  {
  }

  lemma {:induction false} CounterGrows(x: Execution, n: nat, i: nat, k: nat)
    requires IsExecution(x, n) && i <= k <= |x.events|
    ensures x.worlds[i].counter <= x.worlds[k].counter
    decreases k - i
  {
    if i < k {
      AlwaysSafe(x, n, i);
      StepObserved(x.worlds[i], x.events[i], x.events[i].id);
      CounterGrows(x, n, i + 1, k);
    }
  }

  /** No two successful Starts get the same number. */
  lemma StartsAreFresh(x: Execution, n: nat, i: nat, k: nat)
    requires IsExecution(x, n) && i < k < |x.events|
    requires Seen(x, n, i).Starts? && Seen(x, n, k).Starts?
    ensures 0 < Seen(x, n, i).n < Seen(x, n, k).n
  {
    AlwaysSafe(x, n, i);
    AlwaysSafe(x, n, k);
    StepObserved(x.worlds[i], x.events[i], x.events[i].id);
    StepObserved(x.worlds[k], x.events[k], x.events[k].id);
    CounterGrows(x, n, i + 1, k);
  }

  /** A run of the target answers exactly one earlier Start of the same alarm, with neither a
      cancellation nor another run for that Start in between. */
  lemma RunAnswersStart(x: Execution, n: nat, k: nat) returns (i: nat)
    requires IsExecution(x, n) && k < |x.events| && Seen(x, n, k).Runs?
    ensures i < k && Seen(x, n, i) == Starts(Seen(x, n, k).id, Seen(x, n, k).n)
    ensures Undisturbed(x, n, i, k, Seen(x, n, k).id, Seen(x, n, k).n)
  {
    AlwaysSafe(x, n, k);
    i := WaitingSince(x, n, k, Seen(x, n, k).id);
  }

  /** Each successful Start runs its target at most once, whatever is delivered when. */
  lemma RunsAtMostOnce(x: Execution, n: nat, j: nat, k: nat)
    requires IsExecution(x, n) && j < |x.events| && k < |x.events|
    requires Seen(x, n, j).Runs? && Seen(x, n, k).Runs? && Seen(x, n, j).n == Seen(x, n, k).n
    ensures j == k
  {
    if j > k {
      RunsAtMostOnce(x, n, k, j);
    } else if j < k {
      var i := RunAnswersStart(x, n, j);
      var i' := RunAnswersStart(x, n, k);
      if i < i' { StartsAreFresh(x, n, i, i'); }
      if i' < i { StartsAreFresh(x, n, i', i); }
    }
  }

  /** After a cancellation the target never runs for that Start. */
  lemma CancelledNeverRuns(x: Execution, n: nat, c: nat, k: nat)
    requires IsExecution(x, n) && c < k < |x.events|
    requires Seen(x, n, c).Cancels? && Seen(x, n, k).Runs?
    ensures Seen(x, n, c).n != Seen(x, n, k).n
  {
    if Seen(x, n, c).n == Seen(x, n, k).n {
      AlwaysSafe(x, n, c);
      StepObserved(x.worlds[c], x.events[c], x.events[c].id);
      var i := WaitingSince(x, n, c, Seen(x, n, c).id);
      var i' := RunAnswersStart(x, n, k);
      if i < i' { StartsAreFresh(x, n, i, i'); }
      if i' < i { StartsAreFresh(x, n, i', i); }
    }
  }
}
