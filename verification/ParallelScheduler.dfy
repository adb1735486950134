// The log-replay scheduler shared by parallel worker processes.  Each call appends one record to
// a shared file and replays the file from where the worker last stopped up to its own record.
module ParallelScheduler {
  import opened Prelude

  // One line of the queue file.
  datatype Record = Record(t: real, uid: nat)

  function Max(a: real, b: real): real {
    if a < b then b else a
  }

  // The time of the event after the first k records.
  function EventTime(log: seq<Record>, interval: real, k: nat): real
    requires k <= |log|
  {
    if k == 0 then 0.0 else Max(log[k - 1].t, EventTime(log, interval, k - 1) + interval)
  }

  // ----- One worker, in place -----

  class QueueFile {
    var lines: seq<Record>

    constructor ()
      ensures lines == []
    {
      lines := [];
    }
  }

  // No record of this worker from position pos on.
  ghost predicate NoneFrom(log: seq<Record>, uid: nat, pos: nat) {
    forall i :: pos <= i < |log| ==> log[i].uid != uid
  }

  class Scheduler {
    const uid: nat
    const interval: real
    var pos: nat
    var eventTime: real

    constructor (uid: nat, interval: real)
      ensures this.uid == uid && this.interval == interval && pos == 0 && eventTime == 0.0
    {
      this.uid, this.interval := uid, interval;
      pos, eventTime := 0, 0.0;
    }

    // Between calls: the worker has replayed a prefix that holds all its own records.
    ghost predicate Valid(log: seq<Record>)
      reads this
    {
      pos <= |log| && eventTime == EventTime(log, interval, pos) && NoneFrom(log, uid, pos)
    }

    // now and later are the clock at the two readings; others is what other processes append
    // between this worker's write and its read.
    method Schedule(queue: QueueFile, now: real, later: real, others: seq<Record>) returns (r: Result<(real, real)>)
      requires Valid(queue.lines) && NoneFrom(others, uid, 0)
      modifies this, queue
      ensures interval <= 0.0 ==> r == Ok((now, 0.0)) && pos == old(pos) && queue.lines == old(queue.lines)
      ensures interval > 0.0 ==>
        && queue.lines == old(queue.lines) + [Record(now, uid)] + others
        && Valid(queue.lines)
        && pos == |old(queue.lines)| + 1
        && r == Ok((eventTime, Max(eventTime - later, 0.0)))
    {
      if interval <= 0.0 {
        return Ok((now, 0.0));
      }
      var record := Record(now, uid);
      queue.lines := queue.lines + [record];
      queue.lines := queue.lines + others;
      ghost var log, own := queue.lines, |old(queue.lines)|;
      EventTimePrefix(old(queue.lines), log, interval, pos);
      var found := false;
      while pos < |queue.lines|
        invariant queue.lines == log && pos <= |log|
        invariant eventTime == EventTime(log, interval, pos)
        invariant if found then pos == own + 1 else pos <= own
        decreases |log| - pos, !found
      {
        var line := queue.lines[pos];
        pos := pos + 1;
        eventTime := Max(line.t, eventTime + interval);
        if line == record {
          found := true;
          break;
        }
      }
      if !found {
        return Err(OSError);
      }
      return Ok((eventTime, Max(eventTime - later, 0.0)));
    }
  }

  // Appending to the log changes nothing about the prefix.
  lemma {:induction false} EventTimePrefix(log: seq<Record>, longer: seq<Record>, interval: real, k: nat)
    requires k <= |log| <= |longer| && log == longer[..|log|]
    ensures EventTime(log, interval, k) == EventTime(longer, interval, k)
  {
    if k > 0 { EventTimePrefix(log, longer, interval, k - 1); }
  }

  // ----- All workers, interleaved -----

  datatype Worker = Worker(pos: nat, eventTime: real, waiting: Option<Record>)

  // What one call returned: the worker, the position of the record it stopped at, the event time.
  datatype Event = Event(uid: nat, index: nat, time: real)

  datatype State = State(log: seq<Record>, workers: map<nat, Worker>, events: seq<Event>, failed: bool)

  // Append is the write of a call, ReadLine one turn of its replay loop.
  datatype Action = Append(uid: nat, now: real) | ReadLine(uid: nat)

  predicate Enabled(s: State, a: Action) {
    a.uid in s.workers && (a.Append? <==> s.workers[a.uid].waiting.None?)
  }

  function Step(s: State, a: Action, interval: real): State
    requires Enabled(s, a)
  {
    var u, w := a.uid, s.workers[a.uid];
    match a
    case Append(_, now) =>
      var record := Record(now, u);
      s.(log := s.log + [record], workers := s.workers[u := w.(waiting := Some(record))])
    case ReadLine(_) =>
      if w.pos >= |s.log| then s.(failed := true, workers := s.workers[u := w.(waiting := None)])
      else
        var line := s.log[w.pos];
        var time := Max(line.t, w.eventTime + interval);
        if line == w.waiting.value then
          s.(workers := s.workers[u := Worker(w.pos + 1, time, None)], events := s.events + [Event(u, w.pos, time)])
        else
          s.(workers := s.workers[u := Worker(w.pos + 1, time, w.waiting)])
  }

  function Initial(uids: set<nat>): State {
    State([], map u | u in uids :: Worker(0, 0.0, None), [], false)
  }

  // A run: every action is enabled where it happens.
  ghost predicate IsRun(s: State, actions: seq<Action>, interval: real, s': State)
    decreases |actions|
  {
    if actions == [] then s' == s
    else Enabled(s, actions[0]) && IsRun(Step(s, actions[0], interval), actions[1..], interval, s')
  }

  // ----- What every step keeps -----

  // A worker that is replaying has exactly one record ahead: the one it waits for.
  ghost predicate WorkerInv(log: seq<Record>, u: nat, w: Worker, interval: real) {
    && w.pos <= |log| && w.eventTime == EventTime(log, interval, w.pos)
    && match w.waiting
       case None => NoneFrom(log, u, w.pos)
       case Some(record) => exists i :: OwnRecordAt(log, u, w.pos, record, i)
  }

  ghost predicate OwnRecordAt(log: seq<Record>, u: nat, pos: nat, record: Record, i: int) {
    && pos <= i < |log| && log[i] == record && record.uid == u
    && forall j :: pos <= j < |log| && j != i ==> log[j].uid != u
  }

  ghost predicate EventInv(s: State, e: Event, interval: real) {
    && e.uid in s.workers && e.index < s.workers[e.uid].pos && e.index < |s.log|
    && s.log[e.index].uid == e.uid && e.time == EventTime(s.log, interval, e.index + 1)
  }

  ghost predicate Inv(s: State, interval: real) {
    && !s.failed
    && (forall u :: u in s.workers ==> WorkerInv(s.log, u, s.workers[u], interval))
    && (forall k :: 0 <= k < |s.events| ==> EventInv(s, s.events[k], interval))
    && (forall k, l :: 0 <= k < l < |s.events| ==> s.events[k].index != s.events[l].index)
  }

  lemma AppendKeepsWorker(log: seq<Record>, record: Record, u: nat, w: Worker, interval: real)
    requires WorkerInv(log, u, w, interval) && record.uid != u
    ensures WorkerInv(log + [record], u, w, interval)
  {
    EventTimePrefix(log, log + [record], interval, w.pos);
    if w.waiting.Some? {
      var i :| OwnRecordAt(log, u, w.pos, w.waiting.value, i);
      assert OwnRecordAt(log + [record], u, w.pos, w.waiting.value, i);
    }
  }

  lemma AppendStep(s: State, a: Action, interval: real)
    requires Inv(s, interval) && Enabled(s, a) && a.Append?
    ensures Inv(Step(s, a, interval), interval)
  {
    var s', record := Step(s, a, interval), Record(a.now, a.uid);
    forall u | u in s'.workers ensures WorkerInv(s'.log, u, s'.workers[u], interval) {
      if u == a.uid {
        EventTimePrefix(s.log, s'.log, interval, s.workers[u].pos);
        assert OwnRecordAt(s'.log, u, s.workers[u].pos, record, |s.log|);
      } else {
        AppendKeepsWorker(s.log, record, u, s.workers[u], interval);
      }
    }
    forall k | 0 <= k < |s'.events| ensures EventInv(s', s'.events[k], interval) {
      assert EventInv(s, s.events[k], interval);
      EventTimePrefix(s.log, s'.log, interval, s.events[k].index + 1);
    }
  }

  lemma NextEvent(log: seq<Record>, interval: real, pos: nat)
    ensures pos < |log|
        ==> EventTime(log, interval, pos + 1) == Max(log[pos].t, EventTime(log, interval, pos) + interval)
  {
  }

  // The replay loop never runs off the log, and stops at the worker's own newest record.
  lemma ReadStep(s: State, a: Action, interval: real)
    requires Inv(s, interval) && Enabled(s, a) && a.ReadLine?
    ensures Inv(Step(s, a, interval), interval)
    ensures var w := s.workers[a.uid];
      w.pos < |s.log| && (s.log[w.pos] == w.waiting.value ==> NoneFrom(s.log, a.uid, w.pos + 1))
  {
    hide EventTime;
    var s', w := Step(s, a, interval), s.workers[a.uid];
    var record := w.waiting.value;
    NextEvent(s.log, interval, w.pos);
    var i :| OwnRecordAt(s.log, a.uid, w.pos, record, i);
    assert i == w.pos <==> s.log[w.pos] == record;
    if s.log[w.pos] != record {
      assert OwnRecordAt(s.log, a.uid, w.pos + 1, record, i);
    }
    forall k | 0 <= k < |s'.events| ensures EventInv(s', s'.events[k], interval) {
      if k < |s.events| {
        assert EventInv(s, s.events[k], interval);
      }
    }
    forall k | 0 <= k < |s.events| ensures s.events[k].index != w.pos || s.log[w.pos] != record {
      assert EventInv(s, s.events[k], interval);
    }
  }

  lemma {:induction false} RunKeepsInv(s: State, actions: seq<Action>, interval: real, s': State)
    requires Inv(s, interval) && IsRun(s, actions, interval, s')
    ensures Inv(s', interval)
    decreases |actions|
  {
    if actions != [] {
      if actions[0].Append? {
        AppendStep(s, actions[0], interval);
      } else {
        ReadStep(s, actions[0], interval);
      }
      RunKeepsInv(Step(s, actions[0], interval), actions[1..], interval, s');
    }
  }

  // ----- Every call that is over has its event -----

  ghost predicate HasEvent(s: State, i: int) {
    exists k :: 0 <= k < |s.events| && s.events[k].index == i
  }

  // Record i was written by a worker that has returned its event or has yet to read it.
  ghost predicate Served(s: State, i: nat)
    requires i < |s.log|
  {
    s.log[i].uid in s.workers && (s.workers[s.log[i].uid].pos <= i || HasEvent(s, i))
  }

  ghost predicate AllServed(s: State) {
    forall i :: 0 <= i < |s.log| ==> Served(s, i)
  }

  lemma {:induction false} AppendServes(s: State, a: Action, interval: real)
    requires Inv(s, interval) && AllServed(s) && Enabled(s, a) && a.Append?
    ensures AllServed(Step(s, a, interval))
  {
    hide EventTime;
    var s' := Step(s, a, interval);
    forall i | 0 <= i < |s'.log| ensures Served(s', i) {
      if i < |s.log| {
        assert Served(s, i);
        if HasEvent(s, i) { assert HasEvent(s', i); }
      }
    }
  }

  lemma {:induction false} ReadServes(s: State, a: Action, interval: real)
    requires Inv(s, interval) && AllServed(s) && Enabled(s, a) && a.ReadLine?
    ensures AllServed(Step(s, a, interval))
  {
    hide EventTime;
    var s', w := Step(s, a, interval), s.workers[a.uid];
    ReadStep(s, a, interval);
    var own :| OwnRecordAt(s.log, a.uid, w.pos, w.waiting.value, own);
    forall i | 0 <= i < |s'.log| ensures Served(s', i) {
      assert Served(s, i);
      if HasEvent(s, i) {
        var k :| 0 <= k < |s.events| && s.events[k].index == i;
        assert s'.events[k] == s.events[k];
        assert HasEvent(s', i);
      } else if i == w.pos && s.log[i].uid == a.uid {
        assert s'.events[|s.events|].index == i;
        assert HasEvent(s', i);
      }
    }
  }

  lemma {:induction false} RunServes(s: State, actions: seq<Action>, interval: real, s': State)
    requires Inv(s, interval) && AllServed(s) && IsRun(s, actions, interval, s')
    ensures AllServed(s')
    decreases |actions|
  {
    hide Inv, AllServed, Step;
    if actions != [] {
      if actions[0].Append? {
        AppendStep(s, actions[0], interval);
        AppendServes(s, actions[0], interval);
      } else {
        ReadStep(s, actions[0], interval);
        ReadServes(s, actions[0], interval);
      }
      RunServes(Step(s, actions[0], interval), actions[1..], interval, s');
    }
  }

  // Over every run, each record of a worker that is not waiting has exactly one event.
  lemma {:induction false} EveryCallHasItsEvent(uids: set<nat>, actions: seq<Action>, interval: real, s: State, i: nat)
    requires IsRun(Initial(uids), actions, interval, s) && i < |s.log|
    ensures s.log[i].uid in s.workers
    ensures s.workers[s.log[i].uid].waiting.None? ==>
              exists k :: 0 <= k < |s.events| && s.events[k].index == i && s.events[k].uid == s.log[i].uid
                && forall l :: 0 <= l < |s.events| && s.events[l].index == i ==> l == k
  {
    RunKeepsInv(Initial(uids), actions, interval, s);
    RunServes(Initial(uids), actions, interval, s);
    assert Served(s, i);
    var u := s.log[i].uid;
    assert WorkerInv(s.log, u, s.workers[u], interval);
    if s.workers[u].waiting.None? {
      assert s.workers[u].pos > i;
      var k :| 0 <= k < |s.events| && s.events[k].index == i;
      assert EventInv(s, s.events[k], interval);
    }
  }

  // ----- What the fold gives -----

  lemma {:induction false} EventTimeGrows(log: seq<Record>, interval: real, i: nat, j: nat)
    requires i < j <= |log| && interval > 0.0
    ensures EventTime(log, interval, j) >= EventTime(log, interval, i) + interval
    decreases j
  {
    if i < j - 1 { EventTimeGrows(log, interval, i, j - 1); }
  }

  function Intervals(n: int, interval: real): real {
    n as real * interval
  }

  lemma OneMoreInterval(n: int, interval: real)
    ensures Intervals(n + 1, interval) == Intervals(n, interval) + interval
    ensures Intervals(0, interval) == 0.0
  {
  }

  // The term that record j contributes to event k.
  function Contribution(log: seq<Record>, interval: real, j: nat, k: nat): real
    requires j <= k < |log|
  {
    log[j].t + Intervals(k - j, interval)
  }

  // The k-th event time is the maximum of (k+1) * interval and of all contributions up to k.
  lemma {:induction false} EventTimeClosedForm(log: seq<Record>, interval: real, k: nat)
    requires k < |log|
    ensures var e := EventTime(log, interval, k + 1);
      && e >= Intervals(k + 1, interval)
      && (forall j :: 0 <= j <= k ==> e >= Contribution(log, interval, j, k))
      && (e == Intervals(k + 1, interval) || exists j :: 0 <= j <= k && e == Contribution(log, interval, j, k))
  {
    hide Intervals;
    var e, before := EventTime(log, interval, k + 1), EventTime(log, interval, k);
    assert e == Max(log[k].t, before + interval);
    OneMoreInterval(k, interval);
    assert Contribution(log, interval, k, k) == log[k].t;
    if k > 0 {
      EventTimeClosedForm(log, interval, k - 1);
      forall j | 0 <= j < k
        ensures Contribution(log, interval, j, k) == Contribution(log, interval, j, k - 1) + interval
      {
        OneMoreInterval(k - 1 - j, interval);
      }
      if e != log[k].t && before != Intervals(k, interval) {
        var j :| 0 <= j <= k - 1 && before == Contribution(log, interval, j, k - 1);
        assert e == Contribution(log, interval, j, k);
      }
    }
  }

  // ----- Over every run of any number of workers -----

  // All workers agree on one schedule, no call fails, and events are at least interval apart.
  lemma ScheduleIsShared(uids: set<nat>, actions: seq<Action>, interval: real, s: State)
    requires interval > 0.0 && IsRun(Initial(uids), actions, interval, s)
    ensures !s.failed
    ensures forall u :: u in s.workers ==>
      s.workers[u].pos <= |s.log| && s.workers[u].eventTime == EventTime(s.log, interval, s.workers[u].pos)
    ensures forall k :: 0 <= k < |s.events| ==>
      var e := s.events[k];
      && e.index < |s.log| && s.log[e.index].uid == e.uid
      && e.time == EventTime(s.log, interval, e.index + 1) && e.time >= s.log[e.index].t
    ensures forall k, l :: 0 <= k < |s.events| && 0 <= l < |s.events| && k != l ==>
      s.events[k].time >= s.events[l].time + interval || s.events[l].time >= s.events[k].time + interval
  {
    RunKeepsInv(Initial(uids), actions, interval, s);
    forall k | 0 <= k < |s.events| ensures EventInv(s, s.events[k], interval) {}
    forall k, l | 0 <= k < |s.events| && 0 <= l < |s.events| && k != l
      ensures s.events[k].time >= s.events[l].time + interval || s.events[l].time >= s.events[k].time + interval
    {
      var i, j := s.events[k].index, s.events[l].index;
      assert i != j;
      if i < j {
        EventTimeGrows(s.log, interval, i + 1, j + 1);
      } else {
        EventTimeGrows(s.log, interval, j + 1, i + 1);
      }
    }
  }
}
