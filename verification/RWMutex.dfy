/**
 * The reader/writer latch as a protocol of any number of threads.  The mutex makes the code between two waits one
 * step; a wait parks the thread on a condition variable until it is notified, or wakes up for no reason.
 */
module RWMutexes {

  /**
   * Where a thread is.  ParkedW and ParkedR wait on reader_, in the first loop of WLock and in RLock; ParkedDrain
   * waits on writer_, in the second loop of WLock.  The Awake states have been notified and not run since.
   */
  datatype Status = Out | ParkedW | AwakeW | ParkedDrain | AwakeDrain | Writing | ParkedR | AwakeR | Reading

  datatype State = State(threads: seq<Status>, readers: int, entered: bool) {
    function At(t: nat, status: Status): State
      requires t < |threads|
    {
      this.(threads := threads[t := status])
    }
  }

  predicate OnReaderCond(st: Status) {
    st.ParkedW? || st.ParkedR?
  }

  /** The thread has announced itself as the writer. */
  predicate IsWriter(st: Status) {
    st.ParkedDrain? || st.AwakeDrain? || st.Writing?
  }

  function Woken(st: Status): Status {
    match st
    case ParkedW => AwakeW
    case ParkedR => AwakeR
    case ParkedDrain => AwakeDrain
    case _ => st
  }

  // ----- the code between two waits -----

  /** WLock from its first loop on. */
  function WLock(s: State, t: nat): State
    requires t < |s.threads|
  {
    if s.entered then s.At(t, ParkedW) else Drain(s.(entered := true), t)
  }

  /** WLock from its second loop on. */
  function Drain(s: State, t: nat): State
    requires t < |s.threads|
  {
    if s.readers > 0 then s.At(t, ParkedDrain) else s.At(t, Writing)
  }

  function RLock(max: nat, s: State, t: nat): State
    requires t < |s.threads|
  {
    if s.entered || s.readers == max then s.At(t, ParkedR) else s.At(t, Reading).(readers := s.readers + 1)
  }

  /** WUnlock: notify_all on reader_. */
  function WUnlock(s: State, t: nat): State
    requires t < |s.threads|
  {
    var ts := s.threads[t := Out];
    s.(entered := false, threads := seq(|ts|,
      i requires 0 <= i < |ts| => if OnReaderCond(ts[i]) then Woken(ts[i]) else ts[i]))
  }

  /** notify_one: one of the parked threads wakes up, if there is any. */
  ghost predicate NotifyOne(ts: seq<Status>, ts': seq<Status>, onReader: bool) {
    if exists w :: 0 <= w < |ts| && (if onReader then OnReaderCond(ts[w]) else ts[w].ParkedDrain?) then
      exists w :: 0 <= w < |ts| && (if onReader then OnReaderCond(ts[w]) else ts[w].ParkedDrain?)
        && ts' == ts[w := Woken(ts[w])]
    else ts' == ts
  }

  ghost predicate RUnlock(max: nat, s: State, t: nat, s': State)
    requires t < |s.threads|
  {
    var ts, n := s.threads[t := Out], s.readers - 1;
    && s'.readers == n && s'.entered == s.entered
    && if s.entered then (if n == 0 then NotifyOne(ts, s'.threads, false) else s'.threads == ts)
       else (if n == max - 1 then NotifyOne(ts, s'.threads, true) else s'.threads == ts)
  }

  // ----- runs -----

  /** Thread t makes a step: it calls, goes on after a wait, unlocks, or wakes up for no reason. */
  ghost predicate StepOf(max: nat, s: State, t: nat, s': State)
    requires t < |s.threads|
  {
    match s.threads[t]
    case Out => s' == WLock(s, t) || s' == RLock(max, s, t)
    case AwakeW => s' == WLock(s, t)
    case AwakeDrain => s' == Drain(s, t)
    case AwakeR => s' == RLock(max, s, t)
    case Writing => s' == WUnlock(s, t)
    case Reading => RUnlock(max, s, t, s')
    case _ => s' == s.At(t, Woken(s.threads[t]))
  }

  ghost predicate Step(max: nat, s: State, s': State) {
    exists t: nat :: t < |s.threads| && StepOf(max, s, t, s')
  }

  function Start(n: nat): State {
    State(seq(n, _ => Out), 0, false)
  }

  ghost predicate IsRun(n: nat, max: nat, run: seq<State>) {
    && |run| > 0 && run[0] == Start(n)
    && forall i {:trigger run[i]} :: 0 <= i < |run| - 1 ==> Step(max, run[i], run[i + 1])
  }

  ghost predicate Reachable(n: nat, max: nat, s: State) {
    exists run :: IsRun(n, max, run) && run[|run| - 1] == s
  }

  lemma StartReachable(n: nat, max: nat)
    ensures Reachable(n, max, Start(n))
  {
    assert IsRun(n, max, [Start(n)]);
  }

  lemma ReachStep(n: nat, max: nat, s: State, t: nat, s': State)
    requires Reachable(n, max, s) && t < |s.threads| && StepOf(max, s, t, s')
    ensures Reachable(n, max, s')
  {
    var run :| IsRun(n, max, run) && run[|run| - 1] == s;
    var run' := run + [s'];
    assert Step(max, s, s');
    forall i | 0 <= i < |run'| - 1 ensures Step(max, run'[i], run'[i + 1]) {
      assert run'[i] == run[i];
    }
    assert IsRun(n, max, run');
  }

  // ----- exclusion -----

  function Readings(ts: seq<Status>): nat {
    if ts == [] then 0 else (if ts[0].Reading? then 1 else 0) + Readings(ts[1..])
  }

  lemma {:induction false} ReadingsAt(ts: seq<Status>, t: nat, st: Status)
    requires t < |ts|
    ensures Readings(ts[t := st]) == Readings(ts) - (if ts[t].Reading? then 1 else 0) + if st.Reading? then 1 else 0
  {
    if t == 0 {
      assert ts[t := st][1..] == ts[1..];
    } else {
      assert ts[t := st][1..] == ts[1..][t - 1 := st];
      ReadingsAt(ts[1..], t - 1, st);
    }
  }

  lemma {:induction false} ReadingsPositive(ts: seq<Status>) returns (t: nat)
    requires Readings(ts) > 0
    ensures t < |ts| && ts[t].Reading?
  {
    if ts[0].Reading? { return 0; }
    var r := ReadingsPositive(ts[1..]);
    t := r + 1;
  }

  lemma {:induction false} ReadingsSame(ts: seq<Status>, ts': seq<Status>)
    requires |ts| == |ts'| && forall i :: 0 <= i < |ts| ==> (ts[i].Reading? <==> ts'[i].Reading?)
    ensures Readings(ts) == Readings(ts')
  {
    if ts != [] { ReadingsSame(ts[1..], ts'[1..]); }
  }

  ghost predicate SomeWriter(ts: seq<Status>) {
    exists w :: 0 <= w < |ts| && IsWriter(ts[w])
  }

  /** reader_count_ is the number of readers, one thread at most is the writer, and it writes alone. */
  ghost predicate Exclusive(max: nat, s: State) {
    && 0 <= s.readers == Readings(s.threads) <= max
    && (s.entered <==> SomeWriter(s.threads))
    && (forall v, w :: 0 <= v < w < |s.threads| ==> !(IsWriter(s.threads[v]) && IsWriter(s.threads[w])))
    && (forall w :: 0 <= w < |s.threads| && s.threads[w].Writing? ==> s.readers == 0)
  }

  /** Waking threads up changes nothing of this. */
  lemma WakeKeepsExclusive(max: nat, s: State, ts': seq<Status>)
    requires Exclusive(max, s) && |ts'| == |s.threads|
    requires forall i :: 0 <= i < |ts'| ==> ts'[i] == s.threads[i] || ts'[i] == Woken(s.threads[i])
    ensures Exclusive(max, s.(threads := ts'))
  {
    ReadingsSame(s.threads, ts');
    if SomeWriter(s.threads) {
      var w :| 0 <= w < |ts'| && IsWriter(s.threads[w]);
      assert IsWriter(ts'[w]);
    }
  }

  /** One thread changes its place. */
  lemma MoveKeepsExclusive(max: nat, s: State, t: nat, s': State)
    requires Exclusive(max, s) && t < |s.threads| == |s'.threads| && s'.threads == s.threads[t := s'.threads[t]]
    requires s'.readers == s.readers - (if s.threads[t].Reading? then 1 else 0) + (if s'.threads[t].Reading? then 1 else 0)
    requires 0 <= s'.readers <= max
    requires if IsWriter(s'.threads[t]) then s'.entered && (IsWriter(s.threads[t]) || !s.entered)
             else s'.entered == (s.entered && !IsWriter(s.threads[t]))
    requires s'.threads[t].Writing? ==> s'.readers == 0
    requires s'.threads[t].Reading? ==> !s.entered
    ensures Exclusive(max, s')
  {
    var ts, ts' := s.threads, s'.threads;
    ReadingsAt(ts, t, ts'[t]);
    if w :| 0 <= w < |ts| && IsWriter(ts[w]) {
      assert w != t ==> IsWriter(ts'[w]);
    }
    if IsWriter(ts'[t]) {
      assert SomeWriter(ts');
      forall w | 0 <= w < |ts| && w != t ensures !IsWriter(ts[w]) {
        if IsWriter(ts[w]) { assert SomeWriter(ts); }
      }
    }
    forall w | 0 <= w < |ts'| && ts'[w].Writing? ensures s'.readers == 0 {
      if w != t { assert IsWriter(ts[w]) && SomeWriter(ts); }
    }
  }

  lemma NotifyWakesOnly(ts: seq<Status>, ts': seq<Status>, onReader: bool)
    requires NotifyOne(ts, ts', onReader)
    ensures |ts'| == |ts| && forall i :: 0 <= i < |ts'| ==> ts'[i] == ts[i] || ts'[i] == Woken(ts[i])
  {
  }

  lemma StepKeepsExclusive(max: nat, s: State, t: nat, s': State)
    requires max > 0 && Exclusive(max, s) && t < |s.threads| && StepOf(max, s, t, s')
    ensures Exclusive(max, s') && |s'.threads| == |s.threads|
  {
    var ts := s.threads;
    if IsWriter(ts[t]) { assert SomeWriter(ts); }
    if ts[t].Reading? {
      ReadingsAt(ts, t, Out);
      var s1 := State(ts[t := Out], s.readers - 1, s.entered);
      MoveKeepsExclusive(max, s, t, s1);
      if s'.threads != s1.threads {
        NotifyWakesOnly(s1.threads, s'.threads, !s.entered);
      }
      WakeKeepsExclusive(max, s1, s'.threads);
      assert s' == s1.(threads := s'.threads);
    } else if ts[t].Writing? {
      var s1 := State(ts[t := Out], s.readers, false);
      MoveKeepsExclusive(max, s, t, s1);
      WakeKeepsExclusive(max, s1, s'.threads);
      assert s' == s1.(threads := s'.threads);
    } else {
      MoveKeepsExclusive(max, s, t, s');
    }
  }

  lemma StartExclusive(n: nat, max: nat)
    ensures Exclusive(max, Start(n))
  {
    NoReadings(Start(n).threads);
  }

  lemma {:induction false} NoReadings(ts: seq<Status>)
    requires forall i :: 0 <= i < |ts| ==> !ts[i].Reading?
    ensures Readings(ts) == 0
  {
    if ts != [] { NoReadings(ts[1..]); }
  }

  lemma {:induction false} RunExclusive(n: nat, max: nat, run: seq<State>, i: nat)
    requires max > 0 && IsRun(n, max, run) && i < |run|
    ensures Exclusive(max, run[i]) && |run[i].threads| == n
  {
    if i == 0 {
      StartExclusive(n, max);
    } else {
      RunExclusive(n, max, run, i - 1);
      assert Step(max, run[i - 1], run[i - 1 + 1]);
      var t: nat :| t < |run[i - 1].threads| && StepOf(max, run[i - 1], t, run[i]);
      StepKeepsExclusive(max, run[i - 1], t, run[i]);
    }
  }

  /** In every state that n threads can get into: readers exclude writers, and writers exclude each other. */
  lemma Exclusion(n: nat, max: nat, s: State)
    requires max > 0 && Reachable(n, max, s)
    ensures |s.threads| == n && Exclusive(max, s)
    ensures forall v, w :: 0 <= v < n && 0 <= w < n && v != w && s.threads[v].Writing? ==>
      !s.threads[w].Writing? && !s.threads[w].Reading?
  {
    var run :| IsRun(n, max, run) && run[|run| - 1] == s;
    RunExclusive(n, max, run, |run| - 1);
    forall v, w | 0 <= v < n && 0 <= w < n && v != w && s.threads[v].Writing?
      ensures !s.threads[w].Writing? && !s.threads[w].Reading?
    {
      if s.threads[w].Reading? { ReadingsAt(s.threads, w, Out); }
      assert IsWriter(s.threads[v]);
    }
  }

  // ----- who gets the latch -----

  ghost predicate SomeReads(ts: seq<Status>) {
    exists r :: 0 <= r < |ts| && ts[r].Reading?
  }

  /** Where a call of WLock gets to. */
  ghost function WriterPlace(ts: seq<Status>): Status {
    if SomeWriter(ts) then ParkedW else DrainPlace(ts)
  }

  /** Where the announced writer gets to. */
  ghost function DrainPlace(ts: seq<Status>): Status {
    if SomeReads(ts) then ParkedDrain else Writing
  }

  /** Where a call of RLock gets to. */
  ghost function ReaderPlace(max: nat, ts: seq<Status>): Status {
    if !SomeWriter(ts) && Readings(ts) < max then Reading else ParkedR
  }

  /** A writer goes: whoever is parked on reader_ is notified. */
  ghost predicate WriterGoes(ts: seq<Status>, t: nat, ts': seq<Status>)
    requires t < |ts|
  {
    && |ts'| == |ts| && ts'[t] == Out
    && forall i :: 0 <= i < |ts| && i != t ==>
      ts'[i] == match ts[i]
                case ParkedW => AwakeW
                case ParkedR => AwakeR
                case _ => ts[i]
  }

  /** A reader goes: the last one notifies the announced writer, and one of `max` readers notifies whoever waits. */
  ghost predicate ReaderGoes(max: nat, ts: seq<Status>, t: nat, ts': seq<Status>)
    requires t < |ts|
  {
    var rest := ts[t := Out];
    if SomeWriter(ts) && !SomeReads(rest) then NotifyOne(rest, ts', false)
    else if !SomeWriter(ts) && Readings(ts) == max then NotifyOne(rest, ts', true)
    else ts' == rest
  }

  /** A step of thread t, told by what the threads hold. */
  ghost predicate Moves(max: nat, ts: seq<Status>, t: nat, ts': seq<Status>)
    requires t < |ts|
  {
    match ts[t]
    case Out => ts' == ts[t := WriterPlace(ts)] || ts' == ts[t := ReaderPlace(max, ts)]
    case AwakeW => ts' == ts[t := WriterPlace(ts)]
    case AwakeDrain => ts' == ts[t := DrainPlace(ts)]
    case AwakeR => ts' == ts[t := ReaderPlace(max, ts)]
    case Writing => WriterGoes(ts, t, ts')
    case Reading => ReaderGoes(max, ts, t, ts')
    case ParkedW => ts' == ts[t := AwakeW]
    case ParkedDrain => ts' == ts[t := AwakeDrain]
    case ParkedR => ts' == ts[t := AwakeR]
  }

  /** The two fields of the latch say what the threads hold. */
  ghost predicate Counts(s: State) {
    s.readers == Readings(s.threads) && (s.entered <==> SomeWriter(s.threads))
  }

  lemma ReadsIff(ts: seq<Status>)
    ensures Readings(ts) > 0 <==> SomeReads(ts)
  {
    if Readings(ts) > 0 { var r := ReadingsPositive(ts); } else if SomeReads(ts) {
      var r :| 0 <= r < |ts| && ts[r].Reading?;
      ReadingsAt(ts, r, Out);
    }
  }

  /** The steps of the code are exactly these moves; so who gets the latch depends on who holds it, and on nothing else. */
  lemma StepIff(n: nat, max: nat, s: State, t: nat, s': State)
    requires max > 0 && Reachable(n, max, s) && t < |s.threads|
    ensures StepOf(max, s, t, s') <==> Moves(max, s.threads, t, s'.threads) && Counts(s')
  {
    Exclusion(n, max, s);
    if StepOf(max, s, t, s') {
      StepMoves(max, s, t, s');
      StepKeepsExclusive(max, s, t, s');
    }
    if Moves(max, s.threads, t, s'.threads) && Counts(s') {
      var s1 := MoveIsStep(max, s, t, s'.threads);
      StepKeepsExclusive(max, s, t, s1);
      assert s1 == s';
    }
  }

  lemma StepMoves(max: nat, s: State, t: nat, s': State)
    requires max > 0 && Exclusive(max, s) && t < |s.threads| && StepOf(max, s, t, s')
    ensures Moves(max, s.threads, t, s'.threads)
  {
    hide NotifyOne;
    ReadsIff(s.threads);
    ReadsIff(s.threads[t := Out]);
    ReadingsAt(s.threads, t, Out);
  }

  lemma MoveIsStep(max: nat, s: State, t: nat, ts': seq<Status>) returns (s': State)
    requires max > 0 && Exclusive(max, s) && t < |s.threads| && Moves(max, s.threads, t, ts')
    ensures StepOf(max, s, t, s') && s'.threads == ts'
  {
    hide NotifyOne;
    ReadsIff(s.threads);
    ReadsIff(s.threads[t := Out]);
    ReadingsAt(s.threads, t, Out);
    s' := match s.threads[t]
          case Out => if ts' == s.threads[t := WriterPlace(s.threads)] then WLock(s, t) else RLock(max, s, t)
          case AwakeW => WLock(s, t)
          case AwakeDrain => Drain(s, t)
          case AwakeR => RLock(max, s, t)
          case Writing => WUnlock(s, t)
          case Reading => State(ts', s.readers - 1, s.entered)
          case _ => s.At(t, Woken(s.threads[t]));
  }

  /**
   * A call of WLock, by a thread outside or one that has been notified, gets the latch exactly if no thread reads and none
   * is the announced writer; it becomes the announced writer exactly if no other is; and it waits otherwise.
   */
  lemma WLockGrants(n: nat, max: nat, s: State, t: nat)
    requires max > 0 && Reachable(n, max, s) && t < |s.threads| && (s.threads[t].Out? || s.threads[t].AwakeW?)
    ensures
      var ts, ts' := s.threads, WLock(s, t).threads;
      && StepOf(max, s, t, WLock(s, t)) && |ts'| == |ts| && (forall i :: 0 <= i < |ts| && i != t ==> ts'[i] == ts[i])
      && (ts'[t].Writing? <==> forall i :: 0 <= i < |ts| ==> !ts[i].Reading? && !IsWriter(ts[i]))
      && (IsWriter(ts'[t]) <==> forall i :: 0 <= i < |ts| ==> !IsWriter(ts[i]))
      && (IsWriter(ts'[t]) && !ts'[t].Writing? <==> ts'[t].ParkedDrain?)
      && (!IsWriter(ts'[t]) <==> ts'[t].ParkedW?)
  {
    Exclusion(n, max, s);
    ReadsIff(s.threads);
  }

  /** The announced writer goes on exactly when no thread reads. */
  lemma DrainGrants(n: nat, max: nat, s: State, t: nat, s': State)
    requires max > 0 && Reachable(n, max, s) && t < |s.threads| && s.threads[t].AwakeDrain? && StepOf(max, s, t, s')
    ensures
      var ts, ts' := s.threads, s'.threads;
      && |ts'| == |ts| && (forall i :: 0 <= i < |ts| && i != t ==> ts'[i] == ts[i])
      && (ts'[t].Writing? <==> forall i :: 0 <= i < |ts| ==> !ts[i].Reading?)
      && (!ts'[t].Writing? <==> ts'[t].ParkedDrain?)
  {
    Exclusion(n, max, s);
    ReadsIff(s.threads);
  }

  /** A call of RLock gets the latch exactly if no thread is the announced writer and fewer than max threads read. */
  lemma RLockGrants(n: nat, max: nat, s: State, t: nat)
    requires max > 0 && Reachable(n, max, s) && t < |s.threads| && (s.threads[t].Out? || s.threads[t].AwakeR?)
    ensures
      var ts, ts' := s.threads, RLock(max, s, t).threads;
      && StepOf(max, s, t, RLock(max, s, t)) && |ts'| == |ts|
      && (forall i :: 0 <= i < |ts| && i != t ==> ts'[i] == ts[i])
      && (ts'[t].Reading? <==> Readings(ts) < max && forall i :: 0 <= i < |ts| ==> !IsWriter(ts[i]))
      && (!ts'[t].Reading? <==> ts'[t].ParkedR?)
  {
    Exclusion(n, max, s);
  }

  // ----- lost wakeups -----

  ghost predicate Parked(st: Status) {
    OnReaderCond(st) || st.ParkedDrain?
  }

  /** Threads wait, and nobody holds the latch or is about to run. */
  ghost predicate Stuck(s: State) {
    && (exists t :: 0 <= t < |s.threads| && Parked(s.threads[t]))
    && forall t :: 0 <= t < |s.threads| ==> s.threads[t].Out? || Parked(s.threads[t])
  }

  /** A thread parked on reader_ waits for a writer, or for a full house of readers; the writer waits for readers. */
  ghost predicate NoLostWakeup(max: nat, s: State) {
    forall t {:trigger s.threads[t]} :: 0 <= t < |s.threads| ==>
      && (s.threads[t].ParkedW? ==> s.entered)
      && (s.threads[t].ParkedR? ==> s.entered || s.readers == max || (max == 1 && SomeAwake(s.threads)))
      && (s.threads[t].ParkedDrain? ==> s.readers > 0)
  }

  ghost predicate SomeAwake(ts: seq<Status>) {
    exists t :: 0 <= t < |ts| && ts[t].AwakeR?
  }

  lemma NotStuck(max: nat, s: State)
    requires max > 0 && Exclusive(max, s) && NoLostWakeup(max, s)
    ensures !Stuck(s)
  {
    if Stuck(s) {
      NoReadings(s.threads);
      assert false;
    }
  }

  lemma {:induction false} ReadingsBound(ts: seq<Status>)
    ensures Readings(ts) <= |ts|
  {
    if ts != [] { ReadingsBound(ts[1..]); }
  }

  /** If all but one thread are readers, the others are one thread. */
  lemma OneOther(ts: seq<Status>, v: nat, w: nat)
    requires v < |ts| && w < |ts| && !ts[v].Reading? && !ts[w].Reading? && |ts| <= Readings(ts) + 1
    ensures v == w
  {
    if v != w {
      ReadingsAt(ts, v, Reading);
      ReadingsAt(ts[v := Reading], w, Reading);
      ReadingsBound(ts[v := Reading][w := Reading]);
    }
  }

  lemma UnlockKeepsWakeups(max: nat, s: State, t: nat, s': State)
    requires max > 0 && Exclusive(max, s) && NoLostWakeup(max, s) && t < |s.threads| && s.threads[t].Reading?
    requires RUnlock(max, s, t, s') && (|s.threads| <= max + 1 || max == 1)
    ensures NoLostWakeup(max, s')
  {
    var ts, ts1 := s.threads, s.threads[t := Out];
    ReadingsAt(ts, t, Out);
    if s.entered {
      if s.readers == 1 {
        if exists w :: 0 <= w < |ts1| && ts1[w].ParkedDrain? {
          var w :| 0 <= w < |ts1| && ts1[w].ParkedDrain? && s'.threads == ts1[w := Woken(ts1[w])];
          forall v | 0 <= v < |ts1| && v != w ensures !ts1[v].ParkedDrain? {
            assert IsWriter(ts[w]) && !(IsWriter(ts[if v < w then v else w]) && IsWriter(ts[if v < w then w else v]));
          }
        }
      }
    } else if s.readers == max {
      forall v | 0 <= v < |ts| && s'.threads[v].ParkedR? ensures max == 1 && SomeAwake(s'.threads) {
        assert OnReaderCond(ts1[v]);
        var w :| 0 <= w < |ts1| && OnReaderCond(ts1[w]) && s'.threads == ts1[w := Woken(ts1[w])];
        assert ts[w].ParkedR? && ts[v].ParkedR?;
        if max != 1 {
          OneOther(ts, v, w);
        } else {
          assert s'.threads[w].AwakeR?;
        }
      }
    }
    if !s.entered { NoneDrains(max, s, ts1, s'.threads); }
  }

  /** Without a writer nobody waits on writer_. */
  lemma NoneDrains(max: nat, s: State, ts1: seq<Status>, ts': seq<Status>)
    requires Exclusive(max, s) && !s.entered && |ts1| == |s.threads|
    requires forall v :: 0 <= v < |ts1| ==> ts1[v].Out? || ts1[v] == s.threads[v]
    requires ts' == ts1 || NotifyOne(ts1, ts', true)
    ensures |ts'| == |ts1|
    ensures forall v :: 0 <= v < |ts'| ==> !ts'[v].ParkedDrain? && (ts'[v].ParkedW? ==> s.threads[v].ParkedW?)
  {
    if ts' != ts1 { NotifyWakesOnly(ts1, ts', true); }
    assert forall v :: 0 <= v < |ts1| ==> !IsWriter(s.threads[v]);
  }

  lemma StepKeepsWakeups(max: nat, s: State, t: nat, s': State)
    requires max > 0 && Exclusive(max, s) && NoLostWakeup(max, s) && t < |s.threads| && StepOf(max, s, t, s')
    requires |s.threads| <= max + 1 || max == 1
    ensures NoLostWakeup(max, s')
  {
    if s.threads[t].Reading? {
      UnlockKeepsWakeups(max, s, t, s');
    } else if s.threads[t].Writing? {
      assert IsWriter(s.threads[t]);
    } else if SomeAwake(s.threads) {
      var w :| 0 <= w < |s.threads| && s.threads[w].AwakeR?;
      assert w != t ==> s'.threads[w].AwakeR?;
    }
  }

  lemma {:induction false} RunKeepsWakeups(n: nat, max: nat, run: seq<State>, i: nat)
    requires max > 0 && IsRun(n, max, run) && i < |run| && (n <= max + 1 || max == 1)
    ensures NoLostWakeup(max, run[i])
  {
    if i > 0 {
      RunKeepsWakeups(n, max, run, i - 1);
      RunExclusive(n, max, run, i - 1);
      assert Step(max, run[i - 1], run[i - 1 + 1]);
      var t: nat :| t < |run[i - 1].threads| && StepOf(max, run[i - 1], t, run[i]);
      StepKeepsWakeups(max, run[i - 1], t, run[i]);
    }
  }

  /** With at most one thread more than there may be readers, no wakeup is lost and the threads never get stuck. */
  lemma Wakeups(n: nat, max: nat, s: State)
    requires max > 0 && Reachable(n, max, s) && (n <= max + 1 || max == 1)
    ensures NoLostWakeup(max, s) && !Stuck(s)
  {
    var run :| IsRun(n, max, run) && run[|run| - 1] == s;
    RunKeepsWakeups(n, max, run, |run| - 1);
    RunExclusive(n, max, run, |run| - 1);
    NotStuck(max, s);
  }

  // ----- two threads too many -----

  /** The first i threads read. */
  function Filled(n: nat, i: nat): State {
    State(seq(n, k => if k < i then Reading else Out), i, false)
  }

  lemma {:induction false} FillReaders(n: nat, max: nat, i: nat)
    requires i <= max && i <= n
    ensures Reachable(n, max, Filled(n, i))
  {
    if i == 0 {
      assert Filled(n, 0) == Start(n);
      StartReachable(n, max);
    } else {
      FillReaders(n, max, i - 1);
      assert RLock(max, Filled(n, i - 1), i - 1) == Filled(n, i);
      ReachStep(n, max, Filled(n, i - 1), i - 1, Filled(n, i));
    }
  }

  /** Fewer than max readers leave one by one, and none of them wakes the parked thread b. */
  lemma {:induction false} DrainReaders(n: nat, max: nat, s: State, b: nat)
    requires max > 0 && Reachable(n, max, s) && !s.entered && s.readers < max && b < |s.threads|
    requires s.threads[b].ParkedR?
    requires forall t :: 0 <= t < |s.threads| && t != b ==> s.threads[t].Out? || s.threads[t].Reading?
    ensures exists s' :: Reachable(n, max, s') && Stuck(s')
    decreases Readings(s.threads)
  {
    Exclusion(n, max, s);
    if s.readers == 0 {
      forall t | 0 <= t < |s.threads| ensures s.threads[t].Out? || Parked(s.threads[t]) {
        if s.threads[t].Reading? { ReadingsAt(s.threads, t, Out); }
      }
      assert Stuck(s);
    } else {
      var t := ReadingsPositive(s.threads);
      var s' := s.At(t, Out).(readers := s.readers - 1);
      ReadingsAt(s.threads, t, Out);
      ReachStep(n, max, s, t, s');
      DrainReaders(n, max, s', b);
    }
  }

  /** max readers hold the latch, and two more threads park. */
  function TwoParked(n: nat, max: nat): State
    requires n >= max + 2
  {
    Filled(n, max).At(max, ParkedR).At(max + 1, ParkedR)
  }

  lemma TwoParkedAt(n: nat, max: nat)
    requires max >= 2 && n >= max + 2
    ensures
      var s := TwoParked(n, max);
      && |s.threads| == n && !s.entered && s.threads[max + 1].ParkedR?
      && forall t :: 0 <= t < n && t != max && t != max + 1 ==> s.threads[t] == if t < max then Reading else Out
  {
  }

  lemma TwoPark(n: nat, max: nat)
    requires max >= 2 && n >= max + 2
    ensures Reachable(n, max, TwoParked(n, max))
  {
    FillReaders(n, max, max);
    ReachStep(n, max, Filled(n, max), max, Filled(n, max).At(max, ParkedR));
    ReachStep(n, max, Filled(n, max).At(max, ParkedR), max + 1, TwoParked(n, max));
  }

  /** The first reader to leave has woken the first of the parked threads. */
  function OneWoken(n: nat, max: nat): State
    requires max >= 2 && n >= max + 2
  {
    TwoParked(n, max).At(0, Out).At(max, AwakeR).(readers := max - 1)
  }

  lemma OneWakes(n: nat, max: nat)
    requires max >= 2 && n >= max + 2
    ensures Reachable(n, max, OneWoken(n, max))
  {
    hide Reachable;
    TwoPark(n, max);
    var s := TwoParked(n, max);
    var ts := s.threads[0 := Out];
    assert OnReaderCond(ts[max]);
    assert NotifyOne(ts, ts[max := Woken(ts[max])], true);
    ReachStep(n, max, s, 0, OneWoken(n, max));
  }

  /** A second reader leaves before the woken thread has run: the count is max - 2 then, and nobody is woken. */
  lemma SecondLeaves(n: nat, max: nat)
    requires max >= 2 && n >= max + 2
    ensures Reachable(n, max, OneWoken(n, max).At(1, Out).(readers := max - 2))
  {
    hide Reachable, NotifyOne;
    OneWakes(n, max);
    var s := OneWoken(n, max);
    assert s.threads[1].Reading?;
    ReachStep(n, max, s, 1, s.At(1, Out).(readers := max - 2));
  }

  /** The woken thread reads; the other one is still parked. */
  function OneForgotten(n: nat, max: nat): State
    requires max >= 2 && n >= max + 2
  {
    OneWoken(n, max).At(1, Out).At(max, Reading).(readers := max - 1)
  }

  lemma WokenReads(n: nat, max: nat)
    requires max >= 2 && n >= max + 2
    ensures Reachable(n, max, OneForgotten(n, max))
  {
    hide Reachable, NotifyOne;
    SecondLeaves(n, max);
    var s := OneWoken(n, max).At(1, Out).(readers := max - 2);
    assert s.threads[max].AwakeR? && RLock(max, s, max) == OneForgotten(n, max);
    ReachStep(n, max, s, max, OneForgotten(n, max));
  }

  /**
   * When a second reader leaves before the woken thread has run, the count passes by max - 1, and the other parked
   * thread is forgotten.
   */
  lemma GetsStuck(n: nat, max: nat)
    requires max >= 2 && n >= max + 2
    ensures exists s :: Reachable(n, max, s) && Stuck(s)
  {
    hide Reachable, Stuck;
    WokenReads(n, max);
    TwoParkedAt(n, max);
    DrainReaders(n, max, OneForgotten(n, max), max + 1);
  }

  /** Exactly when the latch cannot leave its threads stuck. */
  lemma StuckIff(n: nat, max: nat)
    requires max > 0
    ensures (exists s :: Reachable(n, max, s) && Stuck(s)) <==> max >= 2 && n >= max + 2
  {
    if max >= 2 && n >= max + 2 {
      GetsStuck(n, max);
    } else if s :| Reachable(n, max, s) && Stuck(s) {
      Wakeups(n, max, s);
    }
  }
}
