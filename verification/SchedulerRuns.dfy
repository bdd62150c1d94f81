/** Whole runs of the scheduler: any interleaving of switches, new processes and threads, additions and
    kills is a sequence of turns in the sense of the fairness laws, so their bounds hold of it. */
module SchedulerRuns {
  import opened RoundRobin
  import opened Scheduler

  datatype Op =
    | Switch
    | Add(p: nat)
    | KillPid(pid: nat)
    | KillSelf
    | NewThread(p: nat, entry: nat, t: nat, stack: nat)
    | NewProcess(entry: nat, p: nat, name: nat, t: nat, stack: nat)

  /** The state of the scheduler at a moment. */
  datatype View = View(table: seq<nat>, procs: map<nat, Proc>, cursor: nat, current: nat, thread: nat)

  ghost predicate ValidView(v: View) {
    && |v.table| == MAX_PROCESSES
    && (forall a :: a in v.procs ==> WellThreaded(v.procs[a]))
    && forall a :: a in v.table && a != 0 ==> a in v.procs
  }

  /** One switch as process p sees it. */
  function TurnAt(v: View, w: View, p: nat): Turn {
    Turn(Tick(v.table, v.cursor, w.cursor), ThreadsOf(w, p), LastOf(v, p), LastOf(w, p))
  }

  function ThreadsOf(v: View, p: nat): seq<nat> {
    if p in v.procs then v.procs[p].threads else []
  }

  function LastOf(v: View, p: nat): nat {
    if p in v.procs then v.procs[p].lastthread else 0
  }

  /** A switch: a turn of every process; what runs is the thread at the two cursors. */
  ghost predicate Switched(v: View, w: View) {
    && w.table == v.table && w.procs.Keys == v.procs.Keys
    && (forall p :: p in v.procs ==> Takes(p, MAX_PROCESSES, MAX_THREADS, TurnAt(v, w, p)))
    && w.cursor < |w.table| && w.current == w.table[w.cursor] && w.current in w.procs
    && w.procs[w.current].lastthread < |w.procs[w.current].threads|
    && w.thread == w.procs[w.current].threads[w.procs[w.current].lastthread]
  }

  /** Anything else leaves the cursor alone, and the thread cursor of every process in the table. */
  ghost predicate Kept(v: View, w: View) {
    && w.cursor == v.cursor
    && forall p :: p in v.table && p != 0 && p in v.procs ==> p in w.procs && w.procs[p].lastthread == v.procs[p].lastthread
  }

  ghost predicate Follows(op: Op, v: View, w: View) {
    if op.Switch? then Switched(v, w) else Kept(v, w)
  }

  ghost predicate IsSession(views: seq<View>, ops: seq<Op>) {
    && |views| == |ops| + 1
    && (forall k :: 0 <= k < |views| ==> ValidView(views[k]))
    && forall k :: 0 <= k < |ops| ==> StepAt(views, ops, k)
  }

  ghost predicate StepAt(views: seq<View>, ops: seq<Op>, k: nat) {
    k < |ops| && k + 1 < |views| && Follows(ops[k], views[k], views[k + 1])
  }

  // ---- A session is a sequence of turns ----------------------------------------------------------------

  /** p is in slot s all the time. */
  ghost predicate Resident(views: seq<View>, p: nat, s: nat) {
    p != 0 && s < MAX_PROCESSES && forall k :: 0 <= k < |views| ==> s < |views[k].table| && views[k].table[s] == p
  }

  ghost predicate KeepsThread(views: seq<View>, p: nat, t: nat) {
    t < MAX_THREADS && forall k :: 0 <= k < |views| ==>
      p in views[k].procs && t < |views[k].procs[p].threads| && views[k].procs[p].threads[t] != 0
  }

  lemma ResidentListed(views: seq<View>, ops: seq<Op>, p: nat, s: nat, k: nat)
    requires IsSession(views, ops) && Resident(views, p, s) && k < |views|
    ensures p != 0 && p in views[k].procs && p in views[k].table && WellThreaded(views[k].procs[p])
  {
    assert ValidView(views[k]);
    assert views[k].table[s] == p;
  }

  /** Where the switches are among the first n operations. */
  function Places(ops: seq<Op>, n: nat): (r: seq<nat>)
    requires n <= |ops|
    ensures |r| == SwitchCount(ops, n)
    ensures forall i :: 0 <= i < |r| ==> r[i] < n && ops[r[i]].Switch?
  {
    if n == 0 then [] else Places(ops, n - 1) + if ops[n - 1].Switch? then [n - 1] else []
  }

  function SwitchCount(ops: seq<Op>, n: nat): nat
    requires n <= |ops|
  {
    if n == 0 then 0 else SwitchCount(ops, n - 1) + if ops[n - 1].Switch? then 1 else 0
  }

  /** Up to and with its own place, switch i is number i + 1. */
  lemma {:induction false} CountTo(ops: seq<Op>, n: nat, i: nat)
    requires n <= |ops| && i < SwitchCount(ops, n)
    ensures SwitchCount(ops, Places(ops, n)[i] + 1) == i + 1
  {
    if i < SwitchCount(ops, n - 1) { CountTo(ops, n - 1, i); }
  }

  /** The turns p sees at these places. */
  function TurnsOf(views: seq<View>, places: seq<nat>, p: nat): (turns: seq<Turn>)
    requires forall i :: 0 <= i < |places| ==> places[i] + 1 < |views|
    ensures |turns| == |places|
  {
    seq(|places|, i requires 0 <= i < |places| => TurnAt(views[places[i]], views[places[i] + 1], p))
  }

  /** The turns p sees in the first n operations. */
  function TurnsUpTo(views: seq<View>, ops: seq<Op>, p: nat, n: nat): (turns: seq<Turn>)
    requires |views| == |ops| + 1 && n <= |ops|
    ensures |turns| == SwitchCount(ops, n)
  {
    TurnsOf(views, Places(ops, n), p)
  }

  lemma TurnsUpToNext(views: seq<View>, ops: seq<Op>, p: nat, n: nat)
    requires |views| == |ops| + 1 && n < |ops|
    ensures TurnsUpTo(views, ops, p, n + 1) ==
            TurnsUpTo(views, ops, p, n) + if ops[n].Switch? then [TurnAt(views[n], views[n + 1], p)] else []
  {
  }

  lemma TurnsMore(p: nat, turns: seq<Turn>, turn: Turn)
    requires TakingTurns(p, MAX_PROCESSES, MAX_THREADS, turns) && Takes(p, MAX_PROCESSES, MAX_THREADS, turn)
    requires turns != [] ==> turns[|turns| - 1].tick.after == turn.tick.before && turns[|turns| - 1].now == turn.last
    ensures TakingTurns(p, MAX_PROCESSES, MAX_THREADS, turns + [turn])
  {
    hide Switches;
    assert Ticks(turns + [turn]) == Ticks(turns) + [turn.tick];
  }

  /** The turns so far end where the cursors are. */
  predicate EndsAt(turns: seq<Turn>, v: View, p: nat) {
    turns != [] ==> turns[|turns| - 1].tick.after == v.cursor && turns[|turns| - 1].now == LastOf(v, p)
  }

  lemma NoTurns(p: nat)
    ensures TakingTurns(p, MAX_PROCESSES, MAX_THREADS, [])
  {
  }

  lemma TurnsStep(p: nat, turns: seq<Turn>, op: Op, v: View, w: View)
    requires TakingTurns(p, MAX_PROCESSES, MAX_THREADS, turns) && EndsAt(turns, v, p)
    requires Follows(op, v, w) && p in v.table && p != 0 && p in v.procs
    ensures if op.Switch? then TakingTurns(p, MAX_PROCESSES, MAX_THREADS, turns + [TurnAt(v, w, p)]) &&
                               EndsAt(turns + [TurnAt(v, w, p)], w, p)
            else EndsAt(turns, w, p)
  {
    hide TakingTurns; hide Takes;
    if op.Switch? { TurnsMore(p, turns, TurnAt(v, w, p)); }
  }

  /** Whatever happens between the switches, the turns of a resident process follow one another. */
  lemma {:induction false} SessionTakesTurns(views: seq<View>, ops: seq<Op>, p: nat, s: nat, n: nat)
    requires IsSession(views, ops) && Resident(views, p, s) && n <= |ops|
    ensures var turns := TurnsUpTo(views, ops, p, n);
            TakingTurns(p, MAX_PROCESSES, MAX_THREADS, turns) && EndsAt(turns, views[n], p)
  {
    hide TakingTurns; hide TurnsUpTo; hide IsSession; hide Resident; hide Follows; hide SwitchCount; hide Places;
    SessionLength(views, ops);
    if n == 0 {
      assert TurnsUpTo(views, ops, p, 0) == [] by { NothingYet(views, ops, p); }
      NoTurns(p);
    } else {
      SessionTakesTurns(views, ops, p, s, n - 1);
      ResidentListed(views, ops, p, s, n - 1);
      SessionStep(views, ops, n - 1);
      TurnsStep(p, TurnsUpTo(views, ops, p, n - 1), ops[n - 1], views[n - 1], views[n]);
      TurnsUpToNext(views, ops, p, n - 1);
      assert !ops[n - 1].Switch? ==> TurnsUpTo(views, ops, p, n) == TurnsUpTo(views, ops, p, n - 1);
      hide EndsAt; hide TurnAt;
    }
  }

  lemma SessionLength(views: seq<View>, ops: seq<Op>)
    requires IsSession(views, ops)
    ensures |views| == |ops| + 1
  {
  }

  lemma SessionStep(views: seq<View>, ops: seq<Op>, k: nat)
    requires IsSession(views, ops) && k < |ops|
    ensures |views| == |ops| + 1 && Follows(ops[k], views[k], views[k + 1])
  {
    hide Follows;
    assert StepAt(views, ops, k);
  }

  lemma NothingYet(views: seq<View>, ops: seq<Op>, p: nat)
    requires |views| == |ops| + 1
    ensures TurnsUpTo(views, ops, p, 0) == []
  {
  }

  lemma SessionStays(views: seq<View>, ops: seq<Op>, p: nat, s: nat, t: nat)
    requires IsSession(views, ops) && Resident(views, p, s) && KeepsThread(views, p, t)
    ensures Stays(p, MAX_PROCESSES, MAX_THREADS, s, t, TurnsUpTo(views, ops, p, |ops|))
  {
    var places := Places(ops, |ops|);
    var turns := TurnsUpTo(views, ops, p, |ops|);
    forall i | 0 <= i < |turns|
      ensures |turns[i].tick.table| == MAX_PROCESSES && turns[i].tick.table[s] == p
      ensures |turns[i].threads| == MAX_THREADS && turns[i].threads[t] != 0
    {
      ResidentListed(views, ops, p, s, places[i] + 1);
      assert ValidView(views[places[i]]) && views[places[i]].table[s] == p;
    }
  }

  /** What a switch that stops at slot s leaves running. */
  lemma StopsAt(views: seq<View>, ops: seq<Op>, p: nat, s: nat, k: nat)
    requires IsSession(views, ops) && Resident(views, p, s) && k < |ops| && ops[k].Switch?
    ensures views[k + 1].cursor == s ==> views[k + 1].current == p
    ensures p in views[k + 1].procs && WellThreaded(views[k + 1].procs[p])
    ensures Mine(p, TurnAt(views[k], views[k + 1], p)) ==>
              views[k + 1].current == p && views[k + 1].thread == views[k + 1].procs[p].threads[views[k + 1].procs[p].lastthread]
  {
    ResidentListed(views, ops, p, s, k + 1);
    assert StepAt(views, ops, k) && views[k + 1].table[s] == p;
  }

  lemma PlacesInside(views: seq<View>, ops: seq<Op>, i: nat) returns (k: nat)
    requires |views| == |ops| + 1 && i < SwitchCount(ops, |ops|)
    ensures |Places(ops, |ops|)| == SwitchCount(ops, |ops|) && forall j :: 0 <= j < |Places(ops, |ops|)| ==> Places(ops, |ops|)[j] + 1 < |views|
    ensures k == Places(ops, |ops|)[i] < |ops| && ops[k].Switch? && SwitchCount(ops, k + 1) == i + 1
  {
    k := Places(ops, |ops|)[i];
    CountTo(ops, |ops|, i);
  }

  /** One of the first 32 turns stops at slot s. */
  lemma StopWithinTurn(turns: seq<Turn>, p: nat, s: nat) returns (i: nat)
    requires TakingTurns(p, MAX_PROCESSES, MAX_THREADS, turns) && |turns| >= MAX_PROCESSES && s < MAX_PROCESSES
    requires forall i :: 0 <= i < |turns| ==> s < |turns[i].tick.table| && turns[i].tick.table[s] != 0
    ensures i < MAX_PROCESSES && turns[i].tick.after == s
  {
    var ticks := Ticks(turns);
    hide Switching;
    PickedWithinTurn(MAX_PROCESSES, ticks, s);
    i :| 0 <= i < MAX_PROCESSES && ticks[..MAX_PROCESSES][i].after == s;
    assert ticks[i].after == s;
  }

  /** One of the first 512 turns runs thread t. */
  lemma RunWithinTurns(turns: seq<Turn>, p: nat, s: nat, t: nat) returns (i: nat)
    requires TakingTurns(p, MAX_PROCESSES, MAX_THREADS, turns) && |turns| >= 512
    requires Stays(p, MAX_PROCESSES, MAX_THREADS, s, t, turns)
    ensures i < 512 && Mine(p, turns[i]) && turns[i].now == t
  {
    hide TakingTurns; hide Stays; hide Mine;
    ThreadWithinTurns(p, s, t, turns);
    i :| 0 <= i < 512 && Mine(p, turns[..512][i]) && turns[..512][i].now == t;
    assert turns[..512][i] == turns[i];
  }

  lemma SessionOccupied(views: seq<View>, ops: seq<Op>, p: nat, s: nat)
    requires IsSession(views, ops) && Resident(views, p, s)
    ensures s < MAX_PROCESSES && |views| == |ops| + 1
    ensures var turns := TurnsUpTo(views, ops, p, |ops|);
            forall i :: 0 <= i < |turns| ==> s < |turns[i].tick.table| && turns[i].tick.table[s] != 0
  {
    var places := Places(ops, |ops|);
    var turns := TurnsUpTo(views, ops, p, |ops|);
    forall i | 0 <= i < |turns| ensures s < |turns[i].tick.table| && turns[i].tick.table[s] != 0 {
      assert views[places[i]].table[s] == p;
    }
  }

  /** Within 32 switches of any session a process that stays in the table is picked. */
  lemma ProcessRuns(views: seq<View>, ops: seq<Op>, p: nat, s: nat) returns (k: nat)
    requires IsSession(views, ops) && Resident(views, p, s) && SwitchCount(ops, |ops|) >= MAX_PROCESSES
    ensures k < |ops| && ops[k].Switch? && views[k + 1].current == p
    ensures SwitchCount(ops, k + 1) <= MAX_PROCESSES
  {
    hide IsSession; hide Resident; hide SwitchCount; hide Places; hide TakingTurns;
    SessionLength(views, ops);
    k := PlacesInside(views, ops, 0);
    var turns := TurnsUpTo(views, ops, p, |ops|);
    SessionTakesTurns(views, ops, p, s, |ops|);
    SessionOccupied(views, ops, p, s);
    var i := StopWithinTurn(turns, p, s);
    k := PlacesInside(views, ops, i);
    assert turns[i] == TurnAt(views[k], views[k + 1], p);
    StopsAt(views, ops, p, s, k);
  }

  /** Within 512 switches of any session every thread of a process that stays in the table runs. */
  lemma ThreadRuns(views: seq<View>, ops: seq<Op>, p: nat, s: nat, t: nat) returns (k: nat)
    requires IsSession(views, ops) && Resident(views, p, s) && KeepsThread(views, p, t)
    requires SwitchCount(ops, |ops|) >= 512
    ensures k < |ops| && ops[k].Switch? && views[k + 1].current == p && p in views[k + 1].procs
    ensures views[k + 1].procs[p].lastthread == t < |views[k + 1].procs[p].threads|
    ensures views[k + 1].thread == views[k + 1].procs[p].threads[t]
    ensures SwitchCount(ops, k + 1) <= 512
  {
    hide IsSession; hide Resident; hide SwitchCount; hide Places; hide TakingTurns; hide Stays; hide KeepsThread; hide Mine;
    SessionLength(views, ops);
    k := PlacesInside(views, ops, 0);
    var turns := TurnsUpTo(views, ops, p, |ops|);
    SessionTakesTurns(views, ops, p, s, |ops|);
    SessionStays(views, ops, p, s, t);
    var i := RunWithinTurns(turns, p, s, t);
    k := PlacesInside(views, ops, i);
    assert turns[i] == TurnAt(views[k], views[k + 1], p);
    StopsAt(views, ops, p, s, k);
  }

  /** While the table does not change and m slots of it are in use, any m switches of a session pick
      the process of each of them exactly once. */
  lemma EachRunsOnce(views: seq<View>, ops: seq<Op>, s: nat) returns (k: nat)
    requires IsSession(views, ops) && forall i :: 0 <= i < |views| ==> views[i].table == views[0].table
    requires SwitchCount(ops, |ops|) == |Residents(views[0].table)| && s in Residents(views[0].table)
    ensures k < |ops| && ops[k].Switch? && views[k + 1].cursor == s && views[k + 1].current == views[0].table[s]
    ensures forall l :: 0 <= l < |ops| && ops[l].Switch? && l != k ==> views[l + 1].cursor != s
  {
    var table := views[0].table;
    var p := table[s];
    assert ValidView(views[0]);
    assert Resident(views, p, s);
    SessionLength(views, ops);
    SessionSteady(views, ops, s);
    hide IsSession; hide SwitchCount; hide Places; hide Steady; hide Residents;
    var turns := TurnsUpTo(views, ops, p, |ops|);
    var i := EachExactlyOnce(table, Ticks(turns), s);
    k := PlacesInside(views, ops, i);
    assert turns[i] == TurnAt(views[k], views[k + 1], p);
    StopsAt(views, ops, p, s, k);
    forall l | 0 <= l < |ops| && ops[l].Switch? && l != k ensures views[l + 1].cursor != s {
      var j := PlaceOf(ops, |ops|, l);
      assert turns[j] == TurnAt(views[l], views[l + 1], p) && j != i;
      assert Ticks(turns)[j].after == views[l + 1].cursor;
    }
  }

  lemma SessionSteady(views: seq<View>, ops: seq<Op>, s: nat)
    requires IsSession(views, ops) && forall i :: 0 <= i < |views| ==> views[i].table == views[0].table
    requires s < |views[0].table| && views[0].table[s] != 0
    ensures Steady(views[0].table, Ticks(TurnsUpTo(views, ops, views[0].table[s], |ops|)))
  {
    assert ValidView(views[0]);
    assert Resident(views, views[0].table[s], s);
    SessionTakesTurns(views, ops, views[0].table[s], s, |ops|);
    hide Switching; hide Takes;
  }

  /** Every switch has its number. */
  lemma {:induction false} PlaceOf(ops: seq<Op>, n: nat, l: nat) returns (j: nat)
    requires n <= |ops| && l < n && ops[l].Switch?
    ensures j < |Places(ops, n)| && Places(ops, n)[j] == l
  {
    if l == n - 1 { j := |Places(ops, n)| - 1; } else { j := PlaceOf(ops, n - 1, l); }
  }

  // ---- The operations of the scheduler make a session -------------------------------------------------------

  ghost function Now(st: State): View
    reads st, st.processes
  {
    View(st.processes[..], st.procs, st.lastProcess, st.current, st.thread)
  }

  /** What an operation needs; a switch without a process does not end. */
  predicate Allowed(st: State, op: Op)
    reads st, st.processes
  {
    match op
    case Switch => exists i :: 0 <= i < st.processes.Length && st.processes[i] != 0
    case Add(p) => p != 0 ==> p in st.procs
    case KillPid(_) => st.current in st.procs
    case KillSelf => true
    case NewThread(p, _, _, _) => p != 0 ==> p in st.procs
    case NewProcess(_, p, _, _, _) => p !in st.processes[..]
  }

  method Perform(st: State, op: Op)
    requires st.Valid() && Allowed(st, op)
    modifies st, st.processes
    ensures st.Valid() && ValidView(Now(st))
    ensures Follows(op, old(Now(st)), Now(st))
  {
    match op {
      case Switch => st.Switch();
      case Add(p) => ghost var slot; var rc; rc, slot := st.AddProcess(p);
      case KillPid(pid) => var rc := st.KillPid(pid);
      case KillSelf => st.KillSelf();
      case NewThread(p, entry, t, stack) => var rc := st.CreateNewThread(p, entry, t, stack);
      case NewProcess(entry, p, name, t, stack) => var r := st.CreateNewProcess(entry, p, name, t, stack);
    }
  }

  /** Any operations in any order, up to the first that is not allowed. */
  method Session(st: State, ops: seq<Op>) returns (done: nat, ghost views: seq<View>)
    requires st.Valid()
    modifies st, st.processes
    ensures st.Valid() && done <= |ops| && (done < |ops| ==> !Allowed(st, ops[done]))
    ensures IsSession(views, ops[..done]) && views[0] == old(Now(st)) && views[done] == Now(st)
  {
    hide Follows; hide Now;
    done, views := 0, [Now(st)];
    assert ValidView(Now(st)) by { Viewed(st); }
    while done < |ops|
      invariant 0 <= done <= |ops| && st.Valid() && |views| == done + 1
      invariant IsSession(views, ops[..done]) && views[0] == old(Now(st)) && views[done] == Now(st)
    {
      if !Allowed(st, ops[done]) {
        return;
      }
      Perform(st, ops[done]);
      SessionMore(views, ops[..done], ops[done], Now(st));
      views := views + [Now(st)];
      assert ops[..done + 1] == ops[..done] + [ops[done]];
      done := done + 1;
    }
  }

  lemma SessionMore(views: seq<View>, ops: seq<Op>, op: Op, w: View)
    requires IsSession(views, ops) && ValidView(w) && Follows(op, views[|ops|], w)
    ensures IsSession(views + [w], ops + [op])
  {
    hide Follows; hide ValidView;
    var vs, os := views + [w], ops + [op];
    forall k | 0 <= k < |os| ensures StepAt(vs, os, k) {
      if k < |ops| { assert StepAt(views, ops, k); }
    }
  }

  lemma Viewed(st: State)
    requires st.Valid()
    ensures ValidView(Now(st))
  {
  }
}
