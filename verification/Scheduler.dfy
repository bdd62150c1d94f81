/** The process table and the switch of the scheduler. Process structures are addressed by
    pointer; 0 is the null pointer. Malloc answers are parameters. */
module Scheduler {
  import opened RoundRobin

  const EIO := 10

  /** The fields of struct process the scheduler works with. */
  datatype Proc = Proc(pid: nat, lastthread: nat, threadslen: nat, threads: seq<nat>)

  /** Exactly the first `threadslen` thread slots are filled. */
  predicate WellThreaded(p: Proc) {
    && |p.threads| == MAX_THREADS && p.threadslen <= MAX_THREADS && p.lastthread < MAX_THREADS
    && forall i :: 0 <= i < MAX_THREADS ==> (p.threads[i] != 0 <==> i < p.threadslen)
  }

  /** The first `k` slots with every entry whose process has that pid emptied. */
  function Purged(table: seq<nat>, procs: map<nat, Proc>, pid: nat, k: nat): (r: seq<nat>)
    requires k <= |table| && forall a :: a in table && a != 0 ==> a in procs
    ensures |r| == |table|
  {
    seq(|table|, i requires 0 <= i < |table| =>
          if i < k && table[i] != 0 && procs[table[i]].pid == pid then 0 else table[i])
  }

  /** The first slot that holds p, if any, is emptied. */
  ghost predicate FirstEmptied(table: seq<nat>, p: nat, table': seq<nat>) {
    if p != 0 && p in table then exists s :: 0 <= s < |table| && table[s] == p && p !in table[..s] && table' == table[s := 0]
    else table' == table
  }

  class State {
    const processes: array<nat>
    var procs: map<nat, Proc>
    var lastProcess: nat
    var lastPid: nat
    var current: nat                 // __p
    var thread: nat                  // __t

    ghost predicate Valid()
      reads this, processes
    {
      && processes.Length == MAX_PROCESSES && lastProcess < MAX_PROCESSES && lastPid < 0x100 && 0 !in procs
      && (forall a :: a in procs ==> WellThreaded(procs[a]))
      && forall a :: a in processes[..] && a != 0 ==> a in procs && procs[a].threadslen >= 1
    }

    constructor ()
      ensures Valid() && processes[..] == seq(MAX_PROCESSES, _ => 0) && fresh(processes)
    {
      processes := new nat[MAX_PROCESSES](_ => 0);
      procs, lastProcess, lastPid, current, thread := map[], 0, 0, 0, 0;
    }

    // ---- Threads and processes ------------------------------------------------------------------

    method CreateNewThread(p: nat, entry: nat, t: nat, stack: nat) returns (rc: int)
      requires Valid() && (p != 0 ==> p in procs)
      modifies `procs
      ensures Valid()
      ensures rc == if p == 0 || entry == 0 || old(procs)[p].threadslen == MAX_THREADS || t == 0 || stack == 0 then -EIO else 0
      ensures rc != 0 ==> procs == old(procs)
      ensures rc == 0 ==>
                var was := old(procs)[p];
                procs == old(procs)[p := was.(threads := was.threads[was.threadslen := t], threadslen := was.threadslen + 1)]
    {
      if p == 0 || entry == 0 {
        return -EIO;
      }
      if procs[p].threadslen + 1 > MAX_THREADS {
        return -EIO;
      }
      if t == 0 {
        return -EIO;
      }
      if stack == 0 {
        return -EIO;
      }
      var was := procs[p];
      procs := procs[p := was.(threads := was.threads[was.threadslen := t])];
      procs := procs[p := procs[p].(threadslen := procs[p].threadslen + 1)];
      rc := 0;
    }

    /** create_new_process with the answers of its four malloc calls; `p` is not in use. */
    method CreateNewProcess(entry: nat, p: nat, name: nat, t: nat, stack: nat) returns (r: nat)
      requires Valid() && p !in processes[..]
      modifies `procs, `lastPid
      ensures Valid()
      ensures r == if p == 0 || name == 0 || entry == 0 || t == 0 || stack == 0 then 0 else p
      ensures forall a :: a in old(procs) && a != p ==> a in procs && procs[a] == old(procs)[a]
      ensures r != 0 ==> r in procs && procs[r].pid == old(lastPid) && procs[r].lastthread == 0 &&
                         procs[r].threadslen == 1 && procs[r].threads[0] == t
      ensures lastPid == if p == 0 || name == 0 then old(lastPid) else (old(lastPid) + 1) % 0x100
    {
      if p == 0 {
        return 0;
      }
      if name == 0 {
        return 0;
      }
      procs := procs[p := Proc(lastPid, 0, 0, seq(MAX_THREADS, _ => 0))];
      lastPid := (lastPid + 1) % 0x100;
      var rc := CreateNewThread(p, entry, t, stack);
      if rc != 0 {
        return 0;
      }
      r := p;
    }

    /** scheduler_add_process: the pid if placed, 0 if not, whatever its comment says. */
    method AddProcess(p: nat) returns (rc: nat, ghost slot: int)
      requires Valid() && (p != 0 ==> p in procs)
      modifies processes
      ensures Valid()
      ensures slot < 0 ==> rc == 0 && processes[..] == old(processes[..])
      ensures slot < 0 <==> p == 0 || procs[p].threadslen == 0 || 0 !in old(processes[..])
      ensures slot >= 0 ==> slot < MAX_PROCESSES && rc == procs[p].pid && old(processes[slot]) == 0 &&
                            0 !in old(processes[..])[..slot] && processes[..] == old(processes[..])[slot := p]
    {
      slot := -1;
      if p == 0 || procs[p].threadslen == 0 {
        return 0, slot;
      }
      var placed := false;
      var i := 0;
      while i < MAX_PROCESSES && !placed
        invariant 0 <= i <= MAX_PROCESSES && 0 !in processes[..i]
        invariant placed ==> i < MAX_PROCESSES && processes[i] == 0
        decreases MAX_PROCESSES - i, !placed
      {
        if processes[i] == 0 {
          placed := true;
        } else {
          i := i + 1;
        }
      }
      if !placed {
        return 0, slot;
      }
      slot := i;
      processes[i] := p;
      rc := procs[p].pid;
    }

    method IsPidRunning(pid: nat) returns (r: bool)
      requires Valid()
      ensures r <==> exists i :: 0 <= i < MAX_PROCESSES && processes[i] != 0 && procs[processes[i]].pid == pid
    {
      var i := 0;
      while i < MAX_PROCESSES
        invariant 0 <= i <= MAX_PROCESSES
        invariant forall k :: 0 <= k < i ==> processes[k] == 0 || procs[processes[k]].pid != pid
      {
        if processes[i] != 0 && procs[processes[i]].pid == pid {
          return true;
        }
        i := i + 1;
      }
      r := false;
    }

    /** The table part of scheduler_kill_self: the first slot of the current process is emptied. */
    method KillSelf()
      requires Valid()
      modifies processes
      ensures Valid()
      ensures FirstEmptied(old(processes[..]), current, processes[..])
      // a slot changes exactly if it is the lowest that holds the current process
      ensures forall i :: 0 <= i < MAX_PROCESSES ==>
                processes[i] == if current != 0 && old(processes[i]) == current && current !in old(processes[..i])
                                then 0 else old(processes[i])
    {
      var i := 0;
      while i < MAX_PROCESSES
        invariant 0 <= i <= MAX_PROCESSES && processes[..] == old(processes[..])
        invariant current != 0 ==> current !in processes[..i]
      {
        if processes[i] != 0 && processes[i] == current {
          processes[i] := 0;
          assert processes[..] == old(processes[..])[i := 0];
          assert old(processes[..])[..i] == processes[..i];
          return;
        }
        i := i + 1;
      }
      assert processes[..] == processes[..i];
    }

    method KillPid(pid: nat) returns (rc: int)
      requires Valid() && current in procs
      modifies processes
      ensures Valid()
      ensures pid != procs[current].pid ==> processes[..] == Purged(old(processes[..]), procs, pid, MAX_PROCESSES)
      ensures pid == procs[current].pid ==> rc == 1 && FirstEmptied(old(processes[..]), current, processes[..])
      ensures pid != procs[current].pid ==> (rc == 0 <==> processes[..] != old(processes[..]))
      // afterwards no slot holds that pid, and every other slot is as it was
      ensures pid != procs[current].pid ==>
                forall i :: 0 <= i < MAX_PROCESSES ==>
                  && (processes[i] == 0 || procs[processes[i]].pid != pid)
                  && (old(processes[i]) == 0 || procs[old(processes[i])].pid != pid ==> processes[i] == old(processes[i]))
    {
      if pid == procs[current].pid {
        KillSelf();
        return 1;
      }
      var killed := false;
      var i := 0;
      while i < MAX_PROCESSES
        invariant 0 <= i <= MAX_PROCESSES && Valid()
        invariant forall a :: a in old(processes[..]) && a != 0 ==> a in procs
        invariant processes[..] == Purged(old(processes[..]), procs, pid, i)
        invariant killed <==> processes[..] != old(processes[..])
      {
        ghost var before := processes[..];
        assert before[i] == old(processes[..])[i];
        if processes[i] != 0 {
          if procs[processes[i]].pid == pid {
            processes[i] := 0;
            killed := true;
            assert processes[..][i] != old(processes[..])[i];
          }
        }
        assert processes[..] == Purged(old(processes[..]), procs, pid, i + 1);
        i := i + 1;
      }
      rc := if killed then 0 else 1;
      forall i | 0 <= i < MAX_PROCESSES ensures processes[i] == processes[..][i] && old(processes[i]) == old(processes[..])[i] {}
    }

    // ---- The switch ------------------------------------------------------------------------------

    /** The process loop of scheduler_switch. */
    method SelectProcess()
      requires Valid() && exists i :: 0 <= i < MAX_PROCESSES && processes[i] != 0
      modifies `lastProcess, `current
      ensures Valid()
      ensures Switches(MAX_PROCESSES, Tick(processes[..], old(lastProcess), lastProcess))
      ensures current == processes[lastProcess] && current != 0
      // the lowest occupied slot above the old cursor, or else the lowest of the table
      ensures if exists i :: old(lastProcess) < i < MAX_PROCESSES && processes[i] != 0
              then old(lastProcess) < lastProcess && forall i :: old(lastProcess) < i < lastProcess ==> processes[i] == 0
              else forall i :: 0 <= i < lastProcess ==> processes[i] == 0
    {
      ghost var c, s, d := lastProcess, processes[..], 0;
      ghost var i :| 0 <= i < MAX_PROCESSES && s[i] != 0;
      ghost var far := Distance(MAX_PROCESSES, c, i);
      current := 0;
      assert Skipped(s, c, 0) && Plus(MAX_PROCESSES, c, 0) == c;
      hide Skipped; hide Hop; hide Plus; hide Distance;
      while current == 0
        invariant lastProcess < MAX_PROCESSES && |s| == MAX_PROCESSES && forall j :: 0 <= j < MAX_PROCESSES ==> processes[j] == s[j]
        invariant 0 <= d <= far && lastProcess == Plus(MAX_PROCESSES, c, d)
        invariant current == 0 ==> d < far && Skipped(s, c, d)
        invariant current != 0 ==> d >= 1 && current == s[lastProcess] && Hop(s, c, d)
        decreases current == 0, far - d
      {
        OneFurther(s, c, d, i);
        lastProcess := lastProcess + 1;
        if lastProcess >= MAX_PROCESSES {
          lastProcess := 0;
        }
        current := processes[lastProcess];
        d := d + 1;
      }
      LowestAbove(s, c, d);
    }

    /** The thread loop of scheduler_switch. */
    method SelectThread()
      requires Valid() && current in procs && procs[current].threadslen >= 1
      modifies `procs, `thread
      ensures Valid() && current in procs
      ensures procs == old(procs)[current := old(procs)[current].(lastthread := procs[current].lastthread)]
      ensures Switches(MAX_THREADS, Tick(procs[current].threads, old(procs)[current].lastthread, procs[current].lastthread))
      ensures thread == procs[current].threads[procs[current].lastthread] && thread != 0
      // the lowest thread slot in use above the old cursor, or else the lowest
      ensures var threads, was, now := procs[current].threads, old(procs)[current].lastthread, procs[current].lastthread;
              if exists i :: was < i < MAX_THREADS && threads[i] != 0
              then was < now && forall i :: was < i < now ==> threads[i] == 0
              else forall i :: 0 <= i < now ==> threads[i] == 0
    {
      ghost var c, s, d := procs[current].lastthread, procs[current].threads, 0;
      ghost var far := Distance(MAX_THREADS, c, 0);
      assert s[0] != 0;
      thread := 0;
      assert Skipped(s, c, 0) && Plus(MAX_THREADS, c, 0) == c;
      hide Skipped; hide Hop; hide Plus; hide Distance;
      while thread == 0
        invariant current in procs && procs[current].lastthread < MAX_THREADS
        invariant procs == old(procs)[current := old(procs)[current].(lastthread := procs[current].lastthread)]
        invariant 0 <= d <= far && procs[current].lastthread == Plus(MAX_THREADS, c, d)
        invariant thread == 0 ==> d < far && Skipped(s, c, d)
        invariant thread != 0 ==> d >= 1 && thread == s[procs[current].lastthread] && Hop(s, c, d)
        decreases thread == 0, far - d
      {
        OneFurther(s, c, d, 0);
        var l := procs[current].lastthread + 1;
        if l >= MAX_THREADS {
          l := 0;
        }
        procs := procs[current := procs[current].(lastthread := l)];
        thread := procs[current].threads[procs[current].lastthread];
        d := d + 1;
      }
      forall a | a in procs ensures WellThreaded(procs[a]) {
        assert WellThreaded(old(procs)[a]);
      }
      LowestAbove(s, c, d);
    }

    /** scheduler_switch, as a turn of every process in the sense of the fairness laws. */
    method Switch()
      requires Valid() && exists i :: 0 <= i < MAX_PROCESSES && processes[i] != 0
      modifies `lastProcess, `current, `procs, `thread
      ensures Valid() && procs.Keys == old(procs).Keys
      ensures current == processes[lastProcess] && current in procs && thread == procs[current].threads[procs[current].lastthread] != 0
      ensures forall p :: p in old(procs) ==> procs[p] == old(procs)[p].(lastthread := procs[p].lastthread)
      ensures if exists i :: old(lastProcess) < i < MAX_PROCESSES && processes[i] != 0
              then old(lastProcess) < lastProcess && forall i :: old(lastProcess) < i < lastProcess ==> processes[i] == 0
              else forall i :: 0 <= i < lastProcess ==> processes[i] == 0
      ensures var threads, was, now := procs[current].threads, old(procs)[current].lastthread, procs[current].lastthread;
              if exists i :: was < i < MAX_THREADS && threads[i] != 0
              then was < now && forall i :: was < i < now ==> threads[i] == 0
              else forall i :: 0 <= i < now ==> threads[i] == 0
      ensures forall p :: p in old(procs) ==> Takes(p, MAX_PROCESSES, MAX_THREADS,
                Turn(Tick(processes[..], old(lastProcess), lastProcess), procs[p].threads, old(procs)[p].lastthread, procs[p].lastthread))
    {
      SelectProcess();
      assert current in processes[..];
      SelectThread();
    }
  }
}
