/** The cyclic cursor of the scheduler, over the process table and over a thread table, and what
    it guarantees over whole runs of switches. */
module RoundRobin {

  const MAX_PROCESSES := 32
  const MAX_THREADS := 16

  /** Position d places behind c on a circle of n. */
  function Plus(n: nat, c: nat, d: nat): (p: nat)
    requires c < n && d <= n
    ensures p < n
  {
    if c + d < n then c + d else c + d - n
  }

  /** The cursor at c next stops d places on: the first non-empty entry behind c. */
  predicate Hop(s: seq<nat>, c: nat, d: nat)
    requires c < |s|
  {
    1 <= d <= |s| && s[Plus(|s|, c, d)] != 0 && forall e :: 1 <= e < d ==> s[Plus(|s|, c, e)] == 0
  }

  /** How far the cursor at c is from stopping at t: 1 to n. */
  function Distance(n: nat, c: nat, t: nat): (d: nat)
    requires c < n && t < n
    ensures 1 <= d <= n && Plus(n, c, d) == t
  {
    if c < t then t - c else n - c + t
  }

  /** Whatever lies between, an occupied entry t is not jumped over: the cursor stops at it or
      comes closer by as much as it moves. */
  lemma HopTowards(s: seq<nat>, c: nat, d: nat, t: nat)
    requires c < |s| && t < |s| && s[t] != 0 && Hop(s, c, d)
    ensures Plus(|s|, c, d) == t || Distance(|s|, Plus(|s|, c, d), t) == Distance(|s|, c, t) - d
  {
    assert s[Plus(|s|, c, Distance(|s|, c, t))] != 0;
  }

  /** The d entries behind c are empty. */
  ghost predicate Skipped(s: seq<nat>, c: nat, d: nat)
    requires c < |s| && d <= |s|
  {
    forall e :: 1 <= e <= d ==> s[Plus(|s|, c, e)] == 0
  }

  /** One entry further: the cursor wraps at the end, and the entry ends the hop or is skipped too. An
      occupied entry t is never skipped. */
  lemma OneFurther(s: seq<nat>, c: nat, d: nat, t: nat)
    requires c < |s| && t < |s| && s[t] != 0 && d < |s| && Skipped(s, c, d)
    ensures d < Distance(|s|, c, t)
    ensures var p := Plus(|s|, c, d);
            && Plus(|s|, c, d + 1) == (if p + 1 >= |s| then 0 else p + 1)
            && (s[Plus(|s|, c, d + 1)] == 0 ==> Skipped(s, c, d + 1) && d + 1 < Distance(|s|, c, t))
            && (s[Plus(|s|, c, d + 1)] != 0 ==> Hop(s, c, d + 1))
  {
    assert s[Plus(|s|, c, Distance(|s|, c, t))] != 0;
  }

  /** Where a hop leads, in table order: to the lowest occupied entry above the cursor, or, if none is
      occupied there, to the lowest of all. */
  lemma LowestAbove(s: seq<nat>, c: nat, d: nat)
    requires c < |s| && Hop(s, c, d)
    ensures var p := Plus(|s|, c, d);
            p < |s| && s[p] != 0 &&
            if exists i :: c < i < |s| && s[i] != 0 then c < p && forall i :: c < i < p ==> s[i] == 0
            else forall i :: 0 <= i < p ==> s[i] == 0
  {
    var p := Plus(|s|, c, d);
    forall i | 0 <= i < |s| && Distance(|s|, c, i) < d ensures s[i] == 0 {
      assert s[Plus(|s|, c, Distance(|s|, c, i))] == 0;
    }
  }

  // ---- Picking a process ---------------------------------------------------------------------------

  /** One switch: the table it finds, the cursor before and after. */
  datatype Tick = Tick(table: seq<nat>, before: nat, after: nat)

  ghost predicate Switches(n: nat, tick: Tick) {
    && |tick.table| == n && tick.before < n
    && exists d :: Hop(tick.table, tick.before, d) && tick.after == Plus(n, tick.before, d)
  }

  /** Consecutive switches; between two of them the table may change, the cursor may not. */
  ghost predicate Switching(n: nat, ticks: seq<Tick>) {
    && n > 0
    && (forall i :: 0 <= i < |ticks| ==> Switches(n, ticks[i]))
    && forall i :: 0 <= i < |ticks| - 1 ==> ticks[i + 1].before == ticks[i].after
  }

  ghost predicate Picked(ticks: seq<Tick>, t: nat) {
    exists i :: 0 <= i < |ticks| && ticks[i].after == t
  }

  lemma TickTowards(n: nat, tick: Tick, t: nat)
    requires Switches(n, tick) && t < n && tick.table[t] != 0
    ensures tick.after < n
    ensures tick.after == t || Distance(n, tick.after, t) < Distance(n, tick.before, t)
  {
    var d :| Hop(tick.table, tick.before, d) && tick.after == Plus(n, tick.before, d);
    HopTowards(tick.table, tick.before, d, t);
  }

  lemma {:induction false} PickedWithinDistance(n: nat, ticks: seq<Tick>, t: nat)
    requires Switching(n, ticks) && t < n && forall i :: 0 <= i < |ticks| ==> ticks[i].table[t] != 0
    requires ticks != [] && |ticks| >= Distance(n, ticks[0].before, t)
    ensures Picked(ticks, t)
    decreases |ticks|
  {
    assert Switches(n, ticks[0]) && ticks[0].table[t] != 0;
    TickTowards(n, ticks[0], t);
    if ticks[0].after != t {
      var rest := ticks[1..];
      assert |rest| >= 1;
      assert forall i :: 0 <= i < |rest| ==> rest[i] == ticks[i + 1];
      assert rest[0].before == ticks[0].after;
      PickedWithinDistance(n, rest, t);
      var i :| 0 <= i < |rest| && rest[i].after == t;
      assert ticks[i + 1].after == t;
    }
  }

  /** A slot that stays occupied is picked within n switches, whatever else is added or killed. */
  lemma PickedWithinTurn(n: nat, ticks: seq<Tick>, t: nat)
    requires Switching(n, ticks) && t < n && forall i :: 0 <= i < |ticks| ==> ticks[i].table[t] != 0
    requires |ticks| >= n
    ensures Picked(ticks[..n], t)
  {
    var first := ticks[..n];
    assert forall i :: 0 <= i < |first| ==> first[i] == ticks[i];
    assert Switches(n, first[0]);
    PickedWithinDistance(n, first, t);
  }

  // ---- Picking a thread -------------------------------------------------------------------------------

  /** One switch as process p sees it: its thread table, its thread cursor before and after. */
  datatype Turn = Turn(tick: Tick, threads: seq<nat>, last: nat, now: nat)

  predicate Mine(p: nat, turn: Turn) {
    turn.tick.after < |turn.tick.table| && turn.tick.table[turn.tick.after] == p
  }

  /** The thread cursor of p moves exactly when p is picked, through whichever slot. */
  ghost predicate Takes(p: nat, n: nat, m: nat, turn: Turn) {
    && Switches(n, turn.tick) && turn.last < m && turn.now < m
    && if Mine(p, turn) then Switches(m, Tick(turn.threads, turn.last, turn.now)) else turn.now == turn.last
  }

  function Ticks(turns: seq<Turn>): (ticks: seq<Tick>)
    ensures |ticks| == |turns| && forall i :: 0 <= i < |ticks| ==> ticks[i] == turns[i].tick
  {
    seq(|turns|, i requires 0 <= i < |turns| => turns[i].tick)
  }

  ghost predicate TakingTurns(p: nat, n: nat, m: nat, turns: seq<Turn>) {
    && Switching(n, Ticks(turns))
    && (forall i :: 0 <= i < |turns| ==> Takes(p, n, m, turns[i]))
    && forall i :: 0 <= i < |turns| - 1 ==> turns[i + 1].last == turns[i].now
  }

  /** p stays in slot s and keeps its thread t. */
  ghost predicate Stays(p: nat, n: nat, m: nat, s: nat, t: nat, turns: seq<Turn>) {
    && p != 0 && s < n && t < m
    && forall i :: 0 <= i < |turns| ==>
         |turns[i].tick.table| == n && turns[i].tick.table[s] == p && |turns[i].threads| == m && turns[i].threads[t] != 0
  }

  /** One of the switches runs thread t of p. */
  ghost predicate Runs(p: nat, turns: seq<Turn>, t: nat) {
    exists i :: 0 <= i < |turns| && Mine(p, turns[i]) && turns[i].now == t
  }

  /** Over some switches the thread cursor runs t or does not get farther from it, and gets closer
      if p was picked. */
  lemma {:induction false} ThreadTowards(p: nat, n: nat, m: nat, s: nat, t: nat, turns: seq<Turn>)
    requires TakingTurns(p, n, m, turns) && Stays(p, n, m, s, t, turns) && turns != []
    requires !Runs(p, turns, t)
    ensures turns[0].last < m && turns[|turns| - 1].now < m
    ensures Distance(m, turns[|turns| - 1].now, t) <= Distance(m, turns[0].last, t)
    ensures (exists i :: 0 <= i < |turns| && Mine(p, turns[i])) ==>
              Distance(m, turns[|turns| - 1].now, t) < Distance(m, turns[0].last, t)
    decreases |turns|
  {
    var l := |turns| - 1;
    assert Takes(p, n, m, turns[l]) && Takes(p, n, m, turns[0]);
    if Mine(p, turns[l]) {
      TickTowards(m, Tick(turns[l].threads, turns[l].last, turns[l].now), t);
    }
    if l > 0 {
      TurnsPrefix(p, n, m, s, t, turns, l);
      assert turns[l].last == turns[l - 1].now;
      ThreadTowards(p, n, m, s, t, turns[..l]);
      if i :| 0 <= i < |turns| && Mine(p, turns[i]) {
        assert i < l ==> Mine(p, turns[..l][i]);
      }
    }
  }

  lemma TurnsPrefix(p: nat, n: nat, m: nat, s: nat, t: nat, turns: seq<Turn>, l: nat)
    requires TakingTurns(p, n, m, turns) && Stays(p, n, m, s, t, turns) && l <= |turns|
    ensures TakingTurns(p, n, m, turns[..l]) && Stays(p, n, m, s, t, turns[..l])
    ensures Runs(p, turns[..l], t) ==> Runs(p, turns, t)
  {
    assert Ticks(turns[..l]) == Ticks(turns)[..l];
  }

  lemma TurnsSuffix(p: nat, n: nat, m: nat, s: nat, t: nat, turns: seq<Turn>, l: nat)
    requires TakingTurns(p, n, m, turns) && Stays(p, n, m, s, t, turns) && l <= |turns|
    ensures TakingTurns(p, n, m, turns[l..]) && Stays(p, n, m, s, t, turns[l..])
    ensures Runs(p, turns[l..], t) ==> Runs(p, turns, t)
  {
    assert Ticks(turns[l..]) == Ticks(turns)[l..];
    if i :| 0 <= i < |turns[l..]| && Mine(p, turns[l..][i]) && turns[l..][i].now == t {
      assert Mine(p, turns[l + i]);
    }
  }

  /** In a full turn of the process table p is picked, so the thread cursor runs t or comes closer. */
  lemma WindowTowards(p: nat, n: nat, m: nat, s: nat, t: nat, turns: seq<Turn>)
    requires TakingTurns(p, n, m, turns) && Stays(p, n, m, s, t, turns) && |turns| == n
    requires !Runs(p, turns, t)
    ensures turns[0].last < m && turns[n - 1].now < m
    ensures Distance(m, turns[n - 1].now, t) < Distance(m, turns[0].last, t)
  {
    hide Switches; hide Takes;
    PickedWithinTurn(n, Ticks(turns), s);
    assert Ticks(turns)[..n] == Ticks(turns);
    var i :| 0 <= i < |Ticks(turns)| && Ticks(turns)[i].after == s;
    assert Mine(p, turns[i]);
    ThreadTowards(p, n, m, s, t, turns);
  }

  lemma {:induction false} ThreadWithin(p: nat, s: nat, t: nat, turns: seq<Turn>, d: nat)
    requires TakingTurns(p, MAX_PROCESSES, MAX_THREADS, turns) && Stays(p, MAX_PROCESSES, MAX_THREADS, s, t, turns)
    requires |turns| >= MAX_PROCESSES * d > 0
    requires turns[0].last < MAX_THREADS && Distance(MAX_THREADS, turns[0].last, t) <= d
    ensures Runs(p, turns, t)
    decreases d
  {
    hide Switches; hide Takes; hide Runs;
    var n, m := MAX_PROCESSES, MAX_THREADS;
    var first := turns[..n];
    TurnsPrefix(p, n, m, s, t, turns, n);
    if !Runs(p, turns, t) {
      WindowTowards(p, n, m, s, t, first);
      TurnsSuffix(p, n, m, s, t, turns, n);
      assert |turns| > n ==> turns[n].last == turns[n - 1].now;
      ThreadWithin(p, s, t, turns[n..], d - 1);
    }
  }

  /** Every thread of a process that stays resident runs within 32 * 16 = 512 switches. */
  lemma ThreadWithinTurns(p: nat, s: nat, t: nat, turns: seq<Turn>)
    requires TakingTurns(p, MAX_PROCESSES, MAX_THREADS, turns) && Stays(p, MAX_PROCESSES, MAX_THREADS, s, t, turns)
    requires |turns| >= 512
    ensures Runs(p, turns[..512], t)
  {
    TurnsPrefix(p, MAX_PROCESSES, MAX_THREADS, s, t, turns, 512);
    assert Takes(p, MAX_PROCESSES, MAX_THREADS, turns[0]);
    ThreadWithin(p, s, t, turns[..512], MAX_THREADS);
  }

  // ---- An unchanged table ---------------------------------------------------------------------------

  /** Slots in use. */
  function Residents(table: seq<nat>): set<nat> {
    set i | 0 <= i < |table| && table[i] != 0
  }

  /** Places behind c, up to len of them, whose slots are in use. */
  function Occupied(table: seq<nat>, c: nat, len: nat): set<nat>
    requires c < |table| && len <= |table|
  {
    set e | 1 <= e <= len && table[Plus(|table|, c, e)] != 0
  }

  lemma {:induction false} SameSize(n: nat, c: nat, places: set<nat>, slots: set<nat>)
    requires c < n && (forall e :: e in places ==> 1 <= e <= n && Plus(n, c, e) in slots)
    requires forall s :: s in slots ==> s < n && Distance(n, c, s) in places
    ensures |places| == |slots|
    decreases places
  {
    if places == {} {
      if s :| s in slots { assert Distance(n, c, s) in places; }
    } else {
      var e :| e in places;
      var s := Plus(n, c, e);
      assert Distance(n, c, s) == e;
      SameSize(n, c, places - {e}, slots - {s});
    }
  }

  lemma OccupiedTurn(table: seq<nat>, c: nat)
    requires c < |table|
    ensures |Occupied(table, c, |table|)| == |Residents(table)|
  {
    SameSize(|table|, c, Occupied(table, c, |table|), Residents(table));
  }

  /** Switches over one table. */
  ghost predicate Steady(table: seq<nat>, ticks: seq<Tick>) {
    Switching(|table|, ticks) && forall i :: 0 <= i < |ticks| ==> ticks[i].table == table
  }

  /** While the cursor has not come full circle, the switches stop at every occupied place in turn:
      after i switches it has moved to a place with exactly i occupied ones up to it. */
  lemma {:induction false} StepsTaken(table: seq<nat>, ticks: seq<Tick>, c: nat, i: nat) returns (a: nat)
    requires Steady(table, ticks) && ticks != [] && ticks[0].before == c && i <= |ticks|
    requires i <= |Residents(table)|
    ensures c < |table| && a <= |table| && |Occupied(table, c, a)| == i
    ensures i == 0 ==> a == 0
    ensures i > 0 ==> a > 0 && ticks[i - 1].after == Plus(|table|, c, a)
    ensures forall e :: e in Occupied(table, c, a) ==> exists k :: 0 <= k < i && ticks[k].after == Plus(|table|, c, e)
    decreases i
  {
    assert Switches(|table|, ticks[0]);
    if i == 0 {
      a := 0;
    } else {
      var b := StepsTaken(table, ticks, c, i - 1);
      a := NextPlace(table, ticks, c, i, b);
    }
  }

  lemma NextPlace(table: seq<nat>, ticks: seq<Tick>, c: nat, i: nat, b: nat) returns (a: nat)
    requires Steady(table, ticks) && 0 < i <= |ticks| && i <= |Residents(table)| && c < |table|
    requires b <= |table| && |Occupied(table, c, b)| == i - 1
    requires ticks[i - 1].before == Plus(|table|, c, b)
    requires forall e :: e in Occupied(table, c, b) ==> exists k :: 0 <= k < i - 1 && ticks[k].after == Plus(|table|, c, e)
    ensures b < a <= |table| && |Occupied(table, c, a)| == i && ticks[i - 1].after == Plus(|table|, c, a)
    ensures forall e :: e in Occupied(table, c, a) ==> exists k :: 0 <= k < i && ticks[k].after == Plus(|table|, c, e)
  {
    var n := |table|;
    OccupiedTurn(table, c);
    var e := OneMore(Occupied(table, c, n), Occupied(table, c, b));
    var x := Plus(n, c, b);
    assert Switches(n, ticks[i - 1]);
    var d: nat :| Hop(table, x, d) && ticks[i - 1].after == Plus(n, x, d);
    assert Plus(n, x, e - b) == Plus(n, c, e);
    a := b + d;
    assert d <= e - b;
    assert Plus(n, x, d) == Plus(n, c, a);
    forall f | b < f < a ensures table[Plus(n, c, f)] == 0 {
      assert Plus(n, x, f - b) == Plus(n, c, f);
    }
    assert Occupied(table, c, a) == Occupied(table, c, b) + {a};
  }

  /** No slot is picked twice before the cursor has come full circle. */
  lemma NoneTwice(table: seq<nat>, ticks: seq<Tick>, k: nat, l: nat)
    requires Steady(table, ticks) && |ticks| <= |Residents(table)| && k < l < |ticks|
    ensures ticks[k].after != ticks[l].after
  {
    hide Steady;
    var x := StepsTaken(table, ticks, ticks[0].before, k + 1);
    var y := StepsTaken(table, ticks, ticks[0].before, l + 1);
    hide Occupied;
    assert x != y;
  }

  lemma EachOnce(table: seq<nat>, ticks: seq<Tick>, s: nat) returns (k: nat)
    requires Steady(table, ticks) && |ticks| == |Residents(table)| && s in Residents(table) && ticks != []
    ensures k < |ticks| && ticks[k].after == s
  {
    hide Steady;
    var c := ticks[0].before;
    var a := StepsTaken(table, ticks, c, |ticks|);
    OccupiedTurn(table, c);
    SubsetSameSize(Occupied(table, c, a), Occupied(table, c, |table|));
    var e := Distance(|table|, c, s);
    assert e in Occupied(table, c, |table|);
    k :| 0 <= k < |ticks| && ticks[k].after == Plus(|table|, c, e);
  }

  /** With an unchanged table of m residents, any m consecutive switches pick each exactly once. */
  lemma EachExactlyOnce(table: seq<nat>, ticks: seq<Tick>, s: nat) returns (k: nat)
    requires Steady(table, ticks) && |ticks| == |Residents(table)| && s in Residents(table)
    ensures k < |ticks| && ticks[k].after == s
    ensures forall l :: 0 <= l < |ticks| && l != k ==> ticks[l].after != s
  {
    hide Steady;
    k := EachOnce(table, ticks, s);
    forall l | 0 <= l < |ticks| && l != k ensures ticks[l].after != s {
      if l < k { NoneTwice(table, ticks, l, k); } else { NoneTwice(table, ticks, k, l); }
    }
  }

  lemma SubsetSameSize(a: set<nat>, b: set<nat>)
    requires a <= b && |a| == |b|
    ensures a == b
  {
    if x :| x in b && x !in a {
      assert a <= b - {x};
      SubsetSize(a, b - {x});
    }
  }

  lemma OneMore(a: set<nat>, b: set<nat>) returns (x: nat)
    requires |a| > |b|
    ensures x in a && x !in b
  {
    if a <= b { SubsetSize(a, b); }
    x :| x in a && x !in b;
  }

  lemma {:induction false} SubsetSize(a: set<nat>, b: set<nat>)
    requires a <= b
    ensures |a| <= |b|
  {
    if x :| x in a {
      SubsetSize(a - {x}, b - {x});
    }
  }
}
