/** The dbus hand-off: a sender takes the lock, goes through the listener slots, spawns a stub per
    match with the message and listener in two globals, and waits; the stub copies the globals and
    gives the lock back. Spawning can fail, and the send does not look. Any number of senders; other
    processes may run between two slots, and the test and set of the mutex are one step. */
module Dbus {
  import opened Options
  import Scheduler

  /** A registered listener: the message code it waits for and whether it is one-shot. */
  datatype Listener = Listener(id: nat, code: int, oneshot: bool)

  /** A call of dbus_send_message with a given code; Scanning(i) is about to look at slot i. */
  datatype Pc = Calling | Scanning(slot: nat) | Waiting | Holding | Returned
  datatype Sender = Sender(code: int, pc: Pc)

  /** The process spawned for one listener; `wanted` is the listener it was spawned for. */
  datatype Phase = Spawned | Captured(sender: nat, lst: Listener) | Released(sender: nat, lst: Listener)
  datatype Stub = Stub(sender: nat, wanted: Listener, phase: Phase)

  datatype Bus = Bus(
    locked: bool,
    message: Option<nat>,               // __msg: which sender's message
    listener: Option<Listener>,         // __lst
    listeners: seq<Option<Listener>>,
    senders: seq<Sender>,
    stubs: seq<Stub>)

  // ---- Steps -----------------------------------------------------------------------------------------

  predicate Match(t: seq<Option<Listener>>, i: nat, code: int)
    requires i < |t|
  {
    t[i].Some? && t[i].value.code == code
  }

  /** The loop body of dbus_send_message for slot i; `ok` says whether a process could be created
      and found a place in the process table. */
  function Visit(b: Bus, s: nat, i: nat, ok: bool): (r: Bus)
    requires s < |b.senders| && i < |b.listeners|
    ensures |r.senders| == |b.senders| && |r.listeners| == |b.listeners| && r.senders[s].code == b.senders[s].code
  {
    var r := Move(b, s, Scanning(i + 1));
    if !Match(b.listeners, i, b.senders[s].code) then r
    else
      var l := b.listeners[i].value;
      r.(listeners := if l.oneshot then b.listeners[i := None] else b.listeners,
         message := Some(s), listener := Some(l),
         stubs := if ok then b.stubs + [Stub(s, l, Spawned)] else b.stubs)
  }

  predicate At(b: Bus, s: nat, pc: Pc) {
    s < |b.senders| && b.senders[s].pc == pc
  }

  function Move(b: Bus, s: nat, pc: Pc): Bus
    requires s < |b.senders|
  {
    b.(senders := b.senders[s := b.senders[s].(pc := pc)])
  }

  /** First mutex_lock. */
  predicate Lock(b: Bus, s: nat, b': Bus) {
    At(b, s, Calling) && !b.locked && b' == Move(b, s, Scanning(0)).(locked := true)
  }

  predicate IsScanning(b: Bus, s: nat) {
    s < |b.senders| && b.senders[s].pc.Scanning?
  }

  /** One slot of the loop. */
  predicate Slot(b: Bus, s: nat, ok: bool, b': Bus) {
    IsScanning(b, s) && b.senders[s].pc.slot < |b.listeners| && b' == Visit(b, s, b.senders[s].pc.slot, ok)
  }

  /** The end of the loop. */
  predicate Done(b: Bus, s: nat, b': Bus) {
    IsScanning(b, s) && b.senders[s].pc.slot >= |b.listeners| && b' == Move(b, s, Waiting)
  }

  /** Second mutex_lock. */
  predicate Relock(b: Bus, s: nat, b': Bus) {
    At(b, s, Waiting) && !b.locked && b' == Move(b, s, Holding).(locked := true)
  }

  /** mutex_unlock and return. */
  predicate Return(b: Bus, s: nat, b': Bus) {
    At(b, s, Holding) && b' == Move(b, s, Returned).(locked := false)
  }

  /** The stub copies the two globals. */
  predicate Capture(b: Bus, j: nat, b': Bus) {
    && j < |b.stubs| && b.stubs[j].phase == Spawned && b.message.Some? && b.listener.Some?
    && b' == b.(stubs := b.stubs[j := b.stubs[j].(phase := Captured(b.message.value, b.listener.value))])
  }

  /** The stub unlocks and goes on to its callback. */
  predicate Release(b: Bus, j: nat, b': Bus) {
    && j < |b.stubs| && b.stubs[j].phase.Captured?
    && b' == b.(locked := false,
                stubs := b.stubs[j := b.stubs[j].(phase := Released(b.stubs[j].phase.sender, b.stubs[j].phase.lst))])
  }

  /** dbus_register_listener, which takes no lock: a free slot is filled. */
  predicate Register(b: Bus, i: nat, l: Listener, b': Bus) {
    i < |b.listeners| && b.listeners[i] == None && b' == b.(listeners := b.listeners[i := Some(l)])
  }

  /** A new call arrives. */
  predicate Arrive(b: Bus, code: int, b': Bus) {
    b' == b.(senders := b.senders + [Sender(code, Calling)])
  }

  ghost predicate Step(b: Bus, b': Bus) {
    || (exists s :: Lock(b, s, b'))
    || (exists s, ok :: Slot(b, s, ok, b'))
    || (exists s :: Done(b, s, b'))
    || (exists s :: Relock(b, s, b'))
    || (exists s :: Return(b, s, b'))
    || (exists j :: Capture(b, j, b'))
    || (exists j :: Release(b, j, b'))
    || (exists i, l :: Register(b, i, l, b'))
    || (exists code :: Arrive(b, code, b'))
  }

  // ---- What the hand-off needs ---------------------------------------------------------------------

  ghost predicate HasStub(b: Bus, s: nat) {
    exists j :: StubOf(b, s, j, false)
  }

  /** The slot at hand matches although the send has spawned a stub already. */
  ghost predicate LateMatch(b: Bus, s: nat) {
    IsScanning(b, s) && HasStub(b, s) &&
    var i := b.senders[s].pc.slot;
    i < |b.listeners| && Match(b.listeners, i, b.senders[s].code)
  }

  /** A late match must spawn nothing, and must find no stub that has yet to copy another message or
      listener than the ones it stores. */
  ghost predicate SlotFine(b: Bus, s: nat, ok: bool) {
    LateMatch(b, s) ==>
      !ok && forall j :: 0 <= j < |b.stubs| && b.stubs[j].phase == Spawned ==>
        b.stubs[j].sender == s && b.listeners[b.senders[s].pc.slot] == Some(b.stubs[j].wanted)
  }

  /** What a step has to meet: no harmful late match, and no end of the loop without a stub. */
  ghost predicate Fine(b: Bus, b': Bus) {
    && (forall s: nat, ok :: Slot(b, s, ok, b') ==> SlotFine(b, s, ok))
    && forall s: nat :: Done(b, s, b') ==> HasStub(b, s)
  }

  // ---- The invariant ------------------------------------------------------------------------------------

  datatype Holder = BySender(s: nat) | ByStub(j: nat)

  /** Who is responsible for giving the lock back. */
  ghost predicate Owns(b: Bus, h: Holder) {
    match h
    case BySender(s) => At(b, s, Holding) || (IsScanning(b, s) && !HasStub(b, s))
    case ByStub(j) => j < |b.stubs| && (b.stubs[j].phase == Spawned || b.stubs[j].phase.Captured?)
  }

  ghost predicate LockOk(b: Bus) {
    && (b.locked <==> exists h :: Owns(b, h))
    && forall h, h' :: Owns(b, h) && Owns(b, h') ==> h == h'
  }

  /** A stub sees or has copied its own sender's message and its own listener. */
  predicate StubOk(b: Bus, j: nat)
    requires j < |b.stubs|
  {
    var stub := b.stubs[j];
    stub.sender < |b.senders| &&
    match stub.phase
    case Spawned => b.message == Some(stub.sender) && b.listener == Some(stub.wanted)
    case Captured(s, l) => s == stub.sender && l == stub.wanted
    case Released(s, l) => s == stub.sender && l == stub.wanted
  }

  /** The stub of sender s, with its copies made if `done`. */
  predicate StubOf(b: Bus, s: nat, j: nat, done: bool) {
    j < |b.stubs| && b.stubs[j].sender == s && (done ==> b.stubs[j].phase.Released?)
  }

  ghost predicate SenderOk(b: Bus, s: nat)
    requires s < |b.senders|
  {
    match b.senders[s].pc
    case Calling => !HasStub(b, s)
    case Scanning(i) => i == 0 ==> !HasStub(b, s)
    case Waiting => exists j :: StubOf(b, s, j, false)
    case Holding => exists j :: StubOf(b, s, j, true)
    case Returned => exists j :: StubOf(b, s, j, true)
  }

  ghost predicate Inv(b: Bus) {
    && LockOk(b)
    && (forall j :: 0 <= j < |b.stubs| ==> StubOk(b, j))
    && (forall s :: 0 <= s < |b.senders| ==> SenderOk(b, s))
  }

  /** The lock is taken and nobody is left to give it back. */
  ghost predicate Stuck(b: Bus) {
    b.locked && forall h :: !Owns(b, h)
  }

  // ---- Every step keeps the invariant exactly if it is fine --------------------------------------------

  /** Stubs only join at the end, so a stub of x is one of the old ones or the new one. */
  lemma StubsAfter(b: Bus, b': Bus, x: nat)
    requires |b.stubs| <= |b'.stubs| <= |b.stubs| + 1
    requires forall j :: 0 <= j < |b.stubs| ==> b'.stubs[j].sender == b.stubs[j].sender
    ensures HasStub(b', x) <==> HasStub(b, x) || (|b'.stubs| > |b.stubs| && b'.stubs[|b.stubs|].sender == x)
  {
    var n := |b.stubs|;
    if HasStub(b, x) {
      var j :| StubOf(b, x, j, false);
      assert StubOf(b', x, j, false);
    }
    if |b'.stubs| > n && b'.stubs[n].sender == x { assert StubOf(b', x, n, false); }
    if HasStub(b', x) {
      var j: nat :| StubOf(b', x, j, false);
      assert j < n ==> StubOf(b, x, j, false);
    }
  }

  lemma SameStubSenders(b: Bus, b': Bus)
    requires |b'.stubs| == |b.stubs| && forall j :: 0 <= j < |b.stubs| ==> b'.stubs[j].sender == b.stubs[j].sender
    ensures forall x: nat :: HasStub(b', x) <==> HasStub(b, x)
  {
    forall x: nat ensures HasStub(b', x) <==> HasStub(b, x) { StubsAfter(b, b', x); }
  }

  /** A slot that spawns nothing leaves the lock where it was. */
  lemma SlotOwners(b: Bus, s: nat, b': Bus, h: Holder)
    requires IsScanning(b, s) && b'.stubs == b.stubs && IsScanning(b', s)
    requires |b'.senders| == |b.senders| && forall x :: 0 <= x < |b.senders| && x != s ==> b'.senders[x] == b.senders[x]
    ensures Owns(b', h) <==> Owns(b, h)
  {
    SameStubSenders(b, b');
  }

  lemma QuietSlotKeepsIff(b: Bus, s: nat, ok: bool, b': Bus)
    requires Inv(b) && Slot(b, s, ok, b') && b'.stubs == b.stubs
    ensures Inv(b') <==> SlotFine(b, s, ok)
  {
    forall h ensures Owns(b', h) <==> Owns(b, h) { SlotOwners(b, s, b', h); }
    forall x | 0 <= x < |b'.senders| ensures SenderOk(b', x) {
      if x != s { SameStubs(b, b', x); }
    }
    var i := b.senders[s].pc.slot;
    var matched := Match(b.listeners, i, b.senders[s].code);
    forall j | 0 <= j < |b.stubs|
      ensures StubOk(b', j) <==> matched && b.stubs[j].phase == Spawned ==>
                b.stubs[j].sender == s && b.listeners[i] == Some(b.stubs[j].wanted)
    {
      assert StubOk(b, j);
    }
    if !HasStub(b, s) {
      assert Owns(b, BySender(s));
      forall j | 0 <= j < |b.stubs| ensures StubOk(b', j) {
        assert !Owns(b, ByStub(j));
      }
    }
  }

  lemma SpawnKeepsIff(b: Bus, s: nat, ok: bool, b': Bus)
    requires Inv(b) && Slot(b, s, ok, b') && b'.stubs != b.stubs
    ensures Inv(b') <==> SlotFine(b, s, ok)
  {
    var n := |b.stubs|;
    assert Owns(b', ByStub(n)) && !Owns(b, ByStub(n));
    if HasStub(b, s) {
      if Inv(b') {
        var h :| Owns(b, h);
        if h.BySender? { StubsAfter(b, b', h.s); }
        assert Owns(b', h);
        assert false;
      }
    } else {
      SpawnKeeps(b, s, b');
    }
  }

  lemma SpawnKeeps(b: Bus, s: nat, b': Bus)
    requires Inv(b) && Slot(b, s, true, b') && b'.stubs != b.stubs && !HasStub(b, s)
    ensures Inv(b')
  {
    var n := |b.stubs|;
    assert Owns(b, BySender(s)) && Owns(b', ByStub(n));
    forall h | Owns(b', h) ensures h == ByStub(n) {
      if h.BySender? { StubsAfter(b, b', h.s); }
      if h != ByStub(n) && h != BySender(s) { assert Owns(b, h); }
    }
    forall j | 0 <= j < |b'.stubs| ensures StubOk(b', j) {
      if j < n { assert StubOk(b, j); assert !Owns(b, ByStub(j)); }
    }
    forall x | 0 <= x < |b'.senders| ensures SenderOk(b', x) {
      if x != s { SameStubs(b, b', x); }
    }
  }

  /** A slot leaves the hand-off intact if and only if it is not a harmful late match. */
  lemma SlotKeepsIff(b: Bus, s: nat, ok: bool, b': Bus)
    requires Inv(b) && Slot(b, s, ok, b')
    ensures Inv(b') <==> SlotFine(b, s, ok)
  {
    hide Inv; hide SlotFine;
    if b'.stubs == b.stubs { QuietSlotKeepsIff(b, s, ok, b'); } else { SpawnKeepsIff(b, s, ok, b'); }
  }

  /** The end of the loop leaves the hand-off intact if and only if a stub was spawned. */
  lemma DoneKeepsIff(b: Bus, s: nat, b': Bus)
    requires Inv(b) && Done(b, s, b')
    ensures Inv(b') <==> HasStub(b, s)
    ensures !HasStub(b, s) ==> Stuck(b')
  {
    forall h ensures Owns(b', h) <==> Owns(b, h) && h != BySender(s) {
      if h.BySender? { StubsAfter(b, b', h.s); }
    }
    if HasStub(b, s) {
      forall j | 0 <= j < |b'.stubs| ensures StubOk(b', j) { assert StubOk(b, j); }
      forall x | 0 <= x < |b'.senders| ensures SenderOk(b', x) {
        if x != s { SameStubs(b, b', x); } else { StubsAfter(b, b', s); }
      }
      forall h ensures Owns(b', h) <==> Owns(b, h) {}
    } else {
      assert Owns(b, BySender(s));
    }
  }

  /** A sender whose stub is still there, as far along as before, stays fine. */
  lemma SameStubs(b: Bus, b': Bus, x: nat)
    requires x < |b.senders| && x < |b'.senders| && b'.senders[x].pc == b.senders[x].pc && SenderOk(b, x)
    requires |b.stubs| <= |b'.stubs| <= |b.stubs| + 1 && (|b'.stubs| > |b.stubs| ==> b'.stubs[|b.stubs|].sender != x)
    requires forall j :: 0 <= j < |b.stubs| ==>
               b'.stubs[j].sender == b.stubs[j].sender && (b.stubs[j].phase.Released? ==> b'.stubs[j].phase.Released?)
    ensures SenderOk(b', x)
  {
    StubsAfter(b, b', x);
    var pc := b.senders[x].pc;
    if pc != Calling && !pc.Scanning? {
      var done := pc != Waiting;
      var j :| StubOf(b, x, j, done);
      assert StubOf(b', x, j, done);
    }
  }

  lemma LockKeeps(b: Bus, s: nat, b': Bus)
    requires Inv(b) && Lock(b, s, b')
    ensures Inv(b')
  {
    SameStubSenders(b, b');
    assert SenderOk(b, s) && Owns(b', BySender(s));
    forall h | Owns(b', h) ensures h == BySender(s) {
      if h != BySender(s) { assert Owns(b, h); }
    }
    forall j | 0 <= j < |b'.stubs| ensures StubOk(b', j) { assert StubOk(b, j); }
    forall x | 0 <= x < |b'.senders| ensures SenderOk(b', x) {
      if x != s { SameStubs(b, b', x); }
    }
  }

  lemma RelockKeeps(b: Bus, s: nat, b': Bus)
    requires Inv(b) && Relock(b, s, b')
    ensures Inv(b')
  {
    SameStubSenders(b, b');
    assert Owns(b', BySender(s));
    forall h | Owns(b', h) ensures h == BySender(s) {
      if h != BySender(s) { assert Owns(b, h); }
    }
    forall j | 0 <= j < |b'.stubs| ensures StubOk(b', j) { assert StubOk(b, j); }
    forall x | 0 <= x < |b'.senders| ensures SenderOk(b', x) {
      if x != s {
        SameStubs(b, b', x);
      } else {
        assert SenderOk(b, s);
        var j :| StubOf(b, s, j, false);
        assert !Owns(b, ByStub(j));
        assert StubOf(b', s, j, true);
      }
    }
  }

  lemma ReturnKeeps(b: Bus, s: nat, b': Bus)
    requires Inv(b) && Return(b, s, b')
    ensures Inv(b')
  {
    SameStubSenders(b, b');
    assert Owns(b, BySender(s));
    forall h ensures !Owns(b', h) {
      if Owns(b', h) { assert Owns(b, h); }
    }
    forall j | 0 <= j < |b'.stubs| ensures StubOk(b', j) { assert StubOk(b, j); }
    forall x | 0 <= x < |b'.senders| ensures SenderOk(b', x) {
      if x != s {
        SameStubs(b, b', x);
      } else {
        assert SenderOk(b, s);
        var j :| StubOf(b, s, j, true);
        assert StubOf(b', s, j, true);
      }
    }
  }

  lemma CaptureKeeps(b: Bus, j: nat, b': Bus)
    requires Inv(b) && Capture(b, j, b')
    ensures Inv(b')
  {
    SameStubSenders(b, b');
    assert StubOk(b, j);
    assert Owns(b, ByStub(j)) && Owns(b', ByStub(j));
    forall h ensures Owns(b', h) <==> Owns(b, h) {}
    forall k | 0 <= k < |b'.stubs| ensures StubOk(b', k) { assert StubOk(b, k); }
    forall x | 0 <= x < |b'.senders| ensures SenderOk(b', x) { SameStubs(b, b', x); }
  }

  lemma ReleaseKeeps(b: Bus, j: nat, b': Bus)
    requires Inv(b) && Release(b, j, b')
    ensures Inv(b')
  {
    SameStubSenders(b, b');
    assert StubOk(b, j);
    assert Owns(b, ByStub(j));
    forall h ensures !Owns(b', h) {
      if Owns(b', h) { assert Owns(b, h); }
    }
    forall k | 0 <= k < |b'.stubs| ensures StubOk(b', k) { assert StubOk(b, k); }
    forall x | 0 <= x < |b'.senders| ensures SenderOk(b', x) { SameStubs(b, b', x); }
  }

  lemma ArriveKeeps(b: Bus, code: int, b': Bus)
    requires Inv(b) && Arrive(b, code, b')
    ensures Inv(b')
  {
    SameStubSenders(b, b');
    forall x: nat | HasStub(b, x) ensures x < |b.senders| {
      var j: nat :| StubOf(b, x, j, false);
      assert StubOk(b, j);
    }
    forall h ensures Owns(b', h) <==> Owns(b, h) {}
    forall k | 0 <= k < |b'.stubs| ensures StubOk(b', k) { assert StubOk(b, k); }
    forall x | 0 <= x < |b'.senders| ensures SenderOk(b', x) {
      if x < |b.senders| { SameStubs(b, b', x); }
    }
  }

  lemma RegisterKeeps(b: Bus, i: nat, l: Listener, b': Bus)
    requires Inv(b) && Register(b, i, l, b')
    ensures Inv(b')
  {
    SameStubSenders(b, b');
    forall h ensures Owns(b', h) <==> Owns(b, h) {}
    forall k | 0 <= k < |b'.stubs| ensures StubOk(b', k) { assert StubOk(b, k); }
    forall x | 0 <= x < |b'.senders| ensures SenderOk(b', x) { SameStubs(b, b', x); }
  }

  /** A step leaves the hand-off intact if and only if it is fine. */
  lemma StepKeepsIff(b: Bus, b': Bus)
    requires Inv(b) && Step(b, b')
    ensures Inv(b') <==> Fine(b, b')
  {
    hide Inv; hide Lock; hide Slot; hide Done; hide Relock; hide Return; hide Capture; hide Release; hide Register;
    hide Arrive; hide SlotFine; hide HasStub;
    forall s: nat, ok | Slot(b, s, ok, b') ensures Inv(b') <==> SlotFine(b, s, ok) { SlotKeepsIff(b, s, ok, b'); }
    forall s: nat | Done(b, s, b') ensures Inv(b') <==> HasStub(b, s) { DoneKeepsIff(b, s, b'); }
    if s: nat, ok :| Slot(b, s, ok, b') {
    } else if s: nat :| Done(b, s, b') {
    } else {
      OtherStepKeeps(b, b');
    }
  }

  lemma OtherStepKeeps(b: Bus, b': Bus)
    requires Inv(b) && Step(b, b')
    requires (forall s: nat, ok :: !Slot(b, s, ok, b')) && forall s: nat :: !Done(b, s, b')
    ensures Inv(b')
  {
    hide Inv; hide Lock; hide Slot; hide Done; hide Relock; hide Return; hide Capture; hide Release; hide Register;
    hide Arrive;
    if s :| Lock(b, s, b') { LockKeeps(b, s, b'); }
    else if s :| Relock(b, s, b') { RelockKeeps(b, s, b'); }
    else if s :| Return(b, s, b') { ReturnKeeps(b, s, b'); }
    else if j :| Capture(b, j, b') { CaptureKeeps(b, j, b'); }
    else if j :| Release(b, j, b') { ReleaseKeeps(b, j, b'); }
    else if i, l :| Register(b, i, l, b') { RegisterKeeps(b, i, l, b'); }
    else { var code :| Arrive(b, code, b'); ArriveKeeps(b, code, b'); }
  }

  // ---- Whole runs -------------------------------------------------------------------------------------

  /** The bus before any call. */
  predicate Idle(b: Bus) {
    !b.locked && b.senders == [] && b.stubs == []
  }

  ghost predicate IsRun(run: seq<Bus>) {
    run != [] && Idle(run[0]) && forall i :: 0 <= i < |run| - 1 ==> Step(run[i], run[i + 1])
  }

  ghost predicate AllFine(run: seq<Bus>, n: nat) {
    forall i :: 0 <= i < n && i < |run| - 1 ==> Fine(run[i], run[i + 1])
  }

  lemma {:induction false} FineRunsKeepInv(run: seq<Bus>, i: nat)
    requires IsRun(run) && i < |run| && AllFine(run, i)
    ensures Inv(run[i])
  {
    if i == 0 {
      assert forall h :: !Owns(run[0], h);
    } else {
      FineRunsKeepInv(run, i - 1);
      StepKeepsIff(run[i - 1], run[i]);
    }
  }

  /** In a run of any interleaving the hand-off is intact throughout if and only if every step is
      fine: no harmful match after a stub was spawned, and no loop ended without one. */
  lemma RunIntactIff(run: seq<Bus>)
    requires IsRun(run)
    ensures (forall i :: 0 <= i < |run| ==> Inv(run[i])) <==> AllFine(run, |run|)
  {
    hide Inv; hide Fine; hide Step;
    if AllFine(run, |run|) {
      forall i | 0 <= i < |run| ensures Inv(run[i]) { FineRunsKeepInv(run, i); }
    }
    if forall i :: 0 <= i < |run| ==> Inv(run[i]) {
      forall i | 0 <= i < |run| - 1 ensures Fine(run[i], run[i + 1]) { StepKeepsIff(run[i], run[i + 1]); }
    }
  }

  /** In every interleaving of fine steps each stub copies its own sender's message and its own listener. */
  lemma StubsCaptureTheirOwn(run: seq<Bus>, i: nat, j: nat)
    requires IsRun(run) && i < |run| && AllFine(run, i)
    requires j < |run[i].stubs| && run[i].stubs[j].phase != Spawned
    ensures run[i].stubs[j].phase.sender == run[i].stubs[j].sender
    ensures run[i].stubs[j].phase.lst == run[i].stubs[j].wanted
  {
    FineRunsKeepInv(run, i);
    assert StubOk(run[i], j);
  }

  /** A send returns only after its stub has made its copies and given the lock back. */
  lemma ReturnsAfterCapture(run: seq<Bus>, i: nat, s: nat) returns (j: nat)
    requires IsRun(run) && i < |run| && AllFine(run, i) && At(run[i], s, Returned)
    ensures j < |run[i].stubs| && run[i].stubs[j].sender == s
    ensures run[i].stubs[j].phase == Released(s, run[i].stubs[j].wanted)
  {
    FineRunsKeepInv(run, i);
    assert SenderOk(run[i], s);
    j :| StubOf(run[i], s, j, true);
    assert StubOk(run[i], j);
  }

  // ---- A send without a stub ----------------------------------------------------------------------------

  /** No send spawns a stub beyond its first. */
  ghost predicate NoLateSpawn(b: Bus, b': Bus) {
    forall x: nat, ok :: Slot(b, x, ok, b') && LateMatch(b, x) ==> !ok
  }

  lemma StuckSlot(b: Bus, x: nat, ok: bool, b': Bus)
    requires Stuck(b) && Slot(b, x, ok, b') && (LateMatch(b, x) ==> !ok)
    ensures Stuck(b')
  {
    assert !Owns(b, BySender(x));
    assert b'.stubs == b.stubs;
    forall h ensures !Owns(b', h) { SlotOwners(b, x, b', h); }
  }

  lemma StuckStep(b: Bus, b': Bus, s: nat)
    requires Stuck(b) && Step(b, b') && NoLateSpawn(b, b') && At(b, s, Waiting)
    ensures Stuck(b') && At(b', s, Waiting)
  {
    forall x: nat ensures !Return(b, x, b') { assert !Owns(b, BySender(x)); }
    forall j: nat ensures !Capture(b, j, b') && !Release(b, j, b') { assert !Owns(b, ByStub(j)); }
    if x: nat, ok :| Slot(b, x, ok, b') {
      StuckSlot(b, x, ok, b');
    } else {
      SameStubSenders(b, b');
      forall h ensures !Owns(b', h) { assert !Owns(b, h); }
    }
  }

  /** After a send whose loop ended without a stub no run ever lets that call return, unless another
      send spawns a second stub. */
  lemma {:induction false} NoStubNeverReturns(b: Bus, s: nat, run: seq<Bus>, i: nat)
    requires Inv(b) && run != [] && Done(b, s, run[0]) && !HasStub(b, s)
    requires forall k :: 0 <= k < |run| - 1 ==> Step(run[k], run[k + 1]) && NoLateSpawn(run[k], run[k + 1])
    requires i < |run|
    ensures Stuck(run[i]) && At(run[i], s, Waiting)
  {
    if i == 0 {
      DoneKeepsIff(b, s, run[0]);
    } else {
      NoStubNeverReturns(b, s, run, i - 1);
      StuckStep(run[i - 1], run[i], s);
    }
  }

  // ---- A loop that is not interrupted -------------------------------------------------------------------

  /** The loop from slot i on, with the answer to each spawn, when nothing else runs meanwhile. */
  function Scan(b: Bus, s: nat, i: nat, ok: seq<bool>): (r: Bus)
    requires s < |b.senders| && i <= |b.listeners| == |ok|
    ensures |r.senders| == |b.senders| && |r.listeners| == |b.listeners|
    decreases |ok| - i
  {
    if i == |ok| then b else Scan(Visit(b, s, i, ok[i]), s, i + 1, ok)
  }

  /** It is a sequence of slot steps. */
  lemma {:induction false} ScanSteps(b: Bus, s: nat, i: nat, ok: seq<bool>) returns (run: seq<Bus>)
    requires At(b, s, Scanning(i)) && i <= |b.listeners| == |ok|
    ensures |run| == |ok| - i + 1 && run[0] == b && run[|ok| - i] == Scan(b, s, i, ok)
    ensures forall k :: 0 <= k < |ok| - i ==> Slot(run[k], s, ok[i + k], run[k + 1])
    decreases |ok| - i
  {
    if i == |ok| {
      run := [b];
    } else {
      var tail := ScanSteps(Visit(b, s, i, ok[i]), s, i + 1, ok);
      run := [b] + tail;
      forall k | 0 <= k < |ok| - i ensures Slot(run[k], s, ok[i + k], run[k + 1]) {
        if k > 0 { assert Slot(tail[k - 1], s, ok[i + 1 + (k - 1)], tail[k]); }
      }
    }
  }

  /** The matching listeners from slot i on whose stub could be spawned. */
  function Served(t: seq<Option<Listener>>, ok: seq<bool>, i: nat, code: int): seq<Listener>
    requires i <= |t| == |ok|
    decreases |t| - i
  {
    if i == |t| then []
    else (if Match(t, i, code) && ok[i] then [t[i].value] else []) + Served(t, ok, i + 1, code)
  }

  /** The last matching listener from slot i on. */
  function LastMatch(t: seq<Option<Listener>>, i: nat, code: int): Option<Listener>
    requires i <= |t|
    decreases |t| - i
  {
    if i == |t| then None
    else if LastMatch(t, i + 1, code).Some? || !Match(t, i, code) then LastMatch(t, i + 1, code)
    else t[i]
  }

  lemma {:induction false} SameBehind(t: seq<Option<Listener>>, u: seq<Option<Listener>>, ok: seq<bool>, i: nat, code: int)
    requires |t| == |u| == |ok| && i <= |t| && forall k :: i <= k < |t| ==> t[k] == u[k]
    ensures Served(t, ok, i, code) == Served(u, ok, i, code) && LastMatch(t, i, code) == LastMatch(u, i, code)
    decreases |t| - i
  {
    if i < |t| { SameBehind(t, u, ok, i + 1, code); }
  }

  lemma {:induction false} ServedHasLast(t: seq<Option<Listener>>, ok: seq<bool>, i: nat, code: int)
    requires i <= |t| == |ok|
    ensures Served(t, ok, i, code) != [] ==> LastMatch(t, i, code).Some?
    decreases |t| - i
  {
    if i < |t| { ServedHasLast(t, ok, i + 1, code); }
  }

  function StubsFor(s: nat, ls: seq<Listener>): seq<Stub> {
    seq(|ls|, k requires 0 <= k < |ls| => Stub(s, ls[k], Spawned))
  }

  lemma StubsForCons(s: nat, l: Listener, ls: seq<Listener>)
    ensures StubsFor(s, [l] + ls) == [Stub(s, l, Spawned)] + StubsFor(s, ls)
  {
  }

  /** One slot, then the rest: how the result composes. */
  lemma VisitThenRest(b: Bus, s: nat, i: nat, ok: seq<bool>)
    requires s < |b.senders| && i < |b.listeners| == |ok|
    ensures var c, code := Visit(b, s, i, ok[i]), b.senders[s].code;
            && Served(c.listeners, ok, i + 1, code) == Served(b.listeners, ok, i + 1, code)
            && LastMatch(c.listeners, i + 1, code) == LastMatch(b.listeners, i + 1, code)
            && c.stubs + StubsFor(s, Served(b.listeners, ok, i + 1, code)) ==
               b.stubs + StubsFor(s, Served(b.listeners, ok, i, code))
  {
    var c, code := Visit(b, s, i, ok[i]), b.senders[s].code;
    SameBehind(b.listeners, c.listeners, ok, i + 1, code);
    var rest := Served(b.listeners, ok, i + 1, code);
    if Match(b.listeners, i, code) && ok[i] {
      var l := b.listeners[i].value;
      StubsForCons(s, l, rest);
      assert (b.stubs + [Stub(s, l, Spawned)]) + StubsFor(s, rest) == b.stubs + ([Stub(s, l, Spawned)] + StubsFor(s, rest));
    } else {
      assert [] + rest == rest;
    }
  }

  /** The loop appends one stub per match that could be spawned, in slot order, and leaves the globals
      on the last match, spawned or not. */
  lemma {:induction false} ScanResult(b: Bus, s: nat, i: nat, ok: seq<bool>)
    requires s < |b.senders| && i <= |b.listeners| == |ok|
    ensures var r, code, last := Scan(b, s, i, ok), b.senders[s].code, LastMatch(b.listeners, i, b.senders[s].code);
            && r.locked == b.locked && r.senders == b.senders[s := r.senders[s]] && r.senders[s].code == code
            && r.stubs == b.stubs + StubsFor(s, Served(b.listeners, ok, i, code))
            && r.listener == (if last.Some? then last else b.listener)
            && r.message == if last.Some? then Some(s) else b.message
    decreases |ok| - i
  {
    hide StubsFor; hide Served;
    if i == |ok| {
      assert Served(b.listeners, ok, i, b.senders[s].code) == [] && StubsFor(s, []) == [] by { NothingLeft(b, s, ok); }
    } else {
      ScanResult(Visit(b, s, i, ok[i]), s, i + 1, ok);
      VisitThenRest(b, s, i, ok);
    }
  }

  lemma NothingLeft(b: Bus, s: nat, ok: seq<bool>)
    requires s < |b.senders| && |b.listeners| == |ok|
    ensures Served(b.listeners, ok, |ok|, b.senders[s].code) == [] && StubsFor(s, []) == []
  {
  }

  /** The loop takes exactly the matching one-shot listeners out of the table, spawned or not. */
  lemma {:induction false} ScanListeners(b: Bus, s: nat, i: nat, ok: seq<bool>, k: nat)
    requires s < |b.senders| && i <= |b.listeners| == |ok| && k < |ok|
    ensures Scan(b, s, i, ok).listeners[k] ==
              if i <= k && Match(b.listeners, k, b.senders[s].code) && b.listeners[k].value.oneshot
              then None else b.listeners[k]
    decreases |ok| - i
  {
    if i < |ok| { ScanListeners(Visit(b, s, i, ok[i]), s, i + 1, ok, k); }
  }

  /** Slot k holds listener l, which waits for that code. */
  predicate Waits(t: seq<Option<Listener>>, k: nat, l: Listener, code: int) {
    k < |t| && t[k] == Some(l) && l.code == code
  }

  /** A stub is for a listener of that code in a slot whose spawn worked, and every such listener has
      one. */
  lemma {:induction false} ServedBySlots(t: seq<Option<Listener>>, ok: seq<bool>, i: nat, code: int, l: Listener)
    requires i <= |t| == |ok|
    ensures l in Served(t, ok, i, code) <==> exists k :: i <= k < |t| && Waits(t, k, l, code) && ok[k]
    decreases |t| - i
  {
    if i < |t| {
      ServedBySlots(t, ok, i + 1, code, l);
      assert l in Served(t, ok, i, code) <==> l in Served(t, ok, i + 1, code) || (Waits(t, i, l, code) && ok[i]);
      hide Served;
      if k :| i <= k < |t| && Waits(t, k, l, code) && ok[k] {
        assert k == i || i + 1 <= k;
      }
    }
  }

  /** The last match is the last listener of that code. */
  lemma {:induction false} LastBySlots(t: seq<Option<Listener>>, i: nat, code: int)
    requires i <= |t|
    ensures LastMatch(t, i, code).Some? ==>
              exists k :: i <= k < |t| && Waits(t, k, LastMatch(t, i, code).value, code) &&
                          forall m, l :: k < m < |t| ==> !Waits(t, m, l, code)
    ensures LastMatch(t, i, code) == None ==> forall m, l :: i <= m < |t| ==> !Waits(t, m, l, code)
    decreases |t| - i
  {
    if i < |t| {
      LastBySlots(t, i + 1, code);
      if Match(t, i, code) { assert Waits(t, i, t[i].value, code); }
    }
  }

  /** A listener for another code gets no stub and keeps its slot, whatever is sent. */
  lemma OthersLeftAlone(b: Bus, s: nat, ok: seq<bool>, k: nat)
    requires s < |b.senders| && |b.listeners| == |ok| && k < |ok|
    requires b.listeners[k].Some? && b.listeners[k].value.code != b.senders[s].code
    ensures var r := Scan(b, s, 0, ok);
            && r.listeners[k] == b.listeners[k]
            && |b.stubs| <= |r.stubs| && r.stubs[..|b.stubs|] == b.stubs
            && forall j :: |b.stubs| <= j < |r.stubs| ==> r.stubs[j].wanted != b.listeners[k].value
  {
    var code := b.senders[s].code;
    ScanListeners(b, s, 0, ok, k);
    ScanResult(b, s, 0, ok);
    ServedBySlots(b.listeners, ok, 0, code, b.listeners[k].value);
    var r, served := Scan(b, s, 0, ok), Served(b.listeners, ok, 0, code);
    hide Scan; hide Served; hide LastMatch;
    assert b.listeners[k].value !in served;
    forall j | |b.stubs| <= j < |r.stubs| ensures r.stubs[j].wanted != b.listeners[k].value {
      assert r.stubs[j].wanted == served[j - |b.stubs|] && served[j - |b.stubs|] in served;
    }
  }

  /** The state at the end of a send's loop that nothing interrupted. */
  function Sent(b: Bus, s: nat, ok: seq<bool>): Bus
    requires s < |b.senders| && |b.listeners| == |ok|
  {
    Move(Scan(b, s, 0, ok), s, Waiting)
  }

  /** An uninterrupted send leaves the hand-off intact if and only if it spawned exactly one stub and
      that stub's listener was the last match. */
  lemma OneStubIff(b: Bus, s: nat, ok: seq<bool>)
    requires Inv(b) && At(b, s, Scanning(0)) && |b.listeners| == |ok|
    ensures var served := Served(b.listeners, ok, 0, b.senders[s].code);
            && (Inv(Sent(b, s, ok)) <==> |served| == 1 && LastMatch(b.listeners, 0, b.senders[s].code) == Some(served[0]))
            && (served == [] ==> Stuck(Sent(b, s, ok)))
  {
    var b', n := Sent(b, s, ok), |b.stubs|;
    var served := Served(b.listeners, ok, 0, b.senders[s].code);
    ScanResult(b, s, 0, ok);
    assert SenderOk(b, s) && Owns(b, BySender(s));
    if |served| >= 2 {
      assert Owns(b', ByStub(n)) && Owns(b', ByStub(n + 1));
    } else if served == [] {
      NoneServedStuck(b, s, b');
    } else if LastMatch(b.listeners, 0, b.senders[s].code) == Some(served[0]) {
      OneStubKeeps(b, s, b', served[0]);
    } else {
      ServedHasLast(b.listeners, ok, 0, b.senders[s].code);
      assert b'.stubs[n] == Stub(s, served[0], Spawned);
      assert !StubOk(b', n);
    }
  }

  lemma NoneServedStuck(b: Bus, s: nat, b': Bus)
    requires Inv(b) && At(b, s, Scanning(0)) && b'.locked == b.locked && b'.stubs == b.stubs
    requires b'.senders == b.senders[s := b.senders[s].(pc := Waiting)]
    ensures Stuck(b')
  {
    assert SenderOk(b, s) && Owns(b, BySender(s));
    SameStubSenders(b, b');
    forall h ensures !Owns(b', h) {
      if Owns(b', h) { assert Owns(b, h); }
    }
  }

  lemma OneStubKeeps(b: Bus, s: nat, b': Bus, l: Listener)
    requires Inv(b) && At(b, s, Scanning(0)) && b'.locked == b.locked
    requires b'.senders == b.senders[s := b.senders[s].(pc := Waiting)]
    requires b'.stubs == b.stubs + [Stub(s, l, Spawned)] && b'.message == Some(s) && b'.listener == Some(l)
    ensures Inv(b')
  {
    var n := |b.stubs|;
    assert SenderOk(b, s) && Owns(b, BySender(s)) && Owns(b', ByStub(n));
    forall h | Owns(b', h) ensures h == ByStub(n) {
      if h.BySender? { StubsAfter(b, b', h.s); }
      if h != ByStub(n) { assert Owns(b, h); }
    }
    forall j | 0 <= j < |b'.stubs| ensures StubOk(b', j) {
      if j < n { assert StubOk(b, j); assert !Owns(b, ByStub(j)); }
    }
    forall x | 0 <= x < |b'.senders| ensures SenderOk(b', x) {
      if x != s { SameStubs(b, b', x); } else { assert StubOf(b', s, n, false); }
    }
  }

  /** Slot k alone matches. */
  predicate OnlyMatch(t: seq<Option<Listener>>, code: int, k: nat) {
    k < |t| && Match(t, k, code) && forall i :: 0 <= i < |t| && i != k ==> !Match(t, i, code)
  }

  lemma {:induction false} OnlyMatchServed(t: seq<Option<Listener>>, ok: seq<bool>, code: int, k: nat, i: nat)
    requires |ok| == |t| && OnlyMatch(t, code, k) && i <= |t|
    ensures Served(t, ok, i, code) == if i <= k && ok[k] then [t[k].value] else []
    ensures LastMatch(t, i, code) == if i <= k then t[k] else None
    decreases |t| - i
  {
    if i < |t| {
      OnlyMatchServed(t, ok, code, k, i + 1);
      assert Match(t, i, code) <==> i == k;
    }
  }

  /** With one matching listener everything hangs on the process table: the hand-off is intact exactly
      if the stub could be spawned; if not, no run ever lets the call return. */
  lemma OneMatchIff(b: Bus, s: nat, ok: seq<bool>, k: nat)
    requires Inv(b) && At(b, s, Scanning(0)) && |b.listeners| == |ok| && OnlyMatch(b.listeners, b.senders[s].code, k)
    ensures Inv(Sent(b, s, ok)) <==> ok[k]
    ensures !ok[k] ==> Stuck(Sent(b, s, ok))
  {
    OnlyMatchServed(b.listeners, ok, b.senders[s].code, k, 0);
    OneStubIff(b, s, ok);
  }

  lemma {:induction false} FullTableNeverReturns(b: Bus, s: nat, ok: seq<bool>, k: nat, run: seq<Bus>, i: nat)
    requires Inv(b) && At(b, s, Scanning(0)) && |b.listeners| == |ok| && OnlyMatch(b.listeners, b.senders[s].code, k)
    requires !ok[k] && i < |run| && run[0] == Sent(b, s, ok)
    requires forall x :: 0 <= x < |run| - 1 ==> Step(run[x], run[x + 1]) && NoLateSpawn(run[x], run[x + 1])
    ensures Stuck(run[i]) && At(run[i], s, Waiting)
  {
    if i == 0 {
      OneMatchIff(b, s, ok, k);
    } else {
      FullTableNeverReturns(b, s, ok, k, run, i - 1);
      StuckStep(run[i - 1], run[i], s);
    }
  }

  /** After an uninterrupted send, a stub that runs next copies the last match, not the listener it was
      spawned for. */
  lemma SeveralMixUp(b: Bus, s: nat, ok: seq<bool>, x: nat, b': Bus)
    requires s < |b.senders| && |b.listeners| == |ok|
    requires var code := b.senders[s].code; var served := Served(b.listeners, ok, 0, code);
             x < |served| && LastMatch(b.listeners, 0, code).Some? && LastMatch(b.listeners, 0, code) != Some(served[x])
    requires Capture(Sent(b, s, ok), |b.stubs| + x, b')
    ensures var stub := b'.stubs[|b.stubs| + x];
            stub.phase == Captured(s, LastMatch(b.listeners, 0, b.senders[s].code).value) && stub.phase.lst != stub.wanted
  {
    ScanResult(b, s, 0, ok);
  }

  // ---- Failing runs -------------------------------------------------------------------------------------

  /** The state an uninterrupted send ends in is reached by steps from where its loop starts, so what
      OneStubIff says of it is about runs. */
  lemma SentReached(run: seq<Bus>, s: nat, ok: seq<bool>) returns (longer: seq<Bus>)
    requires IsRun(run)
    requires var b := run[|run| - 1]; At(b, s, Scanning(0)) && |b.listeners| == |ok|
    ensures IsRun(longer) && run <= longer && |longer| == |run| + |ok| + 1
    ensures longer[|longer| - 1] == Sent(run[|run| - 1], s, ok)
  {
    var b := run[|run| - 1];
    var slots := ScanSteps(b, s, 0, ok);
    ScanSenders(b, s, 0, ok);
    hide Visit; hide Scan; hide Idle;
    var tail := slots[1..] + [Sent(b, s, ok)];
    longer := run + tail;
    forall i | 0 <= i < |longer| - 1 ensures Step(longer[i], longer[i + 1]) {
      if i < |run| - 1 {
        assert Step(run[i], run[i + 1]);
      } else {
        var k := i - (|run| - 1);
        assert longer[i] == slots[k];
        if k < |ok| {
          assert longer[i + 1] == slots[k + 1] && Slot(slots[k], s, ok[0 + k], slots[k + 1]);
        } else {
          assert Done(longer[i], s, longer[i + 1]);
        }
      }
    }
  }

  lemma {:induction false} ScanSenders(b: Bus, s: nat, i: nat, ok: seq<bool>)
    requires At(b, s, Scanning(i)) && i <= |b.listeners| == |ok|
    ensures At(Scan(b, s, i, ok), s, Scanning(|ok|))
    decreases |ok| - i
  {
    if i < |ok| { ScanSenders(Visit(b, s, i, ok[i]), s, i + 1, ok); }
  }

  const LISTENER := Listener(7, 1, false)
  const OTHER := Listener(8, 1, true)

  /** A bus with nothing going on, and a call that has just taken the lock. */
  function Quiet(listeners: seq<Option<Listener>>): Bus {
    Bus(false, None, None, listeners, [], [])
  }

  function Begun(listeners: seq<Option<Listener>>): Bus {
    Bus(true, None, None, listeners, [Sender(1, Scanning(0))], [])
  }

  lemma BeginRun(listeners: seq<Option<Listener>>) returns (run: seq<Bus>)
    ensures IsRun(run) && run[|run| - 1] == Begun(listeners)
  {
    var b0 := Quiet(listeners);
    var b1 := b0.(senders := [Sender(1, Calling)]);
    var b2 := Begun(listeners);
    assert Arrive(b0, 1, b1);
    assert Lock(b1, 0, b2);
    run := [b0, b1, b2];
  }

  /** From the quiet bus: one listener, a full process table, and the call is stuck. */
  lemma StuckRun() returns (run: seq<Bus>)
    ensures IsRun(run) && Stuck(run[|run| - 1]) && At(run[|run| - 1], 0, Waiting)
  {
    var t := [Some(LISTENER)];
    var begun := BeginRun(t);
    run := SentReached(begun, 0, [false]);
    hide Scan; hide Visit;
    BegunInv(t);
    OneMatchIff(Begun(t), 0, [false], 0);
    ScanResult(Begun(t), 0, 0, [false]);
  }

  lemma BegunInv(t: seq<Option<Listener>>)
    ensures Inv(Begun(t))
  {
    var b := Begun(t);
    assert forall x: nat, j: nat :: !StubOf(b, x, j, false);
    assert Owns(b, BySender(0));
    assert forall h :: Owns(b, h) ==> h == BySender(0);
  }

  /** From the quiet bus: two listeners, and the stub of the first copies the second. */
  lemma MixUpRun() returns (run: seq<Bus>)
    ensures IsRun(run)
    ensures var b := run[|run| - 1];
            |b.stubs| == 2 && b.stubs[0].wanted == LISTENER && b.stubs[0].phase == Captured(0, OTHER)
  {
    var t := [Some(LISTENER), Some(OTHER)];
    var ok := [true, true];
    var begun := BeginRun(t);
    var sent := SentReached(begun, 0, ok);
    var b := Sent(Begun(t), 0, ok);
    ScanResult(Begun(t), 0, 0, ok);
    assert Served(t, ok, 2, 1) == [] && LastMatch(t, 2, 1) == None;
    assert Served(t, ok, 1, 1) == [OTHER] && LastMatch(t, 1, 1) == Some(OTHER);
    assert Served(t, ok, 0, 1) == [LISTENER, OTHER] && LastMatch(t, 0, 1) == Some(OTHER);
    assert b.stubs == [Stub(0, LISTENER, Spawned), Stub(0, OTHER, Spawned)];
    hide Scan; hide Visit;
    var c := b.(stubs := b.stubs[0 := b.stubs[0].(phase := Captured(0, OTHER))]);
    assert Capture(b, 0, c);
    run := sent + [c];
    forall i | 0 <= i < |run| - 1 ensures Step(run[i], run[i + 1]) {
      if i < |sent| - 1 { assert Step(sent[i], sent[i + 1]); } else { assert run[i] == b && run[i + 1] == c; }
    }
  }

  // ---- Where the answer comes from ----------------------------------------------------------------------

  /** Creating the stub's process and adding it to the table, given the answers of malloc: it works
      exactly if they all do and the table has a free slot. */
  method SpawnStub(st: Scheduler.State, entry: nat, p: nat, name: nat, t: nat, stack: nat) returns (ok: bool)
    requires st.Valid() && p !in st.processes[..] && entry != 0
    modifies st`procs, st`lastPid, st.processes
    ensures st.Valid()
    ensures ok <==> p != 0 && name != 0 && t != 0 && stack != 0 && 0 in old(st.processes[..])
    ensures ok ==> p in st.processes[..] && st.procs[p].threads[0] == t
    ensures !ok ==> st.processes[..] == old(st.processes[..])
  {
    var r := st.CreateNewProcess(entry, p, name, t, stack);
    ghost var slot;
    var rc;
    rc, slot := st.AddProcess(r);
    ok := r != 0 && r in st.processes[..];
    if slot >= 0 { assert st.processes[slot] == p; }
  }
}
