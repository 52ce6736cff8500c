/**
 * lock_dbg_cb: a checker that watches every lock and unlock call of a program
 * with one thread and complains about those that do not pair up.
 */
module LockTrace {
  import opened Options

  const CRYPTO_LOCK: bv32 := 1
  const CRYPTO_UNLOCK: bv32 := 2
  const CRYPTO_READ: bv32 := 4
  const CRYPTO_WRITE: bv32 := 8
  const CRYPTO_NUM_LOCKS: nat := 41

  datatype Call = Call(mode: bv32, kind: int)

  datatype Complaint = InvalidMode | TypeOutOfBounds | AlreadyLocked | NotLocked | WrongUnlock

  function Access(mode: bv32): bv32 {
    mode & (CRYPTO_READ | CRYPTO_WRITE)
  }

  // ----- what a correct program does -----

  datatype Event = Lock(access: bv32) | Unlock(access: bv32)

  predicate WellFormed(call: Call) {
    && (Access(call.mode) == CRYPTO_READ || Access(call.mode) == CRYPTO_WRITE)
    && 0 <= call.kind < CRYPTO_NUM_LOCKS
    && (call.mode & CRYPTO_LOCK != 0 || call.mode & CRYPTO_UNLOCK != 0)
  }

  /** A call that asks for both counts as a lock. */
  function EventOf(call: Call): Event {
    if call.mode & CRYPTO_LOCK != 0 then Lock(Access(call.mode)) else Unlock(Access(call.mode))
  }

  /** The events of one lock. */
  function Projected(calls: seq<Call>, kind: int): seq<Event> {
    if calls == [] then [] else
      var n := |calls| - 1;
      Projected(calls[..n], kind) + if calls[n].kind == kind then [EventOf(calls[n])] else []
  }

  /** Lock, unlock of the same access, lock, and so on. */
  ghost predicate Alternates(events: seq<Event>) {
    forall i :: 0 <= i < |events| ==> InTurn(events, i)
  }

  predicate InTurn(events: seq<Event>, i: nat)
    requires i < |events|
  {
    if i % 2 == 0 then events[i].Lock? else events[i] == Unlock(events[i - 1].access)
  }

  ghost predicate Disciplined(calls: seq<Call>) {
    && (forall i :: 0 <= i < |calls| ==> WellFormed(calls[i]))
    && forall kind :: 0 <= kind < CRYPTO_NUM_LOCKS ==> Alternates(Projected(calls, kind))
  }

  // ----- the checker -----

  /** What a call changes in modes[] and what is said about it. */
  function Check(modes: seq<bv32>, call: Call): (seq<bv32>, Option<Complaint>)
    requires |modes| == CRYPTO_NUM_LOCKS
  {
    var rw := Access(call.mode);
    if rw != CRYPTO_READ && rw != CRYPTO_WRITE then (modes, Some(InvalidMode))
    else if call.kind < 0 || call.kind >= CRYPTO_NUM_LOCKS then (modes, Some(TypeOutOfBounds))
    else if call.mode & CRYPTO_LOCK != 0 then
      if modes[call.kind] != 0 then (modes, Some(AlreadyLocked)) else (modes[call.kind := rw], None)
    else if call.mode & CRYPTO_UNLOCK != 0 then
      if modes[call.kind] == 0 then (modes, Some(NotLocked))
      else (modes[call.kind := 0], if modes[call.kind] != rw then Some(WrongUnlock) else None)
    else (modes, Some(InvalidMode))
  }

  /** Each lock is free, or held for reading or for writing. */
  predicate ModesOk(modes: seq<bv32>) {
    |modes| == CRYPTO_NUM_LOCKS && forall k :: 0 <= k < |modes| ==> modes[k] in {0, CRYPTO_READ, CRYPTO_WRITE}
  }

  class Checker {
    var modes: array<bv32>

    ghost predicate Valid()
      reads this, modes
    {
      ModesOk(modes[..])
    }

    constructor ()
      ensures Valid() && fresh(modes)
      ensures modes[..] == seq(CRYPTO_NUM_LOCKS, _ => 0)
    {
      modes := new bv32[CRYPTO_NUM_LOCKS](_ => 0);
    }

    method LockDbgCb(call: Call) returns (errstr: Option<Complaint>)
      requires Valid()
      modifies modes
      ensures Valid()
      ensures (modes[..], errstr) == Check(old(modes[..]), call)
    {
      errstr := None;
      var rw := Access(call.mode);
      if !(rw == CRYPTO_READ || rw == CRYPTO_WRITE) {
        return Some(InvalidMode);
      }
      if call.kind < 0 || call.kind >= CRYPTO_NUM_LOCKS {
        return Some(TypeOutOfBounds);
      }
      if call.mode & CRYPTO_LOCK != 0 {
        if modes[call.kind] != 0 {
          return Some(AlreadyLocked);
        }
        modes[call.kind] := rw;
      } else if call.mode & CRYPTO_UNLOCK != 0 {
        if modes[call.kind] == 0 {
          return Some(NotLocked);
        }
        if modes[call.kind] != rw {
          errstr := Some(WrongUnlock);
        }
        modes[call.kind] := 0;
      } else {
        errstr := Some(InvalidMode);
      }
    }
  }

  /** The state after a run, and whether it passed in silence. */
  function Watch(calls: seq<Call>): (r: (seq<bv32>, bool))
    ensures |r.0| == CRYPTO_NUM_LOCKS
  {
    if calls == [] then (seq(CRYPTO_NUM_LOCKS, _ => 0), true) else
      var (modes, silent) := Watch(calls[..|calls| - 1]);
      var (modes', complaint) := Check(modes, calls[|calls| - 1]);
      (modes', silent && complaint.None?)
  }

  /** Over any run whatever, modes[] holds 0, READ or WRITE. */
  lemma {:induction false} ModesStayOk(calls: seq<Call>)
    ensures ModesOk(Watch(calls).0)
  {
    if calls != [] {
      ModesStayOk(calls[..|calls| - 1]);
    }
  }

  /** After a silent run, a lock is held exactly when its last event locked it, and for that access. */
  ghost predicate Mirrors(mode: bv32, events: seq<Event>) {
    if |events| % 2 == 0 then mode == 0 else mode == events[|events| - 1].access != 0
  }

  lemma AlternatesNext(events: seq<Event>, e: Event)
    requires Alternates(events)
    ensures Alternates(events + [e]) <==>
              if |events| % 2 == 0 then e.Lock? else e == Unlock(events[|events| - 1].access)
  {
    var next := events + [e];
    assert forall i :: 0 <= i < |events| ==> InTurn(next, i) == InTurn(events, i);
    assert InTurn(next, |events|) == if |events| % 2 == 0 then e.Lock? else e == Unlock(events[|events| - 1].access);
  }

  lemma AlternatesPrefix(events: seq<Event>, e: Event)
    requires Alternates(events + [e])
    ensures Alternates(events)
  {
    var next := events + [e];
    assert forall i :: 0 <= i < |events| ==> InTurn(next, i) == InTurn(events, i);
  }

  ghost predicate InStep(modes: seq<bv32>, calls: seq<Call>) {
    && |modes| == CRYPTO_NUM_LOCKS
    && forall kind :: 0 <= kind < CRYPTO_NUM_LOCKS ==>
         Alternates(Projected(calls, kind)) && Mirrors(modes[kind], Projected(calls, kind))
  }

  lemma ProjectedNext(calls: seq<Call>, call: Call, kind: int)
    ensures Projected(calls + [call], kind) ==
              Projected(calls, kind) + if call.kind == kind then [EventOf(call)] else []
  {
    assert (calls + [call])[..|calls|] == calls;
  }

  /** The next call is passed over in silence exactly when it keeps the discipline. */
  lemma CheckNext(modes: seq<bv32>, calls: seq<Call>, call: Call)
    requires InStep(modes, calls) && ModesOk(modes)
    ensures var (modes', complaint) := Check(modes, call);
            && (complaint.None? <==> WellFormed(call) && Alternates(Projected(calls + [call], call.kind)))
            && (complaint.None? ==> InStep(modes', calls + [call]))
  {
    hide Access;
    var events, e := Projected(calls, call.kind), EventOf(call);
    ProjectedNext(calls, call, call.kind);
    if WellFormed(call) {
      AlternatesNext(events, e);
      assert Mirrors(modes[call.kind], events);
      forall kind | 0 <= kind < CRYPTO_NUM_LOCKS && kind != call.kind
        ensures Projected(calls + [call], kind) == Projected(calls, kind)
      {
        ProjectedNext(calls, call, kind);
        assert Projected(calls, kind) + [] == Projected(calls, kind);
      }
    }
  }

  /**
   * The checker says nothing over a run exactly when every call is well formed
   * and each lock is locked and unlocked in strict alternation.
   */
  lemma {:induction false} SilentIffDisciplined(calls: seq<Call>)
    ensures Watch(calls).1 <==> Disciplined(calls)
    ensures Watch(calls).1 ==> InStep(Watch(calls).0, calls)
  {
    if calls != [] {
      var front, call := calls[..|calls| - 1], calls[|calls| - 1];
      assert calls == front + [call];
      SilentIffDisciplined(front);
      ModesStayOk(front);
      if Disciplined(calls) {
        DisciplinedPrefix(front, call);
      }
      if Watch(front).1 {
        CheckNext(Watch(front).0, front, call);
        if Watch(calls).1 {
          assert forall i :: 0 <= i < |front| ==> calls[i] == front[i];
        }
      }
    }
  }

  lemma DisciplinedPrefix(front: seq<Call>, call: Call)
    requires Disciplined(front + [call])
    ensures Disciplined(front)
  {
    var calls := front + [call];
    assert forall i :: 0 <= i < |front| ==> calls[i] == front[i];
    forall kind | 0 <= kind < CRYPTO_NUM_LOCKS ensures Alternates(Projected(front, kind)) {
      ProjectedNext(front, call, kind);
      if call.kind == kind {
        AlternatesPrefix(Projected(front, kind), EventOf(call));
      } else {
        assert Projected(front, kind) + [] == Projected(front, kind);
      }
    }
  }

  // ----- every run, silent or not -----

  /** The well-formed calls on one lock. */
  function CallsOn(calls: seq<Call>, kind: int): seq<Event> {
    if calls == [] then [] else
      var n := |calls| - 1;
      CallsOn(calls[..n], kind) +
      if calls[n].kind == kind && WellFormed(calls[n]) then [EventOf(calls[n])] else []
  }

  /** Since the last unlock of these, if any, nothing but locks, `since` of them. */
  ghost predicate LocksSince(events: seq<Event>, since: nat) {
    && since <= |events|
    && (since < |events| ==> events[|events| - since - 1].Unlock?)
    && forall i :: |events| - since <= i < |events| ==> events[i].Lock?
  }

  /** A lock is held for the access of the first call that locked it since it was last unlocked. */
  ghost predicate HeldSince(mode: bv32, events: seq<Event>, since: nat) {
    LocksSince(events, since) && mode == if since == 0 then 0 else events[|events| - since].access
  }

  lemma {:induction false} CallsOnAccess(calls: seq<Call>, kind: int)
    ensures forall e <- CallsOn(calls, kind) :: e.access == CRYPTO_READ || e.access == CRYPTO_WRITE
  {
    if calls != [] {
      CallsOnAccess(calls[..|calls| - 1], kind);
    }
  }

  /**
   * Over any run whatever, modes[] says of each lock whether and for what it is
   * held; complaints about other calls make no difference.
   */
  lemma {:induction false} ModesSayHeld(calls: seq<Call>, kind: int) returns (since: nat)
    requires 0 <= kind < CRYPTO_NUM_LOCKS
    ensures HeldSince(Watch(calls).0[kind], CallsOn(calls, kind), since)
  {
    since := 0;
    if calls != [] {
      hide WellFormed, Check;
      var n := |calls| - 1;
      var front, call := calls[..n], calls[n];
      since := ModesSayHeld(front, kind);
      var modes, events := Watch(front).0, CallsOn(front, kind);
      CallsOnAccess(front, kind);
      CheckOne(modes, call, kind);
      if call.kind == kind && WellFormed(call) {
        since := HeldNext(modes[kind], events, since, EventOf(call));
      } else {
        assert events + [] == events;
      }
    }
  }

  /** What one call does to one lock. */
  lemma CheckOne(modes: seq<bv32>, call: Call, kind: int)
    requires |modes| == CRYPTO_NUM_LOCKS && 0 <= kind < CRYPTO_NUM_LOCKS
    ensures var next := Check(modes, call).0;
            && |next| == CRYPTO_NUM_LOCKS
            && next[kind] ==
                 if call.kind != kind || !WellFormed(call) then modes[kind]
                 else if EventOf(call).Unlock? then 0
                 else if modes[kind] != 0 then modes[kind]
                 else EventOf(call).access
  {
    hide Access;
    if WellFormed(call) {
      assert call.mode & CRYPTO_LOCK != 0 ==> EventOf(call) == Lock(Access(call.mode));
      assert call.mode & CRYPTO_LOCK == 0 ==> EventOf(call) == Unlock(Access(call.mode));
    } else {
      assert Check(modes, call).0 == modes;
    }
  }

  lemma HeldNext(mode: bv32, events: seq<Event>, since: nat, e: Event) returns (since': nat)
    requires HeldSince(mode, events, since)
    requires forall o <- events :: o.access == CRYPTO_READ || o.access == CRYPTO_WRITE
    ensures HeldSince(if e.Unlock? then 0 else if mode != 0 then mode else e.access, events + [e], since')
  {
    var next := events + [e];
    since' := if e.Unlock? then 0 else since + 1;
    if since > 0 {
      assert events[|events| - since] in events;
    }
    assert forall i :: 0 <= i < |events| ==> next[i] == events[i];
  }

  /** Over any run, the next complaint: what is wrong with the call, or how it disagrees with the lock's state. */
  lemma ComplaintIff(calls: seq<Call>, call: Call)
    ensures var modes, rw := Watch(calls).0, Access(call.mode);
            var complaint := Check(modes, call).1;
            var known := rw == CRYPTO_READ || rw == CRYPTO_WRITE;
            var inRange := 0 <= call.kind < CRYPTO_NUM_LOCKS;
            && (complaint == Some(InvalidMode) <==>
                  !known || (inRange && call.mode & CRYPTO_LOCK == 0 && call.mode & CRYPTO_UNLOCK == 0))
            && (complaint == Some(TypeOutOfBounds) <==> known && !inRange)
            && (complaint == Some(AlreadyLocked) <==>
                  known && inRange && call.mode & CRYPTO_LOCK != 0 && modes[call.kind] != 0)
            && (complaint == Some(NotLocked) <==>
                  && known && inRange && call.mode & CRYPTO_LOCK == 0 && call.mode & CRYPTO_UNLOCK != 0
                  && modes[call.kind] == 0)
            && (complaint == Some(WrongUnlock) <==>
                  && known && inRange && call.mode & CRYPTO_LOCK == 0 && call.mode & CRYPTO_UNLOCK != 0
                  && modes[call.kind] != 0 && modes[call.kind] != rw)
  {
  }
}
