/** Connections of the SSH client that reaches its target through a jump host. */
module JumpHost {
  import opened Options
  import opened Backoff

  datatype Conn = JumpConn(id: nat) | TargetConn(id: nat)

  datatype Event = Opened(conn: Conn) | Closed(conn: Conn)

  /** The connections open after a sequence of events; closing a closed one changes nothing. */
  function Live(events: seq<Event>): set<Conn> {
    if events == [] then {}
    else
      var e, before := events[|events| - 1], Live(events[..|events| - 1]);
      if e.Opened? then before + {e.conn} else before - {e.conn}
  }

  /** At most one connection to the jump host and one to the target. */
  predicate AtMostOnePair(s: set<Conn>) {
    forall c <- s, d <- s :: c.JumpConn? == d.JumpConn? ==> c == d
  }

  /** It held at every instant. */
  ghost predicate NeverMoreThanOnePair(events: seq<Event>) {
    forall k :: 0 <= k <= |events| ==> OnePairAt(events, k)
  }

  predicate OnePairAt(events: seq<Event>, k: nat)
    requires k <= |events|
  {
    AtMostOnePair(Live(events[..k]))
  }

  lemma LiveAfter(events: seq<Event>, e: Event)
    ensures Live(events + [e]) == if e.Opened? then Live(events) + {e.conn} else Live(events) - {e.conn}
  {
    assert (events + [e])[..|events|] == events;
  }

  lemma OnePairAfter(events: seq<Event>, e: Event)
    requires NeverMoreThanOnePair(events) && AtMostOnePair(Live(events + [e]))
    ensures NeverMoreThanOnePair(events + [e])
  {
    forall k | 0 <= k <= |events| + 1 ensures OnePairAt(events + [e], k) {
      if k <= |events| {
        assert OnePairAt(events, k);
        assert (events + [e])[..k] == events[..k];
      } else {
        assert (events + [e])[..k] == events + [e];
      }
    }
  }

  /** The waits made so far, and the next one, are those of the stepwise schedule. */
  predicate OnSchedule(waits: seq<int>, next: int) {
    && next == Stepwise(SSH_RETRY_INITIAL_DELAY, SSH_RETRY_MAX_DELAY, |waits|)
    && forall k :: 0 <= k < |waits| ==> waits[k] == Stepwise(SSH_RETRY_INITIAL_DELAY, SSH_RETRY_MAX_DELAY, k)
  }

  lemma ScheduleStep(waits: seq<int>, next: int)
    requires OnSchedule(waits, next)
    ensures OnSchedule(waits + [next], if 2 * next > SSH_RETRY_MAX_DELAY then SSH_RETRY_MAX_DELAY else 2 * next)
  {
  }

  /** How far one attempt of reconnect gets. */
  datatype Attempt =
    | ContextDone | ContextDoneWaiting
    | JumpConfigFails | JumpDialFails | TargetConfigFails | TargetDialFails | HandshakeFails
    | Connects

  /** The first k attempts neither connect nor see the context done; the first one does not wait. */
  predicate GoesOnUntil(attempts: nat -> Attempt, k: nat) {
    forall j: nat :: j < k ==>
      attempts(j) != Connects && attempts(j) != ContextDone && (j > 0 ==> attempts(j) != ContextDoneWaiting)
  }

  /** A reconnect with these attempts succeeds. */
  ghost predicate Reconnects(attempts: nat -> Attempt) {
    exists k :: 0 <= k < SSH_RETRY_COUNT && attempts(k) == Connects && GoesOnUntil(attempts, k)
  }

  /** The context is done when attempt k checks it, or while it waits. */
  predicate StopsAt(attempts: nat -> Attempt, k: nat) {
    attempts(k) == ContextDone || (k > 0 && attempts(k) == ContextDoneWaiting)
  }

  /** How the only jump dial of a new client, and each dial of its target, end. */
  datatype Dial = DialFails | ShakeFails | DialConnects

  /** How one pass of Exec goes: the session, the command, and the context. */
  datatype Pass =
    | DoneBefore
    | SessionBroken                 // a connection error
    | SessionRefused                // another error
    | CommandBroken(cancelled: bool)
    | CommandFails
    | CommandRuns(cancelled: bool)

  /** Passes 0..k each lost the connection, with the context not done, and got a new one. */
  ghost predicate Recovers(passes: nat -> Pass, attempts: nat -> (nat -> Attempt), k: nat) {
    forall j: nat :: j < k ==>
      (passes(j) == SessionBroken || passes(j) == CommandBroken(false)) && Reconnects(attempts(j))
  }

  class Client {
    var jump: Option<Conn>
    var target: Option<Conn>
    var nextId: nat
    var events: seq<Event>
    ghost var open: set<Conn>   // what the events leave open

    ghost predicate Tracked()
      reads this
    {
      open == Live(events) && NeverMoreThanOnePair(events)
    }

    /** Whatever is open is one of the two connections the client refers to. */
    ghost predicate Valid()
      reads this
    {
      && (jump.Some? ==> jump.value.JumpConn? && jump.value.id < nextId)
      && (target.Some? ==> target.value.TargetConn? && target.value.id < nextId)
      && (forall c <- open :: Some(c) == jump || Some(c) == target)
      && Tracked()
    }

    /** Both connections are open, and nothing else is. */
    ghost predicate Connected()
      reads this
    {
      jump.Some? && target.Some? && open == {jump.value, target.value}
    }

    constructor ()
      ensures Valid() && events == [] && jump.None? && target.None?
    {
      jump, target, nextId, events, open := None, None, 0, [], {};
    }

    method Open(isJump: bool) returns (c: Conn)
      requires Tracked() && forall d <- open :: d.JumpConn? != isJump
      modifies this`events, this`nextId, this`open
      ensures Tracked() && open == old(open) + {c} && events == old(events) + [Opened(c)]
      ensures c == (if isJump then JumpConn(old(nextId)) else TargetConn(old(nextId))) && nextId == old(nextId) + 1
    {
      c := if isJump then JumpConn(nextId) else TargetConn(nextId);
      LiveAfter(events, Opened(c));
      assert AtMostOnePair(Live(events)) by { assert OnePairAt(events, |events|) && events[..|events|] == events; }
      OnePairAfter(events, Opened(c));
      nextId, events, open := nextId + 1, events + [Opened(c)], open + {c};
    }

    method Close(c: Conn)
      requires Tracked()
      modifies this`events, this`open
      ensures Tracked() && open == old(open) - {c} && events == old(events) + [Closed(c)]
    {
      LiveAfter(events, Closed(c));
      assert AtMostOnePair(Live(events)) by { assert OnePairAt(events, |events|) && events[..|events|] == events; }
      OnePairAfter(events, Closed(c));
      events, open := events + [Closed(c)], open - {c};
    }

    method CloseBoth()
      requires Valid()
      modifies this`events, this`open
      ensures Valid() && open == {} && old(events) <= events
    {
      if target.Some? {
        Close(target.value);
      }
      if jump.Some? {
        Close(jump.value);
      }
      assert open == {};
    }

    /** The second half of an attempt, with the jump host connected. */
    method ConnectTarget(jumpClient: Conn, a: Attempt) returns (ok: bool)
      requires Tracked() && open == {jumpClient} && jumpClient.JumpConn? && jumpClient.id < nextId
      modifies this
      ensures Tracked() && nextId >= old(nextId) && old(events) <= events
      ensures ok <==> a != TargetConfigFails && a != TargetDialFails && a != HandshakeFails
      ensures ok ==> jump == Some(jumpClient) && target == Some(TargetConn(old(nextId))) && nextId == old(nextId) + 1
      ensures ok ==> open == {jumpClient, TargetConn(old(nextId))}
      ensures !ok ==> open == {} && jump == old(jump) && target == old(target)
    {
      if a == TargetConfigFails || a == TargetDialFails {
        Close(jumpClient);
        return false;
      }
      var targetConn := Open(false);
      if a == HandshakeFails {
        Close(targetConn);
        Close(jumpClient);
        return false;
      }
      jump, target := Some(jumpClient), Some(targetConn);
      return true;
    }

    /** One attempt: it connects, or it closes all it opened. */
    method Connect(a: Attempt) returns (ok: bool)
      requires Valid() && open == {}
      modifies this
      ensures Valid() && nextId >= old(nextId) && old(events) <= events
      ensures ok <==> a == Connects
      ensures ok ==> Connected() && old(nextId) <= jump.value.id && old(nextId) <= target.value.id
      ensures !ok ==> open == {} && jump == old(jump) && target == old(target)
    {
      if a == JumpConfigFails || a == JumpDialFails || a == ContextDone || a == ContextDoneWaiting {
        return false;
      }
      var jumpClient := Open(true);
      ok := ConnectTarget(jumpClient, a);
    }

    /**
     Success leaves exactly one new pair open, failure leaves nothing open, and at no instant is more
     than one pair open; the waits are those of the stepwise schedule.
     */
    method Reconnect(attempts: nat -> Attempt) returns (ok: bool, waits: seq<int>)
      requires Valid()
      modifies this
      ensures Valid() && old(events) <= events && nextId >= old(nextId)
      ensures ok ==> Connected() && old(nextId) <= jump.value.id && old(nextId) <= target.value.id
      ensures !ok ==> open == {}
      ensures ok <==> Reconnects(attempts)
      ensures ok ==> |waits| < 10 && attempts(|waits|) == Connects && GoesOnUntil(attempts, |waits|)
      ensures !ok ==>
                || (|waits| == 9 && GoesOnUntil(attempts, 10))
                || exists k :: 0 <= k < 10 && GoesOnUntil(attempts, k) && StopsAt(attempts, k) && |waits| == if k == 0 then 0 else k - 1
      ensures OnSchedule(waits, Stepwise(SSH_RETRY_INITIAL_DELAY, SSH_RETRY_MAX_DELAY, |waits|))
    {
      waits := [];
      CloseBoth();
      var retryDelay: int := SSH_RETRY_INITIAL_DELAY;
      for attempt := 0 to SSH_RETRY_COUNT
        invariant Valid() && open == {} && old(events) <= events && nextId >= old(nextId)
        invariant GoesOnUntil(attempts, attempt)
        invariant |waits| == if attempt == 0 then 0 else attempt - 1
        invariant OnSchedule(waits, retryDelay)
      {
        var a := attempts(attempt);
        if a.ContextDone? {
          return false, waits;
        }
        if attempt > 0 {
          if a.ContextDoneWaiting? {
            return false, waits;
          }
          ScheduleStep(waits, retryDelay);
          waits := waits + [retryDelay];
          retryDelay := 2 * retryDelay;
          if retryDelay > SSH_RETRY_MAX_DELAY {
            retryDelay := SSH_RETRY_MAX_DELAY;
          }
        }
        ok := Connect(a);
        if ok {
          return;
        }
      }
      return false, waits;
    }

    /** A run of Exec keeps the client valid: at no instant does it own more than one pair. */
    method Exec(passes: nat -> Pass, attempts: nat -> (nat -> Attempt)) returns (ok: bool, sessions: nat)
      requires Valid()
      modifies this
      ensures Valid() && old(events) <= events
      ensures Connected() || open == {} || events == old(events)
      ensures sessions <= SSH_RETRY_COUNT
      ensures ok <==> exists k :: 0 <= k < SSH_RETRY_COUNT && passes(k) == CommandRuns(false) && Recovers(passes, attempts, k)
      ensures ok ==> sessions > 0 && passes(sessions - 1) == CommandRuns(false)
      ensures sessions > 0 ==> Recovers(passes, attempts, sessions - 1)
    {
      sessions := 0;
      for attempt := 0 to SSH_RETRY_COUNT
        invariant Valid() && old(events) <= events
        invariant Connected() || events == old(events)
        invariant sessions == attempt && Recovers(passes, attempts, attempt)
      {
        var pass := passes(attempt);
        if pass == DoneBefore {
          return false, sessions;
        }
        sessions := sessions + 1;
        if pass == SessionRefused || pass == CommandFails || pass == CommandBroken(true) || pass == CommandRuns(true) {
          return false, sessions;
        }
        if pass == CommandRuns(false) {
          return true, sessions;
        }
        var reconnected, _ := Reconnect(attempts(attempt));
        if !reconnected {
          return false, sessions;
        }
      }
      ok := false;
    }

    /** A new client: the jump host once, the target with retries. */
    method NewClientWithJumpHost(jumpConfigFails: bool, jumpDialFails: bool, targetConfigFails: bool, dials: nat -> Dial)
      returns (ok: bool, waits: seq<int>)
      requires Valid() && events == [] && jump.None? && target.None?
      modifies this
      ensures Valid()
      ensures ok ==> Connected()
      ensures !ok ==> open == {}
      ensures ok <==> !jumpConfigFails && !jumpDialFails && !targetConfigFails &&
                        exists k :: 0 <= k < SSH_RETRY_COUNT && dials(k) == DialConnects
      ensures |waits| < SSH_RETRY_COUNT && forall j :: 0 <= j < |waits| ==> dials(j) != DialConnects
      ensures ok ==> dials(|waits|) == DialConnects
      ensures !ok ==> |waits| == if jumpConfigFails || jumpDialFails || targetConfigFails then 0 else SSH_RETRY_COUNT - 1
      ensures OnSchedule(waits, Stepwise(SSH_RETRY_INITIAL_DELAY, SSH_RETRY_MAX_DELAY, |waits|))
    {
      waits := [];
      if jumpConfigFails || jumpDialFails {
        return false, waits;
      }
      var jumpClient := Open(true);
      if targetConfigFails {
        Close(jumpClient);
        return false, waits;
      }
      var retryDelay: int := SSH_RETRY_INITIAL_DELAY;
      for attempt := 0 to SSH_RETRY_COUNT
        invariant open == {jumpClient} && Tracked()
        invariant jumpClient.JumpConn? && jumpClient.id < nextId
        invariant jump.None? && target.None?
        invariant forall j :: 0 <= j < attempt ==> dials(j) != DialConnects
        invariant |waits| == if attempt == 0 then 0 else attempt - 1
        invariant OnSchedule(waits, retryDelay)
      {
        if attempt > 0 {
          ScheduleStep(waits, retryDelay);
          waits := waits + [retryDelay];
          retryDelay := 2 * retryDelay;
          if retryDelay > SSH_RETRY_MAX_DELAY {
            retryDelay := SSH_RETRY_MAX_DELAY;
          }
        }
        if dials(attempt) != DialFails {
          var targetConn := Open(false);
          if dials(attempt) == DialConnects {
            jump, target := Some(jumpClient), Some(targetConn);
            return true, waits;
          }
          Close(targetConn);
        }
      }
      Close(jumpClient);
      return false, waits;
    }
  }
}
