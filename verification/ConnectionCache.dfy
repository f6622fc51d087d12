/**
 The open-connection cache of api/connections.py as a protocol: accesses that may dial,
 timers that close idle connections, clears, and remembered failures.
 */
module ConnectionCache {
  import opened Common

  type Key = string
  type Conn = nat
  type Handle = nat

  const CONNECTION_CLEANUP_SEC: real := 600.0

  datatype Exception = Exception(message: string)

  /** How build_connection can end: a connection, an Exception, or something that is
      not an Exception, such as an interrupt. */
  datatype Dial = Connects | Fails(error: Exception) | Interrupted(error: Exception)

  /** How _cleanup ends: the KeyError of a key that is not cached, or the call of close(),
      which may raise. */
  datatype Cleaned = NotCached | CloseCalled(raised: Option<Exception>)

  datatype Access = Returned(conn: Conn) | Raised(error: Exception)

  /** A call_later entry of the event loop. */
  datatype Timer = Timer(key: Key, when: real)

  // ------------------------------------------------------------- run history

  datatype Event =
    | Opened(key: Key, conn: Conn)
    | DialFailed(key: Key)
    | DialInterrupted(key: Key)
    | Accessed(key: Key, conn: Conn, time: real, withLoop: bool)
    | Closed(key: Key, conn: Conn, time: real, byTimer: bool)
    | FailuresForgotten

  predicate IsDial(e: Event) { e.Opened? || e.DialFailed? || e.DialInterrupted? }

  /** Keys whose dialling has failed since failures were last forgotten. */
  function FailedKeys(log: seq<Event>): set<Key> {
    if log == [] then {}
    else
      var n := |log| - 1;
      if log[n].DialFailed? then FailedKeys(log[..n]) + {log[n].key}
      else if log[n].FailuresForgotten? then {}
      else FailedKeys(log[..n])
  }

  function OpenedConns(log: seq<Event>): set<Conn> {
    set i | 0 <= i < |log| && log[i].Opened? :: log[i].conn
  }

  function CloseCount(log: seq<Event>, c: Conn): nat {
    if log == [] then 0
    else
      var n := |log| - 1;
      CloseCount(log[..n], c) + (if log[n].Closed? && log[n].conn == c then 1 else 0)
  }

  lemma LogAppend(log: seq<Event>, e: Event)
    ensures FailedKeys(log + [e]) == if e.DialFailed? then FailedKeys(log) + {e.key}
                                     else if e.FailuresForgotten? then {} else FailedKeys(log)
    ensures OpenedConns(log + [e]) == OpenedConns(log) + (if e.Opened? then {e.conn} else {})
    ensures forall c :: CloseCount(log + [e], c) == CloseCount(log, c) + (if e.Closed? && e.conn == c then 1 else 0)
  {
    assert (log + [e])[..|log|] == log;
    assert forall i :: 0 <= i < |log| ==> (log + [e])[i] == log[i];
    if e.Opened? { assert (log + [e])[|log|] == e; }
  }

  // --------------------------------------------------------------- invariant

  /** The cache, its event loop and the history of the run, as one value. */
  datatype State = State(
    connections: map<Key, Conn>,
    cleanupFutures: map<Key, Handle>,
    failures: map<Key, Exception>,
    pending: map<Handle, Timer>,
    nextHandle: Handle,
    nextConn: Conn,
    now: real,
    log: seq<Event>)

  /** No key is dialled again after it failed, until failures are forgotten. */
  ghost predicate NeverRedials(log: seq<Event>) {
    forall j :: 0 <= j < |log| && IsDial(log[j]) ==> log[j].key !in FailedKeys(log[..j])
  }

  /** The access at `i` could set a timer for connection `c`. */
  predicate SetsTimer(e: Event, c: Conn) { e.Accessed? && e.withLoop && e.conn == c }

  /** A timer closes a connection no earlier than ten minutes after any access of it
      that could reach the event loop. */
  ghost predicate IdleBound(log: seq<Event>) {
    forall i, j :: 0 <= i < j < |log| && log[j].Closed? && log[j].byTimer && SetsTimer(log[i], log[j].conn)
      ==> log[j].time >= log[i].time + CONNECTION_CLEANUP_SEC
  }

  ghost predicate FailuresRecorded(s: State) {
    s.connections.Keys !! s.failures.Keys && s.failures.Keys == FailedKeys(s.log)
  }

  /** Timers and cached connections match: every live timer is the one recorded for its
      key, and its key is cached. */
  ghost predicate TimersMatch(s: State) {
    && s.cleanupFutures.Keys <= s.connections.Keys
    && (forall k :: k in s.cleanupFutures ==>
          s.cleanupFutures[k] in s.pending && s.pending[s.cleanupFutures[k]].key == k)
    && (forall h :: h in s.pending ==>
          h < s.nextHandle && s.pending[h].key in s.cleanupFutures && s.cleanupFutures[s.pending[h].key] == h)
  }

  /** Every connection ever opened is cached under one key, or has had close() called exactly
      once. */
  ghost predicate ConnsAccounted(s: State) {
    && (forall c :: c in OpenedConns(s.log) ==> c < s.nextConn)
    && (forall k :: k in s.connections ==> s.connections[k] in OpenedConns(s.log))
    && (forall k, k' :: k in s.connections && k' in s.connections && s.connections[k] == s.connections[k'] ==> k == k')
    && (forall c :: CloseCount(s.log, c) == if c in OpenedConns(s.log) && c !in s.connections.Values then 1 else 0)
  }

  /** A live timer is due ten minutes after the last access that could set it. */
  ghost predicate TimersLate(s: State) {
    && (forall i, k :: 0 <= i < |s.log| && k in s.cleanupFutures && k in s.connections
          && s.cleanupFutures[k] in s.pending && SetsTimer(s.log[i], s.connections[k])
          ==> s.pending[s.cleanupFutures[k]].when >= s.log[i].time + CONNECTION_CLEANUP_SEC)
    && (forall i :: 0 <= i < |s.log| && s.log[i].Accessed? ==> s.log[i].time <= s.now && s.log[i].conn < s.nextConn)
  }

  ghost predicate Inv(s: State) {
    && FailuresRecorded(s) && TimersMatch(s) && ConnsAccounted(s) && TimersLate(s)
    && NeverRedials(s.log) && IdleBound(s.log)
  }

  // ------------------------------------------------------------------- steps

  function AfterOpen(s: State, key: Key): State {
    s.(connections := s.connections[key := s.nextConn], nextConn := s.nextConn + 1,
       log := s.log + [Opened(key, s.nextConn)])
  }

  function AfterDialFailed(s: State, key: Key, e: Exception): State {
    s.(failures := s.failures[key := e], log := s.log + [DialFailed(key)])
  }

  function AfterDialInterrupted(s: State, key: Key): State {
    s.(log := s.log + [DialInterrupted(key)])
  }

  /** Extending the lifetime of a cached connection: its timer, if any, is replaced. */
  function AfterTouch(s: State, key: Key, withLoop: bool): State
    requires key in s.connections
  {
    var log := s.log + [Accessed(key, s.connections[key], s.now, withLoop)];
    if withLoop then
      var live := if key in s.cleanupFutures then s.pending - {s.cleanupFutures[key]} else s.pending;
      s.(cleanupFutures := s.cleanupFutures[key := s.nextHandle],
         pending := live[s.nextHandle := Timer(key, s.now + CONNECTION_CLEANUP_SEC)],
         nextHandle := s.nextHandle + 1, log := log)
    else s.(log := log)
  }

  /** Dropping a cached connection together with its timer, and calling close(). */
  function AfterCleanup(s: State, key: Key, byTimer: bool): State
    requires key in s.connections
  {
    s.(connections := s.connections - {key}, cleanupFutures := s.cleanupFutures - {key},
       pending := if key in s.cleanupFutures then s.pending - {s.cleanupFutures[key]} else s.pending,
       log := s.log + [Closed(key, s.connections[key], s.now, byTimer)])
  }

  function AfterForget(s: State): State {
    s.(failures := map[], log := s.log + [FailuresForgotten])
  }

  lemma LogIndex(log: seq<Event>, e: Event)
    ensures forall i :: 0 <= i < |log| ==> (log + [e])[i] == log[i]
    ensures forall i :: 0 <= i <= |log| ==> (log + [e])[..i] == log[..i]
  {
  }

  lemma NeverRedialsAppend(log: seq<Event>, e: Event)
    requires NeverRedials(log) && (IsDial(e) ==> e.key !in FailedKeys(log))
    ensures NeverRedials(log + [e])
  {
    LogIndex(log, e);
    assert log[..|log|] == log;
    forall j | 0 <= j < |log + [e]| && IsDial((log + [e])[j])
      ensures (log + [e])[j].key !in FailedKeys((log + [e])[..j])
    {
      assert (log + [e])[..j] == log[..j];
    }
  }

  lemma IdleBoundAppend(log: seq<Event>, e: Event)
    requires IdleBound(log)
    requires e.Closed? && e.byTimer ==>
      forall i :: 0 <= i < |log| && SetsTimer(log[i], e.conn) ==> e.time >= log[i].time + CONNECTION_CLEANUP_SEC
    ensures IdleBound(log + [e])
  {
    LogIndex(log, e);
  }

  // What one more event does to each part of the invariant.

  lemma HistoryAppend(log: seq<Event>, e: Event)
    requires NeverRedials(log) && IdleBound(log)
    requires IsDial(e) ==> e.key !in FailedKeys(log)
    requires e.Closed? && e.byTimer ==>
      forall i :: 0 <= i < |log| && SetsTimer(log[i], e.conn) ==> e.time >= log[i].time + CONNECTION_CLEANUP_SEC
    ensures NeverRedials(log + [e]) && IdleBound(log + [e])
  {
    NeverRedialsAppend(log, e);
    IdleBoundAppend(log, e);
  }

  lemma AccountKept(s: State, t: State, e: Event)
    requires ConnsAccounted(s) && !e.Opened? && !e.Closed?
    requires t.connections == s.connections && t.nextConn == s.nextConn && t.log == s.log + [e]
    ensures ConnsAccounted(t)
  {
    LogAppend(s.log, e);
  }

  lemma AccountOpen(s: State, key: Key)
    requires ConnsAccounted(s) && key !in s.connections
    ensures ConnsAccounted(AfterOpen(s, key))
  {
    var c := s.nextConn;
    var t := AfterOpen(s, key);
    LogAppend(s.log, Opened(key, c));
    ValuesExtended(s.connections, key, c);
    assert c !in OpenedConns(s.log);
    forall d
      ensures CloseCount(t.log, d) == if d in OpenedConns(t.log) && d !in t.connections.Values then 1 else 0
    {
      assert CloseCount(t.log, d) == CloseCount(s.log, d);
    }
  }

  lemma ValuesExtended(connections: map<Key, Conn>, key: Key, c: Conn)
    requires key !in connections
    ensures connections[key := c].Values == connections.Values + {c}
  {
    var t := connections[key := c];
    assert t[key] == c;
    forall d | d in connections.Values
      ensures d in t.Values
    {
      var k :| k in connections && connections[k] == d;
      assert t[k] == d;
    }
  }

  lemma AccountClose(s: State, key: Key, byTimer: bool)
    requires ConnsAccounted(s) && key in s.connections
    ensures ConnsAccounted(AfterCleanup(s, key, byTimer))
  {
    var c := s.connections[key];
    var t := AfterCleanup(s, key, byTimer);
    LogAppend(s.log, Closed(key, c, s.now, byTimer));
    assert t.connections.Values == s.connections.Values - {c} by {
      forall d | d in s.connections.Values && d != c
        ensures d in t.connections.Values
      {
        var k :| k in s.connections && s.connections[k] == d;
        assert k in t.connections && t.connections[k] == d;
      }
    }
  }

  lemma LateKept(s: State, t: State, e: Event)
    requires TimersLate(s) && !e.Accessed?
    requires t.log == s.log + [e] && t.now >= s.now && t.nextConn >= s.nextConn
    requires forall k :: k in t.cleanupFutures && k in t.connections && t.cleanupFutures[k] in t.pending ==>
      && k in s.cleanupFutures && k in s.connections && s.connections[k] == t.connections[k]
      && s.cleanupFutures[k] == t.cleanupFutures[k] && s.cleanupFutures[k] in s.pending
      && s.pending[s.cleanupFutures[k]] == t.pending[t.cleanupFutures[k]]
    ensures TimersLate(t)
  {
    LogIndex(s.log, e);
  }

  lemma LateTouch(s: State, key: Key, withLoop: bool)
    requires TimersLate(s) && TimersMatch(s) && key in s.connections && s.connections[key] < s.nextConn
    requires forall k :: k in s.connections && s.connections[k] == s.connections[key] ==> k == key
    ensures TimersLate(AfterTouch(s, key, withLoop))
  {
    var e := Accessed(key, s.connections[key], s.now, withLoop);
    var t := AfterTouch(s, key, withLoop);
    LogIndex(s.log, e);
    forall i, k | 0 <= i < |t.log| && k in t.cleanupFutures && k in t.connections && t.cleanupFutures[k] in t.pending
                  && SetsTimer(t.log[i], t.connections[k])
      ensures t.pending[t.cleanupFutures[k]].when >= t.log[i].time + CONNECTION_CLEANUP_SEC
    {
      if i == |s.log| {
        assert k == key;
      } else if k != key || !withLoop {
        assert t.cleanupFutures[k] == s.cleanupFutures[k];
      }
    }
  }

  lemma MatchTouch(s: State, key: Key, withLoop: bool)
    requires TimersMatch(s) && key in s.connections
    ensures TimersMatch(AfterTouch(s, key, withLoop))
  {
  }

  lemma MatchCleanup(s: State, key: Key, byTimer: bool)
    requires TimersMatch(s) && key in s.connections
    ensures TimersMatch(AfterCleanup(s, key, byTimer))
  {
  }

  // Every step keeps the invariant.

  lemma OpenKeepsInv(s: State, key: Key)
    requires Inv(s) && key !in s.connections && key !in s.failures
    ensures Inv(AfterOpen(s, key))
  {
    var t := AfterOpen(s, key);
    assert NeverRedials(t.log) && IdleBound(t.log) by { HistoryAppend(s.log, Opened(key, s.nextConn)); }
    assert ConnsAccounted(t) by { AccountOpen(s, key); }
    assert TimersLate(t) by { LateKept(s, t, Opened(key, s.nextConn)); }
    assert FailuresRecorded(t) by { RecordedOpen(s, key); }
    assert TimersMatch(t) by { MatchKept(s, t); }
  }

  lemma RecordedOpen(s: State, key: Key)
    requires FailuresRecorded(s) && key !in s.failures
    ensures FailuresRecorded(AfterOpen(s, key))
  {
    LogAppend(s.log, Opened(key, s.nextConn));
  }

  /** Timers go on matching while no connection is dropped and no timer changes. */
  lemma MatchKept(s: State, t: State)
    requires TimersMatch(s) && s.connections.Keys <= t.connections.Keys
    requires t.cleanupFutures == s.cleanupFutures && t.pending == s.pending && t.nextHandle == s.nextHandle
    ensures TimersMatch(t)
  {
  }

  lemma RecordedFailure(s: State, key: Key, err: Exception)
    requires FailuresRecorded(s) && key !in s.connections
    ensures FailuresRecorded(AfterDialFailed(s, key, err))
  {
    LogAppend(s.log, DialFailed(key));
    assert s.failures[key := err].Keys == s.failures.Keys + {key};
  }

  lemma DialFailedKeepsInv(s: State, key: Key, err: Exception)
    requires Inv(s) && key !in s.connections && key !in s.failures
    ensures Inv(AfterDialFailed(s, key, err))
  {
    var e := DialFailed(key);
    HistoryAppend(s.log, e);
    var t := AfterDialFailed(s, key, err);
    AccountKept(s, t, e);
    LateKept(s, t, e);
    RecordedFailure(s, key, err);
  }

  lemma DialInterruptedKeepsInv(s: State, key: Key)
    requires Inv(s) && key !in s.failures
    ensures Inv(AfterDialInterrupted(s, key))
  {
    var e := DialInterrupted(key);
    var t := AfterDialInterrupted(s, key);
    LogAppend(s.log, e);
    HistoryAppend(s.log, e);
    AccountKept(s, t, e);
    LateKept(s, t, e);
    MatchKept(s, t);
  }

  lemma TouchKeepsInv(s: State, key: Key, withLoop: bool)
    requires Inv(s) && key in s.connections
    ensures Inv(AfterTouch(s, key, withLoop))
  {
    var e := Accessed(key, s.connections[key], s.now, withLoop);
    LogAppend(s.log, e);
    HistoryAppend(s.log, e);
    AccountKept(s, AfterTouch(s, key, withLoop), e);
    LateTouch(s, key, withLoop);
    MatchTouch(s, key, withLoop);
  }

  lemma CleanupKeepsInv(s: State, key: Key, byTimer: bool)
    requires Inv(s) && key in s.connections
    requires byTimer ==> key in s.cleanupFutures && s.pending[s.cleanupFutures[key]].when <= s.now
    ensures Inv(AfterCleanup(s, key, byTimer))
  {
    var e := Closed(key, s.connections[key], s.now, byTimer);
    var t := AfterCleanup(s, key, byTimer);
    assert NeverRedials(t.log) && IdleBound(t.log) by { HistoryAppend(s.log, e); }
    assert ConnsAccounted(t) by { AccountClose(s, key, byTimer); }
    assert TimersLate(t) by { LateKept(s, t, e); }
    assert TimersMatch(t) by { MatchCleanup(s, key, byTimer); }
    assert FailuresRecorded(t) by { LogAppend(s.log, e); }
  }

  lemma ForgetKeepsInv(s: State)
    requires Inv(s)
    ensures Inv(AfterForget(s))
  {
    LogAppend(s.log, FailuresForgotten);
    HistoryAppend(s.log, FailuresForgotten);
    AccountKept(s, AfterForget(s), FailuresForgotten);
    LateKept(s, AfterForget(s), FailuresForgotten);
  }

  lemma AdvanceKeepsInv(s: State, now: real)
    requires Inv(s) && now >= s.now
    ensures Inv(s.(now := now))
  {
    var t := s.(now := now);
    assert TimersMatch(t) by { MatchKept(s, t); }
    assert ConnsAccounted(t);
    assert TimersLate(t);
    assert FailuresRecorded(t);
  }

  /** The state after cache[ctx] with a given dial outcome. */
  function AfterAccess(s: State, key: Key, dial: Dial, withLoop: bool): State {
    if key in s.failures then s
    else if key in s.connections then AfterTouch(s, key, withLoop)
    else
      match dial
      case Connects => AfterTouch(AfterOpen(s, key), key, withLoop)
      case Fails(e) => AfterDialFailed(s, key, e)
      case Interrupted(_) => AfterDialInterrupted(s, key)
  }

  /** What an access does, spelled out. */
  lemma AccessSpelled(s: State, key: Key, dial: Dial, withLoop: bool)
    ensures var t := AfterAccess(s, key, dial, withLoop);
            && t.now == s.now
            && (key !in s.failures && (key in s.connections || dial.Connects?) ==>
                  && key in t.connections && t.failures == s.failures
                  && t.log == s.log + (if key in s.connections then [] else [Opened(key, t.connections[key])])
                              + [Accessed(key, t.connections[key], s.now, withLoop)]
                  && (withLoop ==> key in t.cleanupFutures && t.cleanupFutures[key] in t.pending
                                   && t.pending[t.cleanupFutures[key]] == Timer(key, s.now + 600.0)))
            && (key in s.failures ==> t == s)
            && (key !in s.failures && key !in s.connections && !dial.Connects? ==>
                  && t.log == s.log + [if dial.Fails? then DialFailed(key) else DialInterrupted(key)]
                  && t.failures == if dial.Fails? then s.failures[key := dial.error] else s.failures)
  {
  }

  /** close() has not been called on a cached connection, and once on any other connection
      ever opened. */
  lemma OpenExactlyWhileCached(s: State, c: Conn)
    requires Inv(s) && c in OpenedConns(s.log)
    ensures CloseCount(s.log, c) == if c in s.connections.Values then 0 else 1
  {
  }

  lemma AccessKeepsInv(s: State, key: Key, dial: Dial, withLoop: bool)
    requires Inv(s)
    ensures Inv(AfterAccess(s, key, dial, withLoop))
    ensures var t := AfterAccess(s, key, dial, withLoop);
            key in t.connections ==> CloseCount(t.log, t.connections[key]) == 0
  {
    var t := AfterAccess(s, key, dial, withLoop);
    assert Inv(t) by {
      if key in s.failures {
      } else if key in s.connections {
        TouchKeepsInv(s, key, withLoop);
      } else {
        match dial
        case Connects =>
          OpenKeepsInv(s, key);
          TouchKeepsInv(AfterOpen(s, key), key, withLoop);
        case Fails(e) => DialFailedKeepsInv(s, key, e);
        case Interrupted(_) => DialInterruptedKeepsInv(s, key);
      }
    }
    if key in t.connections {
      CachedNotClosed(t, key);
    }
  }

  lemma CachedNotClosed(s: State, key: Key)
    requires ConnsAccounted(s) && key in s.connections
    ensures CloseCount(s.log, s.connections[key]) == 0
  {
    assert s.connections[key] in s.connections.Values;
  }

  /** A live timer's key is cached, and the timer is the one recorded for it. */
  lemma TimerNamesCached(s: State, h: Handle)
    requires Inv(s) && h in s.pending
    ensures var k := s.pending[h].key; k in s.connections && k in s.cleanupFutures && s.cleanupFutures[k] == h
  {
  }

  lemma NothingCached(s: State)
    requires Inv(s) && s.connections.Keys == {}
    ensures s.connections == map[] && s.cleanupFutures == map[] && s.pending == map[]
    ensures Inv(AfterForget(s)) && OpenedConns(AfterForget(s).log) == OpenedConns(s.log)
  {
    assert s.cleanupFutures.Keys == {};
    assert s.pending.Keys == {};
    ForgetKeepsInv(s);
    LogAppend(s.log, FailuresForgotten);
  }

  /** What closing some connections leaves of the others: the connections, their timers and
      all remembered failures. */
  ghost predicate Kept(s: State, t: State) {
    && t.failures == s.failures
    && t.connections.Keys <= s.connections.Keys
    && forall k :: k in t.connections ==>
         && t.connections[k] == s.connections[k]
         && (k in t.cleanupFutures <==> k in s.cleanupFutures)
         && (k in t.cleanupFutures ==> t.cleanupFutures[k] == s.cleanupFutures[k])
  }

  /** The same, when at least one was closed. */
  ghost predicate StillThere(s: State, t: State) {
    Kept(s, t) && t.connections.Keys < s.connections.Keys
  }

  lemma KeptFurther(s: State, t: State, key: Key)
    requires Kept(s, t) && key in t.connections
    ensures StillThere(s, AfterCleanup(t, key, false))
  {
    assert key in s.connections;
  }

  // ------------------------------------------------------------- the classes

  class EventLoop {
    var now: real
    var pending: map<Handle, Timer>
    var nextHandle: Handle

    constructor ()
      ensures pending == map[] && now == 0.0
    {
      now, pending, nextHandle := 0.0, map[], 0;
    }

    method CallLater(delay: real, key: Key) returns (h: Handle)
      modifies `pending, `nextHandle
      ensures h == old(nextHandle) && nextHandle == h + 1 && pending == old(pending)[h := Timer(key, now + delay)]
    {
      h := nextHandle;
      pending := pending[h := Timer(key, now + delay)];
      nextHandle := nextHandle + 1;
    }

    /** Cancelling a handle that has already run has no effect. */
    method Cancel(h: Handle)
      modifies `pending
      ensures pending == old(pending) - {h}
    {
      pending := pending - {h};
    }
  }

  class OpenConnectionCache {
    var connections: map<Key, Conn>
    var cleanupFutures: map<Key, Handle>
    var failures: map<Key, Exception>
    const loop: EventLoop
    var nextConn: Conn
    ghost var log: seq<Event>

    ghost function Snapshot(): State
      reads this, loop
    {
      State(connections, cleanupFutures, failures, loop.pending, loop.nextHandle, nextConn, loop.now, log)
    }

    ghost predicate Valid()
      reads this, loop
    {
      Inv(Snapshot())
    }

    constructor (l: EventLoop)
      requires l.pending == map[]
      ensures Valid() && loop == l && connections == map[] && cleanupFutures == map[] && failures == map[] && log == []
    {
      connections, cleanupFutures, failures := map[], map[], map[];
      loop := l;
      nextConn := 0;
      log := [];
    }

    method Insert(key: Key, dial: Dial) returns (raised: bool, error: Exception)
      modifies `connections, `failures, `nextConn, `log
      ensures raised == !dial.Connects? && (raised ==> error == dial.error)
      ensures Snapshot() == match dial
                            case Connects => AfterOpen(old(Snapshot()), key)
                            case Fails(e) => AfterDialFailed(old(Snapshot()), key, e)
                            case Interrupted(_) => AfterDialInterrupted(old(Snapshot()), key)
    {
      match dial
      case Connects =>
        connections := connections[key := nextConn];
        log := log + [Opened(key, nextConn)];
        nextConn := nextConn + 1;
        return false, Exception("");
      case Fails(e) =>
        failures := failures[key := e];
        log := log + [DialFailed(key)];
        return true, e;
      case Interrupted(e) =>
        log := log + [DialInterrupted(key)];
        return true, e;
    }

    method CancelCleanupFutureIfExists(key: Key)
      modifies `cleanupFutures, loop`pending
      ensures cleanupFutures == old(cleanupFutures) - {key}
      ensures loop.pending == if key in old(cleanupFutures) then old(loop.pending) - {old(cleanupFutures)[key]}
                              else old(loop.pending)
    {
      if key in cleanupFutures {
        var h := cleanupFutures[key];
        cleanupFutures := cleanupFutures - {key};
        loop.Cancel(h);
      }
    }

    method Touch(key: Key, withLoop: bool)
      requires key in connections
      modifies `cleanupFutures, `log, loop`pending, loop`nextHandle
      ensures Snapshot() == AfterTouch(old(Snapshot()), key, withLoop)
    {
      log := log + [Accessed(key, connections[key], loop.now, withLoop)];
      if !withLoop {
        return;
      }
      CancelCleanupFutureIfExists(key);
      var h := loop.CallLater(CONNECTION_CLEANUP_SEC, key);
      cleanupFutures := cleanupFutures[key := h];
      assert cleanupFutures == old(cleanupFutures)[key := h];
    }

    /** cache[ctx]. A returned connection is cached and has not been closed; a key with a
        remembered failure is not dialled. */
    method GetItem(key: Key, dial: Dial, withLoop: bool) returns (r: Access)
      requires Valid()
      modifies this, loop`pending, loop`nextHandle
      ensures Valid() && Snapshot() == AfterAccess(old(Snapshot()), key, dial, withLoop)
      ensures r.Returned? <==> key !in old(failures) && (key in old(connections) || dial.Connects?)
      ensures r.Returned? ==> key in connections && connections[key] == r.conn && CloseCount(log, r.conn) == 0
      ensures r.Raised? ==> r.error == if key in old(failures) then old(failures)[key] else dial.error
      // whatever is returned has just been touched: with an event loop its timer is due in ten minutes
      ensures r.Returned? ==> log == old(log) + (if key in old(connections) then [] else [Opened(key, r.conn)])
                                     + [Accessed(key, r.conn, loop.now, withLoop)]
      ensures r.Returned? && withLoop ==>
        && key in cleanupFutures && cleanupFutures[key] in loop.pending
        && loop.pending[cleanupFutures[key]] == Timer(key, loop.now + 600.0)
      // one dial is made for a key that is neither cached nor known to fail, and no other
      ensures r.Raised? ==> log == old(log) + if key in old(failures) then []
                                              else [if dial.Fails? then DialFailed(key) else DialInterrupted(key)]
      ensures failures == if r.Raised? && key !in old(failures) && dial.Fails? then old(failures)[key := dial.error]
                          else old(failures)
    {
      AccessKeepsInv(Snapshot(), key, dial, withLoop);
      r := LookUp(key, dial, withLoop);
    }

    /** The body of __getitem__. */
    method LookUp(key: Key, dial: Dial, withLoop: bool) returns (r: Access)
      modifies this, loop`pending, loop`nextHandle
      ensures Snapshot() == AfterAccess(old(Snapshot()), key, dial, withLoop)
      ensures r.Returned? <==> key !in old(failures) && (key in old(connections) || dial.Connects?)
      ensures r.Returned? ==> key in connections && connections[key] == r.conn
      ensures r.Raised? ==> r.error == if key in old(failures) then old(failures)[key] else dial.error
      ensures r.Returned? ==> log == old(log) + (if key in old(connections) then [] else [Opened(key, r.conn)])
                                     + [Accessed(key, r.conn, loop.now, withLoop)]
      ensures r.Returned? && withLoop ==>
        && key in cleanupFutures && cleanupFutures[key] in loop.pending
        && loop.pending[cleanupFutures[key]] == Timer(key, loop.now + 600.0)
      ensures r.Raised? ==> log == old(log) + if key in old(failures) then []
                                              else [if dial.Fails? then DialFailed(key) else DialInterrupted(key)]
      ensures failures == if r.Raised? && key !in old(failures) && dial.Fails? then old(failures)[key := dial.error]
                          else old(failures)
    {
      AccessSpelled(Snapshot(), key, dial, withLoop);
      if key in failures {
        return Raised(failures[key]);
      }
      if key !in connections {
        var raised, error := Insert(key, dial);
        if raised {
          return Raised(error);
        }
      }
      Touch(key, withLoop);
      return Returned(connections[key]);
    }

    /** _cleanup: the connection is dropped before close() is called on it. */
    method Cleanup(key: Key, ghost byTimer: bool) returns (end: Cleaned)
      requires byTimer ==> key in connections
      modifies `connections, `cleanupFutures, `log, loop`pending
      ensures end.NotCached? <==> key !in old(connections)
      ensures key in old(connections) ==> Snapshot() == AfterCleanup(old(Snapshot()), key, byTimer)
    {
      CancelCleanupFutureIfExists(key);
      if key !in connections {
        return NotCached;
      }
      ghost var conn := connections[key];
      connections := connections - {key};
      log := log + [Closed(key, conn, loop.now, byTimer)];
      var raised: Option<Exception> := *;
      return CloseCalled(raised);
    }

    /** The event loop drops the handle it runs, then calls _cleanup. */
    method RunTimer(h: Handle) returns (end: Cleaned)
      requires h in loop.pending && loop.pending[h].key in connections
      requires loop.pending[h].key in cleanupFutures && cleanupFutures[loop.pending[h].key] == h
      modifies `connections, `cleanupFutures, `log, loop`pending
      ensures end.CloseCalled? && Snapshot() == AfterCleanup(old(Snapshot()), old(loop.pending)[h].key, true)
    {
      var key := loop.pending[h].key;
      loop.pending := loop.pending - {h};
      end := Cleanup(key, true);
      assert loop.pending == old(loop.pending) - {h};
    }

    /** The event loop runs a timer that is due. It never misses its connection. */
    method FireTimer(h: Handle) returns (end: Cleaned)
      requires Valid() && h in loop.pending && loop.pending[h].when <= loop.now
      modifies `connections, `cleanupFutures, `log, loop`pending
      ensures Valid() && end.CloseCalled?
      ensures Snapshot() == AfterCleanup(old(Snapshot()), old(loop.pending)[h].key, true)
      ensures var key := old(loop.pending)[h].key;
        && key in old(connections) && connections == old(connections) - {key} && h !in loop.pending
        && log == old(log) + [Closed(key, old(connections)[key], loop.now, true)]
    {
      TimerNamesCached(Snapshot(), h);
      CleanupKeepsInv(Snapshot(), loop.pending[h].key, true);
      end := RunTimer(h);
    }

    /** clear: closes every connection and forgets every failure. A close() that raises ends
        it there: the connections not reached stay cached with their timers, and failures
        stay remembered. It is a step of the runs below, with the order it came to. */
    method Clear() returns (raised: Option<Exception>, ghost order: seq<Key>)
      requires Valid()
      modifies this, loop`pending
      ensures Valid() && Snapshot() == After(old(Snapshot()), ClearCache(order, raised.Some?))
      ensures raised.None? ==>
        connections == map[] && cleanupFutures == map[] && failures == map[] && loop.pending == map[]
      ensures raised.Some? ==> StillThere(old(Snapshot()), Snapshot())
      ensures OpenedConns(log) == OpenedConns(old(log))
    {
      raised, order := CloseAll();
      if raised.None? {
        ForgetAll();
      }
    }

    /** The end of clear(), when no connection is cached: by the invariant no timer is either. */
    method ForgetAll()
      requires Valid() && connections.Keys == {}
      modifies `cleanupFutures, `failures, `log
      ensures Valid() && Snapshot() == AfterForget(old(Snapshot()))
      ensures connections == map[] && cleanupFutures == map[] && failures == map[] && loop.pending == map[]
      ensures OpenedConns(log) == OpenedConns(old(log))
    {
      NothingCached(Snapshot());
      cleanupFutures := map[];
      failures := map[];
      log := log + [FailuresForgotten];
      assert Snapshot() == AfterForget(old(Snapshot()));
    }

    /** The loop of clear() over the cached keys. */
    method CloseAll() returns (raised: Option<Exception>, ghost order: seq<Key>)
      requires Valid()
      modifies `connections, `cleanupFutures, `log, loop`pending
      ensures Valid() && Snapshot() == AfterCleanups(old(Snapshot()), order)
      ensures raised.None? ==> connections.Keys == {}
      ensures raised.Some? ==> StillThere(old(Snapshot()), Snapshot())
      ensures OpenedConns(log) == OpenedConns(old(log))
    {
      var keys := connections.Keys;
      ghost var before := Snapshot();
      raised, order := None, [];
      while keys != {}
        invariant Valid() && connections.Keys == keys && raised.None?
        invariant Snapshot() == AfterCleanups(before, order)
        invariant Kept(before, Snapshot())
        invariant OpenedConns(log) == OpenedConns(before.log)
      {
        ghost var mid := Snapshot();
        var key :| key in keys;
        raised := CloseCached(key);
        KeptFurther(before, mid, key);
        OneMoreCleanup(before, order, key);
        order := order + [key];
        if raised.Some? { return; }
        keys := keys - {key};
      }
    }

    /** Closing one cached connection. */
    method CloseCached(key: Key) returns (raised: Option<Exception>)
      requires Valid() && key in connections
      modifies `connections, `cleanupFutures, `log, loop`pending
      ensures Valid() && Snapshot() == AfterCleanup(old(Snapshot()), key, false)
      ensures OpenedConns(log) == OpenedConns(old(log))
    {
      CleanupKeepsInv(Snapshot(), key, false);
      LogAppend(log, Closed(key, connections[key], loop.now, false));
      var end := Cleanup(key, false);
      raised := end.raised;
    }

    method ClearFailures()
      requires Valid()
      modifies `failures, `log
      ensures Valid() && Snapshot() == AfterForget(old(Snapshot()))
      ensures failures == map[]
    {
      ForgetKeepsInv(Snapshot());
      failures := map[];
      log := log + [FailuresForgotten];
    }

    method TimePasses(seconds: real)
      requires Valid() && seconds >= 0.0
      modifies loop`now
      ensures Valid() && Snapshot() == old(Snapshot()).(now := old(loop.now) + seconds)
    {
      ghost var s := Snapshot();
      loop.now := loop.now + seconds;
      assert Snapshot() == s.(now := loop.now);
      AdvanceKeepsInv(s, loop.now);
    }
  }

  // ---------------------------------------------------------------- every run

  datatype Step =
    | GetItem(key: Key, dial: Dial, withLoop: bool)
    | TimerFires(handle: Handle)
    | ClearCache(order: seq<Key>, raised: bool)
    | ClearFailures
    | TimePasses(seconds: real)

  const START := State(map[], map[], map[], map[], 0, 0, 0.0, [])

  /** The event loop runs live timers when they are due, and time does not go back. */
  predicate Allowed(s: State, step: Step) {
    match step
    case TimerFires(h) => h in s.pending && s.pending[h].when <= s.now
    case TimePasses(seconds) => seconds >= 0.0
    case _ => true
  }

  /** Closing the connections at some keys, one after the other. */
  function AfterCleanups(s: State, order: seq<Key>): State
    decreases |order|
  {
    if order == [] then s
    else AfterCleanups(if order[0] in s.connections then AfterCleanup(s, order[0], false) else s, order[1..])
  }

  lemma {:induction false} OneMoreCleanup(s: State, order: seq<Key>, key: Key)
    requires key in AfterCleanups(s, order).connections
    ensures AfterCleanups(s, order + [key]) == AfterCleanup(AfterCleanups(s, order), key, false)
    decreases |order|
  {
    if order == [] {
      assert AfterCleanups(AfterCleanup(s, key, false), []) == AfterCleanup(s, key, false);
    } else {
      assert (order + [key])[1..] == order[1..] + [key];
      OneMoreCleanup(if order[0] in s.connections then AfterCleanup(s, order[0], false) else s, order[1..], key);
    }
  }

  function After(s: State, step: Step): State
    requires Allowed(s, step)
  {
    match step
    case GetItem(key, dial, withLoop) => AfterAccess(s, key, dial, withLoop)
    case TimerFires(h) =>
      if s.pending[h].key in s.connections then AfterCleanup(s, s.pending[h].key, true) else s
    case ClearCache(order, raised) =>
      if raised then AfterCleanups(s, order) else AfterForget(AfterCleanups(s, order))
    case ClearFailures => AfterForget(s)
    case TimePasses(seconds) => s.(now := s.now + seconds)
  }

  /** The state after a run of an empty cache; steps that are not allowed are skipped. */
  function Run(steps: seq<Step>): State {
    if steps == [] then START
    else
      var s := Run(steps[..|steps| - 1]);
      if Allowed(s, steps[|steps| - 1]) then After(s, steps[|steps| - 1]) else s
  }

  lemma {:induction false} CleanupsKeepInv(s: State, order: seq<Key>)
    requires Inv(s)
    ensures Inv(AfterCleanups(s, order))
    ensures forall k :: k in AfterCleanups(s, order).connections <==> k in s.connections && k !in order
    decreases |order|
  {
    if order != [] {
      if order[0] in s.connections { CleanupKeepsInv(s, order[0], false); }
      CleanupsKeepInv(if order[0] in s.connections then AfterCleanup(s, order[0], false) else s, order[1..]);
      assert order == [order[0]] + order[1..];
    }
  }

  lemma StepKeepsInv(s: State, step: Step)
    requires Inv(s) && Allowed(s, step)
    ensures Inv(After(s, step))
  {
    match step
    case GetItem(key, dial, withLoop) => GetItemKeepsInv(s, key, dial, withLoop);
    case TimerFires(h) => FireKeepsInv(s, h);
    case ClearCache(order, raised) => ClearKeepsInv(s, order, raised);
    case ClearFailures => ForgetStepKeepsInv(s);
    case TimePasses(seconds) => PassingKeepsInv(s, seconds);
  }

  lemma GetItemKeepsInv(s: State, key: Key, dial: Dial, withLoop: bool)
    requires Inv(s)
    ensures Inv(After(s, GetItem(key, dial, withLoop)))
  {
    AccessKeepsInv(s, key, dial, withLoop);
  }

  lemma ForgetStepKeepsInv(s: State)
    requires Inv(s)
    ensures Inv(After(s, ClearFailures))
  {
    ForgetKeepsInv(s);
  }

  lemma PassingKeepsInv(s: State, seconds: real)
    requires Inv(s) && seconds >= 0.0
    ensures Inv(After(s, TimePasses(seconds)))
  {
    var now := s.now + seconds;
    assert now >= s.now && After(s, TimePasses(seconds)) == s.(now := now);
    AdvanceKeepsInv(s, now);
  }

  lemma FireKeepsInv(s: State, h: Handle)
    requires Inv(s) && Allowed(s, TimerFires(h))
    ensures Inv(After(s, TimerFires(h)))
  {
    TimerNamesCached(s, h);
    CleanupKeepsInv(s, s.pending[h].key, true);
  }

  lemma ClearKeepsInv(s: State, order: seq<Key>, raised: bool)
    requires Inv(s)
    ensures Inv(After(s, ClearCache(order, raised)))
  {
    CleanupsKeepInv(s, order);
    ForgetKeepsInv(AfterCleanups(s, order));
  }

  /** Over every run of accesses with any dial outcomes, timers, passing time, and clears in
      any order that end or are cut short by a close() that raises,
      the invariant holds, and with it all that follows from it below. */
  lemma {:induction false} EveryRunSafe(steps: seq<Step>)
    ensures Inv(Run(steps))
  {
    if steps == [] {
      StartIsSafe();
    } else {
      EveryRunSafe(steps[..|steps| - 1]);
      var s := Run(steps[..|steps| - 1]);
      if Allowed(s, steps[|steps| - 1]) { StepKeepsInv(s, steps[|steps| - 1]); }
    }
  }

  lemma StartIsSafe()
    ensures Inv(START)
  {
  }

  // ---------------------------------------------- what the invariant says of a run

  lemma {:induction false} FailedUntilForgotten(log: seq<Event>, i: nat, j: nat)
    requires i < j <= |log| && log[i].DialFailed?
    requires forall m :: i < m < j ==> !log[m].FailuresForgotten?
    ensures log[i].key in FailedKeys(log[..j])
    decreases j
  {
    assert log[..j][..j - 1] == log[..j - 1];
    if j > i + 1 { FailedUntilForgotten(log, i, j - 1); }
  }

  /** Between a failed dial of a key and any later dial of it, failures were forgotten. */
  lemma RedialOnlyAfterForgetting(s: State, i: nat, j: nat)
    requires Inv(s) && i < j < |s.log|
    requires s.log[i].DialFailed? && IsDial(s.log[j]) && s.log[j].key == s.log[i].key
    ensures exists m :: i < m < j && s.log[m].FailuresForgotten?
  {
    if forall m :: i < m < j ==> !s.log[m].FailuresForgotten? {
      FailedUntilForgotten(s.log, i, j);
    }
  }

  /** After an access that could reach the event loop, no timer closes the connection
      for ten minutes. */
  lemma IdleAtLeastTenMinutes(s: State, i: nat, j: nat)
    requires Inv(s) && i < j < |s.log|
    requires s.log[i].Accessed? && s.log[i].withLoop
    requires s.log[j].Closed? && s.log[j].byTimer && s.log[j].conn == s.log[i].conn
    ensures s.log[j].time - s.log[i].time >= CONNECTION_CLEANUP_SEC
  {
    assert SetsTimer(s.log[i], s.log[j].conn);
  }

  /** The time that passes in the steps from the i-th up to the j-th. */
  function Elapsed(steps: seq<Step>, i: nat, j: nat): real
    requires i <= j <= |steps|
    decreases j - i
  {
    if i == j then 0.0
    else
      var step := steps[j - 1];
      Elapsed(steps, i, j - 1) + if step.TimePasses? && step.seconds >= 0.0 then step.seconds else 0.0
  }

  lemma CleanupsOnlyClose(s: State, order: seq<Key>)
    ensures s.log <= AfterCleanups(s, order).log && AfterCleanups(s, order).now == s.now
    decreases |order|
  {
    if order != [] {
      CleanupsOnlyClose(if order[0] in s.connections then AfterCleanup(s, order[0], false) else s, order[1..]);
    }
  }

  lemma StepGoesOn(s: State, step: Step)
    requires Allowed(s, step)
    ensures s.log <= After(s, step).log
    ensures After(s, step).now == s.now + if step.TimePasses? then step.seconds else 0.0
  {
    if step.ClearCache? { CleanupsOnlyClose(s, step.order); }
  }

  /** In a run the log only grows, and the clock shows the time that has passed. */
  lemma {:induction false} RunGoesOn(steps: seq<Step>, i: nat, j: nat)
    requires i <= j <= |steps|
    ensures Run(steps[..i]).log <= Run(steps[..j]).log
    ensures Run(steps[..j]).now == Run(steps[..i]).now + Elapsed(steps, i, j)
    decreases j
  {
    if i < j {
      RunGoesOn(steps, i, j - 1);
      assert steps[..j][..j - 1] == steps[..j - 1] && steps[..j][j - 1] == steps[j - 1];
      if Allowed(Run(steps[..j - 1]), steps[j - 1]) { StepGoesOn(Run(steps[..j - 1]), steps[j - 1]); }
    }
  }

  lemma RunOneFurther(steps: seq<Step>, i: nat)
    requires i < |steps|
    ensures Run(steps[..i + 1]) == if Allowed(Run(steps[..i]), steps[i]) then After(Run(steps[..i]), steps[i])
                                   else Run(steps[..i])
  {
    assert steps[..i + 1][..i] == steps[..i];
  }

  /** An access that leaves its key cached has touched it. */
  lemma AccessIsLogged(s: State, key: Key, dial: Dial, withLoop: bool)
    requires FailuresRecorded(s) && key in AfterAccess(s, key, dial, withLoop).connections
    ensures var t := AfterAccess(s, key, dial, withLoop);
            t.log != [] && t.log[|t.log| - 1] == Accessed(key, t.connections[key], s.now, withLoop) && t.now == s.now
  {
    AccessSpelled(s, key, dial, withLoop);
  }

  /** The timer that closes a connection is the one recorded for it. */
  lemma ClosedByTimer(s: State, h: Handle, c: Conn)
    requires TimersMatch(s) && Allowed(s, TimerFires(h))
    requires c in s.connections.Values && c !in After(s, TimerFires(h)).connections.Values
    ensures var k := s.pending[h].key;
            k in s.connections && s.connections[k] == c && k in s.cleanupFutures && s.cleanupFutures[k] == h
  {
    var k :| k in s.connections && s.connections[k] == c;
    var t := After(s, TimerFires(h));
    assert k !in t.connections;
  }

  /** A timer that closes a connection is late for every access of it with an event loop. */
  lemma ClosedLate(s: State, h: Handle, c: Conn, i: nat)
    requires Inv(s) && Allowed(s, TimerFires(h)) && i < |s.log| && SetsTimer(s.log[i], c)
    requires c in s.connections.Values && c !in After(s, TimerFires(h)).connections.Values
    ensures s.now >= s.log[i].time + 600.0
  {
    ClosedByTimer(s, h, c);
  }

  /** Over every run: between an access with an event loop that leaves its key cached and a
      timer that closes that connection, at least ten minutes pass. */
  lemma IdleOverSteps(steps: seq<Step>, i: nat, j: nat)
    requires i < j < |steps| && steps[i].GetItem? && steps[i].withLoop
    requires steps[i].key in Run(steps[..i + 1]).connections
    requires steps[j].TimerFires? && Allowed(Run(steps[..j]), steps[j])
    requires var c := Run(steps[..i + 1]).connections[steps[i].key];
             c in Run(steps[..j]).connections.Values && c !in Run(steps[..j + 1]).connections.Values
    ensures Elapsed(steps, i + 1, j) >= 600.0
  {
    var s, t := Run(steps[..i + 1]), Run(steps[..j]);
    assert FailuresRecorded(Run(steps[..i])) by { EveryRunSafe(steps[..i]); }
    RunOneFurther(steps, i);
    RunOneFurther(steps, j);
    AccessIsLogged(Run(steps[..i]), steps[i].key, steps[i].dial, true);
    RunGoesOn(steps, i + 1, j);
    assert Inv(t) by { EveryRunSafe(steps[..j]); }
    assert t.log[|s.log| - 1] == s.log[|s.log| - 1];
    ClosedLate(t, steps[j].handle, s.connections[steps[i].key], |s.log| - 1);
  }

  /** A first access with an event loop and, ten minutes later, one without. */
  function LooplessRun(s: State, key: Key): State
    requires key !in s.connections && key !in s.failures
  {
    var s1 := AfterAccess(s, key, Connects, true);
    AfterTouch(s1.(now := s1.now + CONNECTION_CLEANUP_SEC), key, false)
  }

  /** The condition on the access is needed: in this run the second access finds no event
      loop, and the timer of the first is due at that very moment; running it closes the
      connection right after an access. */
  lemma LooplessAccessIsNotExtended(s: State, key: Key)
    requires key !in s.connections && key !in s.failures
    ensures var t := LooplessRun(s, key);
            && key in t.connections && key in t.cleanupFutures
            && t.log[|t.log| - 1] == Accessed(key, t.connections[key], t.now, false)
            && t.cleanupFutures[key] in t.pending && t.pending[t.cleanupFutures[key]].when == t.now
            && AfterCleanup(t, key, true).log == t.log + [Closed(key, t.connections[key], t.now, true)]
  {
    var s1 := AfterAccess(s, key, Connects, true);
    assert s1.pending[s1.cleanupFutures[key]] == Timer(key, s.now + CONNECTION_CLEANUP_SEC);
  }
}
