/** The two session calls of the server (`SCope.getUUID` and
    `SCope.getRemainingUUIDTime`), over the registry of the data-file handler.

    The clock is read once per call, as `now`. The random fresh id, the
    contents of the permanent list, whether `uuid.UUID` accepts an id, and the
    two settings of the `Constant` module (the mouse-event threshold and the
    active-session limit) are parameters. Instead of deleting the directories
    of the ids it reaps, `getRemainingUUIDTime` returns the set of those ids. */
module SessionService {
  import opened Results
  import opened Text
  import opened DataFiles

  /** Why a call fails: a request id that is neither tracked nor accepted by
      `uuid.UUID` (its ValueError is not caught), or app mode without a
      permanent list to read. */
  datatype SessionError = MalformedId(id: string) | NoPermanentList

  /** `RemainingUUIDTimeReply`. */
  datatype RemainingReply = RemainingReply(uid: string, timeRemaining: int, sessionsLimitReached: bool)

  /** `_UUID_TIMEOUT - (now - start)`: the seconds an id started at `start` has left. */
  function Remaining(start: nat, now: nat): int {
    UuidTimeout - (now - start)
  }

  /** The tracked ids the reaping loop keeps: those with time left. */
  function Unexpired(current: map<string, nat>, now: nat): (r: map<string, nat>)
    ensures forall id :: id in r <==> id in current && Remaining(current[id], now) >= 0
    ensures forall id :: id in r ==> r[id] == current[id]
  {
    map id | id in current && Remaining(current[id], now) >= 0 :: current[id]
  }

  /** The ids the reaping loop removes (and whose session directories it deletes). */
  function Expired(current: map<string, nat>, now: nat): (r: set<string>)
    ensures forall id :: id in r <==> id in current && Remaining(current[id], now) < 0
  {
    set id | id in current && Remaining(current[id], now) < 0
  }

  // ---------------------------------------------------------------------------
  // getUUID

  /** `fh.readline().rstrip('\n')`: the first line of a file, "" for an empty one. */
  function FirstLine(text: string): string {
    var ls := Lines(text);
    if ls == [] then "" else StripNewlines(ls[0])
  }

  /** The id `getUUID` hands out and the registry after it: in app mode the
      first id of the permanent list, otherwise the fresh id; an id not yet
      tracked starts now. */
  function NewSession(reg: Registry, appMode: bool, permanentFile: Option<string>, freshId: string, now: nat)
    : (Registry, Result<string, SessionError>)
  {
    if appMode && permanentFile.None? then (reg, Failure(NoPermanentList))
    else
      var id := if appMode then FirstLine(permanentFile.value) else freshId;
      if id in reg.current then (reg, Success(id))
      else (reg.(current := reg.current[id := now]), Success(id))
  }

  /** The id handed out is tracked afterwards; a tracked id keeps its start
      time, a new one starts now; nothing else changes. */
  lemma NewSessionSpec(reg: Registry, appMode: bool, permanentFile: Option<string>, freshId: string, now: nat)
    ensures var (reg', r) := NewSession(reg, appMode, permanentFile, freshId, now);
      && (r.Failure? <==> appMode && permanentFile.None?)
      && (r.Failure? ==> reg' == reg)
      && (r.Success? ==> r.value in reg'.current)
      && (r.Success? && r.value in reg.current ==> reg' == reg)
      && (r.Success? && r.value !in reg.current ==> reg'.current == reg.current[r.value := now])
      && reg'.permanent == reg.permanent && reg'.active == reg.active
      && (r.Success? && !appMode ==> r.value == freshId)
  {
  }

  /** In app mode, once `read_UUID_db` has created the permanent list, the id
      handed out is the one it named. */
  lemma AppModeIdIsCreatedId(freshId: string)
    requires '\n' !in freshId
    ensures FirstLine(CreatedPermanentList(freshId)) == "SCopeApp__" + freshId
  {
    var text := CreatedPermanentList(freshId);
    var id := "SCopeApp__" + freshId;
    assert text == id + "\n";
    forall j | 0 <= j < |id| ensures text[j] != '\n' {
      assert text[j] == id[j];
      if j >= 10 {
        assert id[j] == freshId[j - 10];
      }
    }
    assert text[|id|] == '\n';
    assert IndexOf(text, '\n') == |id|;
    assert '\n' !in id;
    assert text[..|id| + 1] == text;
    assert Lines(text) == [text];
    StripNewlinesOfLine(id);
  }

  /** `getUUID`. */
  method GetUUID(dfh: DataFileHandler, appMode: bool, permanentFile: Option<string>, freshId: string, now: nat)
    returns (r: Result<string, SessionError>)
    modifies dfh`currentUUIDs
    ensures (dfh.Snapshot(), r) == NewSession(old(dfh.Snapshot()), appMode, permanentFile, freshId, now)
  {
    var newId: string;
    if appMode {
      if permanentFile.None? {
        return Failure(NoPermanentList);
      }
      newId := FirstLine(permanentFile.value);
    } else {
      newId := freshId;
    }
    if newId !in dfh.currentUUIDs {
      dfh.currentUUIDs := dfh.currentUUIDs[newId := now];
    }
    r := Success(newId);
  }

  // ---------------------------------------------------------------------------
  // getRemainingUUIDTime

  /** The specification of `getRemainingUUIDTime`: reap, look up or adopt the
      request id, drop idle sessions, refresh the id on enough mouse events,
      then raise the capacity flag or make the id active. */
  function RemainingTime(reg: Registry, reqId: string, mouseEvents: int, now: nat,
                         validId: string -> bool, threshold: int, limit: int)
    : (Registry, Result<RemainingReply, SessionError>)
  {
    var current := Unexpired(reg.current, now);
    if reqId !in current && !validId(reqId) then
      (reg.(current := current), Failure(MalformedId(reqId)))
    else
      var current' := if reqId in current then current else current[reqId := now];
      var timeRemaining := if reqId in current then Remaining(current[reqId], now) else UuidTimeout as int;
      var live := LiveSessions(reg.active, current', now);
      var active := if mouseEvents >= threshold then live[reqId := now] else live;
      var limitReached := |active| >= limit && reqId !in reg.permanent && reqId !in active;
      var active' := if reqId !in active && !limitReached then active[reqId := now] else active;
      (Registry(current', reg.permanent, active'), Success(RemainingReply(reqId, timeRemaining, limitReached)))
  }

  /** After the call every tracked id has time left, and the time reported is
      never negative; a tracked request id keeps its start time, an expired or
      unknown one starts now; the permanent set is untouched. */
  lemma RemainingTimeTracked(reg: Registry, reqId: string, mouseEvents: int, now: nat,
                             validId: string -> bool, threshold: int, limit: int)
    ensures var (reg', r) := RemainingTime(reg, reqId, mouseEvents, now, validId, threshold, limit);
      && (forall id :: id in reg'.current ==> Remaining(reg'.current[id], now) >= 0)
      && (forall id :: id in reg.current && Remaining(reg.current[id], now) >= 0 ==>
            id in reg'.current && reg'.current[id] == reg.current[id])
      && (forall id :: id in reg'.current && id != reqId ==> id in reg.current)
      && reg'.permanent == reg.permanent
      && (r.Failure? <==> (reqId !in Unexpired(reg.current, now) && !validId(reqId)))
      && (r.Success? ==> r.value.uid == reqId && r.value.timeRemaining >= 0 && reqId in reg'.current)
      && (r.Success? && reqId in Unexpired(reg.current, now) ==>
            r.value.timeRemaining == Remaining(reg.current[reqId], now))
      && (r.Success? && reqId !in Unexpired(reg.current, now) ==>
            reg'.current[reqId] == now && r.value.timeRemaining == UuidTimeout)
  {
  }

  /** After a successful call every active session is tracked and has been
      idle for at most `SessionTimeout`. */
  lemma RemainingTimeActive(reg: Registry, reqId: string, mouseEvents: int, now: nat,
                            validId: string -> bool, threshold: int, limit: int)
    ensures var (reg', r) := RemainingTime(reg, reqId, mouseEvents, now, validId, threshold, limit);
      r.Success? ==> forall id :: id in reg'.active ==>
        id in reg'.current && now - reg'.active[id] <= SessionTimeout
  {
  }

  /** The capacity flag: the request id is active after the call exactly when
      the flag is down, and a permanent id never raises it. */
  lemma CapacityFlag(reg: Registry, reqId: string, mouseEvents: int, now: nat,
                     validId: string -> bool, threshold: int, limit: int)
    ensures var (reg', r) := RemainingTime(reg, reqId, mouseEvents, now, validId, threshold, limit);
      && (r.Success? ==> (reqId in reg'.active <==> !r.value.sessionsLimitReached))
      && (r.Success? && reqId in reg.permanent ==> !r.value.sessionsLimitReached)
  {
  }

  lemma {:induction false} SubsetCardinality(a: set<string>, b: set<string>)
    requires a <= b
    ensures |a| <= |b|
    decreases |b|
  {
    if a != {} {
      var x :| x in a;
      SubsetCardinality(a - {x}, b - {x});
    }
  }

  /** The capacity step keeps an active set within the limit. */
  lemma CapacityStepWithinLimit(active: map<string, nat>, reqId: string, now: nat, limit: int, permanent: bool)
    requires |active| <= limit && !permanent
    ensures var limitReached := |active| >= limit && !permanent && reqId !in active;
      |if reqId !in active && !limitReached then active[reqId := now] else active| <= limit
  {
    if reqId !in active && |active| < limit {
      assert (active[reqId := now]).Keys == active.Keys + {reqId};
    }
  }

  /** Below the mouse-event threshold a non-permanent id never pushes the
      active set past the limit. */
  lemma ActiveWithinLimit(reg: Registry, reqId: string, mouseEvents: int, now: nat,
                          validId: string -> bool, threshold: int, limit: int)
    requires reqId !in reg.permanent && mouseEvents < threshold && |reg.active| <= limit
    ensures |RemainingTime(reg, reqId, mouseEvents, now, validId, threshold, limit).0.active| <= limit
  {
    var current := Unexpired(reg.current, now);
    if reqId in current || validId(reqId) {
      var current' := if reqId in current then current else current[reqId := now];
      var live := LiveSessions(reg.active, current', now);
      SubsetCardinality(live.Keys, reg.active.Keys);
      CapacityStepWithinLimit(live, reqId, now, limit, reqId in reg.permanent);
    }
  }

  /** With mouse events at or above the threshold, a successful call leaves
      the request id active as of now and never raises the capacity flag,
      whatever the size of the active set and the limit. */
  lemma MouseEventsActivate(reg: Registry, reqId: string, mouseEvents: int, now: nat,
                            validId: string -> bool, threshold: int, limit: int)
    requires mouseEvents >= threshold
    ensures var (reg', r) := RemainingTime(reg, reqId, mouseEvents, now, validId, threshold, limit);
      r.Success? ==> reqId in reg'.active && reg'.active[reqId] == now && !r.value.sessionsLimitReached
  {
  }

  /** A concrete instance of `MouseEventsActivate`, which states the general
      case: with a limit of one and another session active, a second id
      with enough mouse events makes two active sessions. */
  lemma MouseEventsBypassLimit(other: string, reqId: string, now: nat)
    requires other != reqId
    ensures var reg := Registry(map[other := now, reqId := now], {}, map[other := now]);
      |RemainingTime(reg, reqId, 1, now, _ => true, 1, 1).0.active| == 2
  {
    var reg := Registry(map[other := now, reqId := now], {}, map[other := now]);
    var current := Unexpired(reg.current, now);
    assert reqId in current && other in current;
    var live := LiveSessions(reg.active, current, now);
    assert live == map[other := now];
    var active := live[reqId := now];
    assert active.Keys == {other, reqId};
  }

  /** The reaping loop: every tracked id whose time has run out is removed. */
  method ReapExpired(dfh: DataFileHandler, now: nat) returns (reaped: set<string>)
    modifies dfh`currentUUIDs
    ensures dfh.currentUUIDs == Unexpired(old(dfh.currentUUIDs), now)
    ensures reaped == Expired(old(dfh.currentUUIDs), now)
  {
    reaped := {};
    var ids := dfh.currentUUIDs.Keys;
    while ids != {}
      invariant ids <= old(dfh.currentUUIDs).Keys
      invariant dfh.currentUUIDs == map id | id in old(dfh.currentUUIDs) &&
        (id in ids || Remaining(old(dfh.currentUUIDs)[id], now) >= 0) :: old(dfh.currentUUIDs)[id]
      invariant reaped == set id | id in old(dfh.currentUUIDs) && id !in ids &&
        Remaining(old(dfh.currentUUIDs)[id], now) < 0
      decreases ids
    {
      var uid :| uid in ids;
      var timeRemaining := UuidTimeout - (now - dfh.currentUUIDs[uid]);
      if timeRemaining < 0 {
        dfh.currentUUIDs := dfh.currentUUIDs - {uid};
        reaped := reaped + {uid};
      }
      ids := ids - {uid};
    }
  }

  /** `getRemainingUUIDTime`. Returns the reaped ids beside the reply. */
  method GetRemainingUUIDTime(dfh: DataFileHandler, reqId: string, mouseEvents: int, now: nat,
                              validId: string -> bool, threshold: int, limit: int)
    returns (reaped: set<string>, r: Result<RemainingReply, SessionError>)
    modifies dfh`currentUUIDs, dfh`activeSessions
    ensures (dfh.Snapshot(), r) == RemainingTime(old(dfh.Snapshot()), reqId, mouseEvents, now, validId, threshold, limit)
    ensures reaped == Expired(old(dfh.currentUUIDs), now)
  {
    reaped := ReapExpired(dfh, now);
    var timeRemaining: int;
    if reqId in dfh.currentUUIDs {
      var startTime := dfh.currentUUIDs[reqId];
      timeRemaining := UuidTimeout - (now - startTime);
    } else {
      if !validId(reqId) {
        return reaped, Failure(MalformedId(reqId));
      }
      dfh.currentUUIDs := dfh.currentUUIDs[reqId := now];
      timeRemaining := UuidTimeout;
    }
    dfh.ActiveSessionCheck(now);
    if mouseEvents >= threshold {
      dfh.ResetActiveSessionTimeout(reqId, now);
    }
    var sessionsLimitReached := false;
    if |dfh.activeSessions| >= limit && reqId !in dfh.permanentUUIDs && reqId !in dfh.activeSessions {
      sessionsLimitReached := true;
    }
    if reqId !in dfh.activeSessions && !sessionsLimitReached {
      dfh.ResetActiveSessionTimeout(reqId, now);
    }
    r := Success(RemainingReply(reqId, timeRemaining, sessionsLimitReached));
  }
}
