/** The sleep-tracker view model, reduced to its state: the table it drives
    and `tonight`, the session it believes is in progress. Each coroutine the
    view model launches is one atomic transition on that state. */
module SleepTracker {
  import opened Entity
  import opened SleepDatabaseDao

  /** The open-session test: a night that has not been stopped yet still has
      its end time equal to its start time. */
  predicate IsOpen(n: SleepNight)
  {
    n.endTimeMilli == n.startTimeMilli
  }

  /** The database together with the view model's `tonight`. */
  datatype Session = Session(table: Table, tonight: Option<SleepNight>)

  /** `tonight` is absent or is the newest row as stored. */
  predicate Coherent(s: Session)
  {
    s.tonight.None? || s.tonight == GetTonight(s.table)
  }

  /** Kotlin's `night?.endTimeMilli`: the end time of a nullable night. */
  function EndOf(night: Option<SleepNight>): Option<int>
  {
    match night
    case None => None
    case Some(n) => Some(n.endTimeMilli)
  }

  /** Kotlin's `night?.startTimeMilli`. */
  function StartOf(night: Option<SleepNight>): Option<int>
  {
    match night
    case None => None
    case Some(n) => Some(n.startTimeMilli)
  }

  /** `getTonightFromDatabase()`: the newest row when it is still open,
      otherwise nothing. An empty table passes the null-safe comparison
      (both sides are null) and yields nothing as well. */
  function GetTonightFromDatabase(t: Table): (r: Option<SleepNight>)
    ensures r.Some? <==> |t| > 0 && IsOpen(GetTonight(t).value)
    ensures r.Some? ==> r == GetTonight(t)
  {
    var night := GetTonight(t);
    if EndOf(night) != StartOf(night) then None else night
  }

  /** The view model's `init` block: `tonight` is derived from the table. */
  function InitializeTonight(t: Table): (s: Session)
    ensures s.table == t
    ensures Coherent(s)
    ensures s.tonight.Some? ==> IsOpen(s.tonight.value)
    ensures |t| > 0 && IsOpen(GetTonight(t).value) ==> s.tonight.Some?
  {
    Session(t, GetTonightFromDatabase(t))
  }

  /** The night `SleepNight()` builds at `now` once the store has given it
      the key `id`: its start and end are both `now`. */
  function NewNight(id: int, now: int, quality: int): (n: SleepNight)
    ensures n.nightId == id && IsOpen(n) && n.startTimeMilli == now
    ensures n.sleepQuality == quality
  {
    SleepNight(id, now, now, quality)
  }

  /** `onStartTracking()`: inserts a fresh open night, whatever `tonight`
      holds, then re-derives `tonight` from the table. `id` is the key the
      store assigns and `quality` the entity's default rating; the insert
      fails only when `id` is already taken. */
  function OnStartTracking(s: Session, now: int, id: int, quality: int): (r: Result<Session>)
    ensures r.Err? <==> id in Ids(s.table)
    ensures r.Ok? ==> |r.value.table| == |s.table| + 1
    ensures r.Ok? ==> Get(r.value.table, id) == Some(NewNight(id, now, quality))
    ensures r.Ok? ==> forall key :: key != id ==> Get(r.value.table, key) == Get(s.table, key)
    ensures r.Ok? ==> Coherent(r.value)
    ensures (forall key :: key in Ids(s.table) ==> key < id) ==>
      r.Ok? && r.value.tonight == Some(NewNight(id, now, quality))
  {
    var newNight := NewNight(id, now, quality);
    match Insert(s.table, newNight)
    case Err(e) => Err(e)
    case Ok(t) =>
      NewestAfterInsert(s.table, t, newNight);
      Ok(Session(t, GetTonightFromDatabase(t)))
  }

  /** After inserting a night whose key exceeds every key present, that
      night is the newest row. */
  lemma NewestAfterInsert(before: Table, after: Table, n: SleepNight)
    requires |after| == |before| + 1
    requires forall i :: 0 <= i < |before| ==> after[i] == before[i]
    requires Get(after, n.nightId) == Some(n)
    ensures (forall key :: key in Ids(before) ==> key < n.nightId) ==>
      GetTonight(after) == Some(n)
  {
    if forall key :: key in Ids(before) ==> key < n.nightId {
      forall i | 0 <= i < |before|
        ensures after[i].nightId < n.nightId
      {
        assert before[i].nightId in Ids(before);
      }
      var j :| 0 <= j < |after| && after[j] == n;
      assert j == |before|;
      TonightIsTheMaxRow(after, j);
    }
  }

  /** `onStopTracking()`: does nothing without a `tonight`. Otherwise it
      sets tonight's end time to `now` in place, so `tonight` keeps the same
      night with the new end time, and writes that night back. */
  function OnStopTracking(s: Session, now: int): (r: Session)
    ensures s.tonight.None? ==> r == s
    ensures s.tonight.Some? ==>
      && r.tonight.Some?
      && r.tonight.value.nightId == s.tonight.value.nightId
      && r.tonight.value.startTimeMilli == s.tonight.value.startTimeMilli
      && r.tonight.value.sleepQuality == s.tonight.value.sleepQuality
      && r.tonight.value.endTimeMilli == now
    ensures |r.table| == |s.table| && Ids(r.table) == Ids(s.table)
    ensures s.tonight.Some? ==> forall key :: key != s.tonight.value.nightId ==>
      Get(r.table, key) == Get(s.table, key)
    ensures s.tonight.Some? && s.tonight.value.nightId in Ids(s.table) ==>
      Get(r.table, s.tonight.value.nightId) == r.tonight
  {
    match s.tonight
    case None => s
    case Some(oldNight) =>
      var stopped := oldNight.(endTimeMilli := now);
      Session(Update(s.table, stopped), Some(stopped))
  }

  /** `onClear()`: empties the table and forgets `tonight`. */
  function OnClear(s: Session): (r: Session)
    ensures r.tonight.None?
    ensures |r.table| == 0 && AllNights(r.table) == [] && GetTonight(r.table).None?
  {
    Session(Clear(), None)
  }

  // ---------------------------------------------------------------------
  // Stopping touches one field of one row

  /** In a coherent session, stopping rewrites only the end time of the row
      `tonight` names: every other field of that row and every other row
      stay as they were. */
  lemma StopOnlyChangesEndTime(s: Session, now: int)
    requires Coherent(s) && s.tonight.Some?
    ensures |OnStopTracking(s, now).table| == |s.table|
    ensures forall i :: 0 <= i < |s.table| ==>
      OnStopTracking(s, now).table[i] ==
        if s.table[i].nightId == s.tonight.value.nightId
        then s.table[i].(endTimeMilli := now)
        else s.table[i]
  {
    assert s.tonight.value in s.table;
  }

  /** Stopping keeps `tonight` naming the newest row, which now carries the
      new end time. */
  lemma StopKeepsCoherent(s: Session, now: int)
    requires Coherent(s)
    ensures Coherent(OnStopTracking(s, now))
  {
  }

  // ---------------------------------------------------------------------
  // Every reachable session is coherent

  /** The button handlers of the tracker screen, with the inputs the model
      takes as parameters: the clock reading, the key the store assigns and
      the entity's default quality. */
  datatype Command =
    | StartTracking(now: int, id: int, quality: int)
    | StopTracking(now: int)
    | ClearAll

  /** One handler run to completion. */
  function Step(s: Session, c: Command): Result<Session>
  {
    match c
    case StartTracking(now, id, quality) => OnStartTracking(s, now, id, quality)
    case StopTracking(now) => Ok(OnStopTracking(s, now))
    case ClearAll => Ok(OnClear(s))
  }

  /** Handlers run one after another; the first failing insert ends the
      run. */
  function Replay(s: Session, cs: seq<Command>): Result<Session>
    decreases |cs|
  {
    if |cs| == 0 then Ok(s)
    else
      match Step(s, cs[0])
      case Err(e) => Err(e)
      case Ok(s') => Replay(s', cs[1..])
  }

  /** Each handler keeps `tonight` coherent with the table. */
  lemma StepKeepsCoherent(s: Session, c: Command)
    requires Coherent(s)
    ensures Step(s, c).Ok? ==> Coherent(Step(s, c).value)
  {
  }

  /** Whatever the handlers do, in whatever order, `tonight` stays either
      absent or the newest row of the table. */
  lemma {:induction false} ReplayKeepsCoherent(s: Session, cs: seq<Command>)
    requires Coherent(s)
    ensures Replay(s, cs).Ok? ==> Coherent(Replay(s, cs).value)
    decreases |cs|
  {
    if |cs| > 0 {
      StepKeepsCoherent(s, cs[0]);
      if Step(s, cs[0]).Ok? {
        ReplayKeepsCoherent(Step(s, cs[0]).value, cs[1..]);
      }
    }
  }

  /** From the view model's construction on, `tonight` is always absent or
      the newest row of the table. */
  lemma ReachableIsCoherent(t: Table, cs: seq<Command>)
    ensures Replay(InitializeTonight(t), cs).Ok? ==> Coherent(Replay(InitializeTonight(t), cs).value)
  {
    ReplayKeepsCoherent(InitializeTonight(t), cs);
  }

  // ---------------------------------------------------------------------
  // Consequences of the missing guards

  /** Starting while a session is open inserts a second open night: the
      night `tonight` named stays in the table, still open, and `tonight`
      moves to the new night. Nothing keeps at most one session open. */
  lemma StartWhileTrackingOpensSecondSession(s: Session, now: int, id: int, quality: int)
    requires Coherent(s) && s.tonight.Some? && IsOpen(s.tonight.value)
    requires forall key :: key in Ids(s.table) ==> key < id
    ensures OnStartTracking(s, now, id, quality).Ok?
    ensures Get(OnStartTracking(s, now, id, quality).value.table, s.tonight.value.nightId) == s.tonight
    ensures OnStartTracking(s, now, id, quality).value.tonight == Some(NewNight(id, now, quality))
    ensures s.tonight.value.nightId != id
  {
  }

  /** Stopping twice keeps only the second end time: `tonight` is not
      cleared by the first stop, so the second one rewrites the same row. */
  lemma StopTwiceRewritesEndTime(s: Session, first: int, second: int)
    requires Coherent(s) && s.tonight.Some?
    ensures OnStopTracking(OnStopTracking(s, first), second).tonight.value.endTimeMilli == second
    ensures Get(OnStopTracking(OnStopTracking(s, first), second).table, s.tonight.value.nightId)
      == OnStopTracking(OnStopTracking(s, first), second).tonight
  {
  }

  /** On a table of one night, initialization resumes that night exactly
      when it is still open. */
  lemma InitializeOnSingleNight(n: SleepNight)
    ensures InitializeTonight([n]).tonight == (if IsOpen(n) then Some(n) else None)
  {
  }

  /** Only the newest row is examined: an older open night under a newer
      closed one is never resumed. */
  lemma OlderOpenNightIsNotResumed(older: SleepNight, newer: SleepNight)
    requires older.nightId < newer.nightId
    requires IsOpen(older) && !IsOpen(newer)
    ensures UniqueIds([older, newer])
    ensures InitializeTonight([older, newer]).tonight == None
  {
  }

  /** One open night at 1000 ms is resumed, stopped at 2000 ms (and kept as
      `tonight`, now closed), after which a start inserts a second night
      that becomes `tonight`. */
  lemma StopThenStartScenario(quality: int)
    ensures InitializeTonight([SleepNight(1, 1000, 1000, quality)]).tonight
      == Some(SleepNight(1, 1000, 1000, quality))
    ensures OnStopTracking(InitializeTonight([SleepNight(1, 1000, 1000, quality)]), 2000)
      == Session([SleepNight(1, 1000, 2000, quality)], Some(SleepNight(1, 1000, 2000, quality)))
    ensures OnStartTracking(Session([SleepNight(1, 1000, 2000, quality)],
                                    Some(SleepNight(1, 1000, 2000, quality))), 3000, 2, quality)
      == Ok(Session([SleepNight(1, 1000, 2000, quality), SleepNight(2, 3000, 3000, quality)],
                    Some(SleepNight(2, 3000, 3000, quality))))
  {
    var a := SleepNight(1, 1000, 1000, quality);
    InitializeOnSingleNight(a);
    var closed: Table := [a.(endTimeMilli := 2000)];
    assert Overwrite([a], a.(endTimeMilli := 2000)) == closed;
    var s1 := Session(closed, Some(a.(endTimeMilli := 2000)));
    assert Ids(closed) == {1};
    var r := OnStartTracking(s1, 3000, 2, quality);
    assert r.value.table == closed + [NewNight(2, 3000, quality)];
    assert r.value.tonight == Some(NewNight(2, 3000, quality));
    assert closed + [NewNight(2, 3000, quality)]
      == [SleepNight(1, 1000, 2000, quality), SleepNight(2, 3000, 3000, quality)];
    assert r == Ok(r.value);
  }
}
