# Sleep tracker: session store and tracking state machine

This project models the core of the TrackMySleepQuality sleep tracker. That core has two parts:

- **The data-access object `SleepDatabaseDao`.** It stores sleep nights in `daily_sleep_quality_table`, one row per night, keyed by `nightId`.
- **The view model `SleepTrackerViewModel`.** It keeps `tonight`, the night it believes is in progress, and drives the table from the start, stop and clear buttons.

The model has three modules:

- `Entity` (`entity.dfy`): the `SleepNight` row, with `nightId`, `startTimeMilli`, `endTimeMilli` and an opaque `sleepQuality`. It also holds the `Option` and `Result` wrappers.
- `SleepDatabaseDao` (`dao.dfy`): the table is a `Table`, a sequence of rows in which no two rows share a `nightId`. The subset type carries the primary-key constraint. The six queries are pure functions over it.
- `SleepTracker` (`tracker.dfy`): a `Session` is the pair (table, `tonight`). Each `uiScope.launch` body is one atomic transition on that pair. `Replay` replays any sequence of button presses.

The clock, the key that the store assigns on insert, and the entity's default quality are parameters: `now`, `id` and `quality`.

Three behaviours of the code are easy to miss:

- **Start has no guard.** `onStartTracking` inserts a new open night even while `tonight` is present. So two open nights can coexist, and "at most one open session" is not an invariant of the code. `StartWhileTrackingOpensSecondSession` proves this.
- **Stop does not reset `tonight`.** `onStopTracking` sets the end time on the object that `tonight` holds and writes it back. Afterwards `tonight` is still that night, now closed, and a second stop overwrites the end time again.
- **Updating an absent key does nothing.** `update` on a key with no row changes nothing and raises no error: the generated UPDATE statement matches no row and returns normally, and `update` returns `Unit`, so the caller learns nothing.

Under the model's atomic-handler assumption (see "## Left out"), every reachable state is `Coherent`: `tonight` is either absent or equal to the newest row of the table. `ReachableIsCoherent` proves that it holds after any sequence of presses, each handler run to completion before the next starts, beginning at the view model's construction.

## Model

| member | source | states |
|---|---|---|
| SleepDatabaseDao.Insert | app/src/main/java/com/example/android/trackmysleepquality/database/SleepDatabaseDao.kt:28-29 | insert succeeds exactly when the key is free. On success: one more row, existing rows untouched, `get` on the new key finds the new night, every other key answers as before |
| SleepDatabaseDao.Update | app/src/main/java/com/example/android/trackmysleepquality/database/SleepDatabaseDao.kt:31-32 | update keeps the row count and the set of keys. `get` on the night's key returns the new night if that key was present and nothing otherwise. Every other key answers as before |
| SleepDatabaseDao.OverwriteTable | app/src/main/java/com/example/android/trackmysleepquality/database/SleepDatabaseDao.kt:31-32 | overwriting rows by key keeps the primary key unique and changes the lookup of that one key only |
| SleepDatabaseDao.Get | app/src/main/java/com/example/android/trackmysleepquality/database/SleepDatabaseDao.kt:34-35 | `get(key)` is absent exactly when no row has that key; otherwise it is a stored row carrying that key |
| SleepDatabaseDao.GetIsUnique | app/src/main/java/com/example/android/trackmysleepquality/database/SleepDatabaseDao.kt:34-35 | `get` on any row's key returns exactly that row, because the key identifies a single row |
| SleepDatabaseDao.Clear | app/src/main/java/com/example/android/trackmysleepquality/database/SleepDatabaseDao.kt:37-38 | after `clear` the table has no rows, `getAllNights` is empty, `getTonight` is absent and every `get` is absent |
| SleepDatabaseDao.GetTonight | app/src/main/java/com/example/android/trackmysleepquality/database/SleepDatabaseDao.kt:44-45 | `getTonight` is absent exactly when the table is empty; otherwise it is a stored row whose key is at least every key in the table |
| SleepDatabaseDao.TonightIsTheMaxRow | app/src/main/java/com/example/android/trackmysleepquality/database/SleepDatabaseDao.kt:44-45 | any row whose key is at least every other key is the row `getTonight` returns (ORDER BY ... LIMIT 1 is deterministic) |
| SleepDatabaseDao.AllNights | app/src/main/java/com/example/android/trackmysleepquality/database/SleepDatabaseDao.kt:40-41 | `getAllNights` returns every row of the table exactly once, and nothing else (same multiset of rows) |
| SleepDatabaseDao.AllNightsOrdersTheTable | app/src/main/java/com/example/android/trackmysleepquality/database/SleepDatabaseDao.kt:40-41 | `getAllNights` is a permutation of the table's rows, ordered by key strictly descending |
| SleepDatabaseDao.DescendingOrderIsUnique | app/src/main/java/com/example/android/trackmysleepquality/database/SleepDatabaseDao.kt:40-41 | any strictly descending arrangement of the table's rows equals `getAllNights`, so ORDER BY nightId DESC fixes the result |
| SleepDatabaseDao.AllNightsStartsWithTonight | app/src/main/java/com/example/android/trackmysleepquality/database/SleepDatabaseDao.kt:40-45 | on a non-empty table the first entry of `getAllNights` is `getTonight` |
| SleepTracker.GetTonightFromDatabase | app/src/main/java/com/example/android/trackmysleepquality/sleeptracker/SleepTrackerViewModel.kt:68-77 | yields a night exactly when the table is non-empty and its newest row has end time equal to start time, and then that night is the newest row. On an empty table the null-safe comparison yields nothing |
| SleepTracker.InitializeTonight | app/src/main/java/com/example/android/trackmysleepquality/sleeptracker/SleepTrackerViewModel.kt:57-66 | initialization leaves the table alone. `tonight` is absent or an open night equal to the newest row, and it is present whenever the newest row is open |
| SleepTracker.InitializeOnSingleNight | app/src/main/java/com/example/android/trackmysleepquality/sleeptracker/SleepTrackerViewModel.kt:68-77 | with a single stored night, initialization resumes it if it is open and yields nothing if it is closed |
| SleepTracker.OlderOpenNightIsNotResumed | app/src/main/java/com/example/android/trackmysleepquality/sleeptracker/SleepTrackerViewModel.kt:71-74 | the open test looks at the newest row only: an older open night under a newer closed one leaves `tonight` absent |
| SleepTracker.NewNight | app/src/main/java/com/example/android/trackmysleepquality/sleeptracker/SleepTrackerViewModel.kt:84 | a freshly built night carries the assigned key, is open, starts at the current time and carries the default quality unchanged |
| SleepTracker.OnStartTracking | app/src/main/java/com/example/android/trackmysleepquality/sleeptracker/SleepTrackerViewModel.kt:79-97 | start fails only on a taken key. On success: exactly one row is added, it is the new open night at `now`, other keys are unchanged and `tonight` stays coherent. When the assigned key exceeds every existing key, start succeeds and `tonight` is the new night |
| SleepTracker.NewestAfterInsert | app/src/main/java/com/example/android/trackmysleepquality/sleeptracker/SleepTrackerViewModel.kt:86-88 | a night inserted with a key above every existing key becomes the newest row, so re-reading `tonight` finds it |
| SleepTracker.StartWhileTrackingOpensSecondSession | app/src/main/java/com/example/android/trackmysleepquality/sleeptracker/SleepTrackerViewModel.kt:79-90 | start has no guard: while an open night is `tonight`, start still succeeds. The earlier night stays stored and open, and `tonight` moves to the new night |
| SleepTracker.OnStopTracking | app/src/main/java/com/example/android/trackmysleepquality/sleeptracker/SleepTrackerViewModel.kt:99-115 | stop without `tonight` changes nothing. With `tonight`, it keeps the same night with end time `now` and unchanged start and quality. Rows and keys keep their number, other keys are untouched, and the stored row of that key equals the new `tonight` |
| SleepTracker.StopOnlyChangesEndTime | app/src/main/java/com/example/android/trackmysleepquality/sleeptracker/SleepTrackerViewModel.kt:102-107 | in a coherent session, stop rewrites only the end time of `tonight`'s row. Every other field and every other row are unchanged |
| SleepTracker.StopKeepsCoherent | app/src/main/java/com/example/android/trackmysleepquality/sleeptracker/SleepTrackerViewModel.kt:99-108 | after stop, `tonight` is still the newest row, now carrying the new end time |
| SleepTracker.StopTwiceRewritesEndTime | app/src/main/java/com/example/android/trackmysleepquality/sleeptracker/SleepTrackerViewModel.kt:102-107 | since stop does not reset `tonight`, a second stop rewrites the same row's end time with the second clock reading |
| SleepTracker.OnClear | app/src/main/java/com/example/android/trackmysleepquality/sleeptracker/SleepTrackerViewModel.kt:117-128 | after clear, `tonight` is absent and the table is empty, whatever the prior state |
| SleepTracker.StepKeepsCoherent | app/src/main/java/com/example/android/trackmysleepquality/sleeptracker/SleepTrackerViewModel.kt:79-122 | each button handler keeps `tonight` absent or equal to the newest row |
| SleepTracker.ReplayKeepsCoherent | app/src/main/java/com/example/android/trackmysleepquality/sleeptracker/SleepTrackerViewModel.kt:79-122 | any sequence of start, stop and clear presses keeps `tonight` absent or equal to the newest row |
| SleepTracker.ReachableIsCoherent | app/src/main/java/com/example/android/trackmysleepquality/sleeptracker/SleepTrackerViewModel.kt:57-122 | from construction on, with handlers run one at a time, `tonight` is always absent or the newest row of the table |
| SleepTracker.StopThenStartScenario | app/src/main/java/com/example/android/trackmysleepquality/sleeptracker/SleepTrackerViewModel.kt:57-108 | worked example: an open night at 1000 ms is resumed, then stopped at 2000 ms and kept as a closed `tonight`. A start at 3000 ms then inserts a second night, which becomes `tonight` |

## Left out

- Coroutines and threading (`viewModelJob`, `uiScope`, `Dispatchers.Main`/`IO`, `withContext`, cancellation in `onCleared`). Each `launch` body is modelled as one atomic, sequential step, so interleavings and cancellation are not modelled. In the program every handler suspends at `withContext(Dispatchers.IO)`, so handlers can interleave, and `Coherent` can then fail. For example, press start and then clear: start's re-read of `getTonight` can see the new row before `clear()` deletes it, and start can resume after clear has set `tonight` to null. The table is then empty while `tonight` is set. `ReachableIsCoherent` does not cover such interleavings.
- `LiveData` observation and `nightsString`. `getAllNights` is modelled as a snapshot query, not a live stream. `formatNights` is resource-based string formatting and is not part of this model. Only the current value of `tonight` is kept.
- Room code generation and the SQLite engine. The table is abstract. I/O and transaction failures are not modelled; the only store error is a primary-key conflict on insert, which is the default conflict strategy of Room's `@Insert`.
- Key assignment. `SleepNight.kt` is not part of this model, and Room's auto-generated key is not modelled. The key the store gives a new night is the parameter `id` of `OnStartTracking`. The properties that need the new night to be the newest assume that `id` exceeds every existing key.
- The clock. `System.currentTimeMillis()` and the time captured by `SleepNight()` are the parameter `now`. The entity's default quality is the parameter `quality`, carried unchanged.
- 64-bit `Long` arithmetic. Keys and times are unbounded integers. The code does no arithmetic on them, only comparisons and copies, so no wrap-around arises.
- Setting the sleep quality. The modelled code never sets it, so there is no setter.
