/** The row type of daily_sleep_quality_table and the small wrappers the
    data-access layer returns. */
module Entity {

  /** A nullable value: Kotlin's `T?`. */
  datatype Option<+T> = None | Some(value: T)

  /** The only way a write of the data-access layer can fail in this model:
      the row's primary key is already taken (Room's default conflict
      strategy for `@Insert` aborts the statement). */
  datatype StoreError = PrimaryKeyConflict

  datatype Result<+T> = Ok(value: T) | Err(error: StoreError)

  /** One sleep session. `nightId` is the primary key. A session whose end
      time equals its start time has not been stopped yet. `sleepQuality` is
      carried through unchanged: nothing in the modelled code sets it. */
  datatype SleepNight = SleepNight(
    nightId: int,
    startTimeMilli: int,
    endTimeMilli: int,
    sleepQuality: int)
}
