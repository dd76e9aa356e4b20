/** Vocabulary shared by every module: optional values, results, timestamps
    and the errors the services raise. */
module Common {

  datatype Option<T> = None | Some(value: T)

  /** The outcome of an operation that may raise: `Err` carries what was raised. */
  datatype Result<T, E> = Ok(value: T) | Err(error: E)

  /** What the services raise: HTTP 404, HTTP 403, or the database's refusal
      of a row (a foreign key naming no row, a duplicate primary key). */
  datatype ServiceError = NotFound | Forbidden | IntegrityError

  datatype Unit = Unit

  /** A naive datetime, as whole seconds since 0001-01-01 00:00:00. */
  type DateTime = int

  /** A calendar date, as a day number (0 is 0001-01-01). */
  type Date = int

  const SecondsPerDay: int := 86400

  /** `datetime.max` (9999-12-31 23:59:59), to the second. */
  const DateTimeMax: DateTime := 315537897599

  /** `datetime.date()`: the day a timestamp falls on. */
  function DayOf(t: DateTime): (d: Date)
    ensures d * SecondsPerDay <= t < d * SecondsPerDay + SecondsPerDay
  {
    t / SecondsPerDay
  }

  function Min(a: int, b: int): int { if a <= b then a else b }
}
