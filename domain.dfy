/** The records the application passes between its parts. */
module Domain {
  import opened Wrappers

  /**
   * A reservation target: the object `{court, date, time, hours, start?, user_id?}` held in
   * `config.reservations` and built by the settings and schedule pages.
   * `date` is "YYYYMMDD", `time` is "HH:MM", `start` is the numeric start hour when the
   * object carries one (None when the field is absent), `userId` is "" when the field is
   * absent or empty (both are falsy in JavaScript).
   */
  datatype Reservation = Reservation(
    court: int,
    date: string,
    time: string,
    hours: int,
    start: Option<int>,
    userId: string)

  /** An account of `config.sessions`: `{user_id, user_pw}`. */
  datatype Session = Session(userId: string, userPw: string)
}
