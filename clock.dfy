/** The timed session: what `quiz` stores in the client's session when a quiz
    starts, and the deadline check `quiz_page` makes before serving the
    questions or accepting answers. Instants are whole seconds in one UTC
    frame. */
module SessionClock {

  import opened Optional

  const SecondsPerMinute: int := 60

  /** The duration used when the start form has no `duration` field. */
  const DefaultDurationMinutes: int := 10

  /** The three values `quiz` writes into the session: `user_id`,
      `quiz_start_time` and `quiz_duration`. */
  datatype Session = Session(userId: string, start: int, durationMinutes: int)

  /** `quiz` (POST): start a session now. The duration is taken as given,
      with no check that it is positive. */
  function StartQuiz(now: int, durationField: Option<int>, userId: string): (s: Session)
    ensures s.userId == userId && s.start == now
    ensures durationField.None? ==> s.durationMinutes == DefaultDurationMinutes
    ensures durationField.Some? ==> s.durationMinutes == durationField.value
  {
    var minutes := match durationField
      case None => DefaultDurationMinutes
      case Some(d) => d;
    Session(userId, now, minutes)
  }

  /** `start_time + timedelta(minutes=duration)`. */
  function Deadline(s: Session): (end: int)
    ensures end > s.start <==> s.durationMinutes > 0
    ensures (end - s.start) % SecondsPerMinute == 0
  {
    s.start + s.durationMinutes * SecondsPerMinute
  }

  /** What the guard at the top of `quiz_page` decides. */
  datatype Gate =
    | NoSession                              // no `quiz_start_time`: back to the start page
    | Expired                                // `now >= end_time`: on to the submit page
    | Open(userId: string, remaining: int)   // questions served; `end_time - now` left

  function CheckSession(session: Option<Session>, now: int): (g: Gate)
    ensures g.NoSession? <==> session.None?
    ensures g.Expired? <==> session.Some? && now >= Deadline(session.value)
    ensures g.Open? ==> g.userId == session.value.userId
                        && g.remaining > 0 && now + g.remaining == Deadline(session.value)
  {
    match session
    case None => NoSession
    case Some(s) =>
      var end := Deadline(s);
      if now >= end then Expired else Open(s.userId, end - now)
  }

  /** At the deadline itself the session is already closed; one second
      earlier it is open with one second left. */
  lemma ClosedAtDeadline(s: Session)
    ensures CheckSession(Some(s), Deadline(s)) == Expired
    ensures CheckSession(Some(s), Deadline(s) - 1) == Open(s.userId, 1)
  {
  }

  /** Once expired, a session stays expired: later instants never reopen it. */
  lemma ExpiryIsFinal(s: Session, t1: int, t2: int)
    requires t1 <= t2 && CheckSession(Some(s), t1).Expired?
    ensures CheckSession(Some(s), t2).Expired?
  {
  }

  /** A quiz started at `now` is open at `t` exactly when `t` is before
      `now` plus the chosen number of minutes; a zero or negative duration
      yields a session that is already closed when it starts. */
  lemma StartedQuizWindow(now: int, durationField: Option<int>, userId: string, t: int)
    ensures var s := StartQuiz(now, durationField, userId);
            var minutes := if durationField.Some? then durationField.value else 10;
            CheckSession(Some(s), t).Open? <==> t < now + minutes * 60
    ensures var s := StartQuiz(now, durationField, userId);
            s.durationMinutes <= 0 && t >= now ==> CheckSession(Some(s), t) == Expired
  {
  }

  /** A one-minute session is open 59 seconds after its start and closed 61
      seconds after it. */
  lemma OneMinuteBoundary(userId: string, start: int)
    ensures CheckSession(Some(Session(userId, start, 1)), start + 59) == Open(userId, 1)
    ensures CheckSession(Some(Session(userId, start, 1)), start + 61) == Expired
  {
  }

}
