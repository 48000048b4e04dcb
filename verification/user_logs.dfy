/**
 * `getUserLogs` (GET /api/users/:_id/logs?from=&to=&limit=): resolve the bounds from
 * the raw query text, look the user up, run the exercise query, map the records to
 * log entries and choose which optional keys the response carries.
 *
 * A valid `from` or `to` is kept as its raw text.  That text is the query bound,
 * which Mongoose casts with `lib.ToDate`, and the same text, re-parsed with
 * `new Date(...)` (also `lib.ToDate`), is what the response displays.
 */
module UserLogs {
  import opened Wrappers
  import opened Host
  import opened UserModel
  import opened ExerciseModel
  import opened LogSelection
  import opened Errors

  /** `req.query`: each parameter is absent or present as text, possibly empty. */
  datatype LogQuery = LogQuery(from: Option<string>, to: Option<string>, limit: Option<string>)

  /** A resolved date bound: the raw text of an accepted parameter, or a sentinel `Date`. */
  datatype Bound = Raw(text: string) | Sentinel(at: Instant)

  datatype Bounds = Bounds(from: Bound, fromWasValid: bool, to: Bound, toWasValid: bool, limit: nat)

  /** A parameter the controller keeps: present, not empty, and accepted by the date validator. */
  predicate Accepted(param: Option<string>, lib: Lib) {
    param.Some? && param.value != "" && lib.ValidDateText(param.value)
  }

  /** The instant a bound stands for, both in the query and in `new Date(bound)`. */
  function BoundInstant(b: Bound, lib: Lib): Instant {
    match b
    case Raw(text) => lib.ToDate(text)
    case Sentinel(at) => at
  }

  /** `new Date(bound).toDateString()`. */
  function Display(b: Bound, lib: Lib): string {
    lib.Render(BoundInstant(b, lib))
  }

  /**
   * `Number(req.query.limit) || 0`: absent text gives NaN and empty text gives 0,
   * and NaN and 0 both fall back to 0.
   */
  function ParseLimit(text: Option<string>, lib: Lib): (n: nat)
    ensures text.None? || text == Some("") ==> n == 0
    ensures text.Some? && text.value != "" && lib.number(text.value).None? ==> n == 0
    ensures text.Some? && text.value != "" && lib.number(text.value).Some? ==> n == lib.number(text.value).value
  {
    match text
    case None => 0
    case Some(t) => if t == "" then 0 else lib.number(t).GetOr(0)
  }

  /**
   * Bound resolution: a parameter that is absent, empty or rejected by the
   * validator falls back to a sentinel (`new Date(0)` for `from`, `now` for `to`)
   * and is flagged as not valid; an accepted parameter is kept as its raw text.
   */
  function ResolveBounds(q: LogQuery, now: Instant, lib: Lib): (b: Bounds)
    ensures b.fromWasValid <==> Accepted(q.from, lib)
    ensures b.toWasValid <==> Accepted(q.to, lib)
    ensures b.fromWasValid ==> b.from == Raw(q.from.value) && BoundInstant(b.from, lib) == lib.ToDate(q.from.value)
    ensures !b.fromWasValid ==> b.from == Sentinel(Epoch) && BoundInstant(b.from, lib) == Epoch
    ensures b.toWasValid ==> b.to == Raw(q.to.value) && BoundInstant(b.to, lib) == lib.ToDate(q.to.value)
    ensures !b.toWasValid ==> b.to == Sentinel(now) && BoundInstant(b.to, lib) == now
    ensures b.limit == ParseLimit(q.limit, lib)
  {
    var fromIsValid := Accepted(q.from, lib);
    var toIsValid := Accepted(q.to, lib);
    Bounds(
      if fromIsValid then Raw(q.from.value) else Sentinel(Epoch), fromIsValid,
      if toIsValid then Raw(q.to.value) else Sentinel(now), toIsValid,
      ParseLimit(q.limit, lib))
  }

  /** One element of the response's `log`. */
  datatype LogEntry = LogEntry(description: string, duration: int, date: string)

  function ToEntry(e: Exercise, lib: Lib): LogEntry {
    LogEntry(e.description, e.duration, lib.Render(e.date))
  }

  /**
   * The `exercises.map(...)` step: one entry per document, in the same order, with
   * the document's description and duration and its date rendered as text.
   */
  function Pretty(selected: seq<Exercise>, lib: Lib): (log: seq<LogEntry>)
    ensures |log| == |selected|
    ensures forall i :: 0 <= i < |log| ==>
      log[i].description == selected[i].description && log[i].duration == selected[i].duration
      && log[i].date == lib.Render(selected[i].date)
  {
    seq(|selected|, i requires 0 <= i < |selected| => ToEntry(selected[i], lib))
  }

  /** The JSON body of a successful log request; `from` and `to` are the optional keys. */
  datatype LogResponse = LogResponse(
    id: Id, username: string, from: Option<string>, to: Option<string>, count: nat, log: seq<LogEntry>)

  function Keys(r: LogResponse): set<string> {
    {"_id", "username", "count", "log"}
      + (if r.from.Some? then {"from"} else {})
      + (if r.to.Some? then {"to"} else {})
  }

  /**
   * The eight-branch chain that picks the response's keys, branch for branch.  Every
   * branch names the user and passes `count` and `log` through, and a `from` or `to`
   * it includes displays the resolved bound; which of the two it includes is
   * `ShapeIsTable`'s business.
   */
  function ShapeAsWritten(q: LogQuery, b: Bounds, user: User, count: nat, log: seq<LogEntry>, lib: Lib): (r: LogResponse)
    ensures r.id == user.id && r.username == user.username && r.count == count && r.log == log
    ensures r.from.Some? ==> q.from.Some? && b.fromWasValid && r.from.value == Display(b.from, lib)
    ensures r.to.Some? ==> q.to.Some? && b.toWasValid && r.to.value == Display(b.to, lib)
  {
    var hasFrom, hasTo, hasLimit := q.from.Some?, q.to.Some?, q.limit.Some?;
    var from, to := Display(b.from, lib), Display(b.to, lib);
    if hasFrom && b.fromWasValid && hasTo && b.toWasValid && hasLimit then
      LogResponse(user.id, user.username, Some(from), Some(to), count, log)
    else if hasFrom && b.fromWasValid && hasTo && b.toWasValid then
      LogResponse(user.id, user.username, Some(from), Some(to), count, log)
    else if hasFrom && b.fromWasValid && hasLimit then
      LogResponse(user.id, user.username, Some(from), None, count, log)
    else if hasTo && b.toWasValid && hasLimit then
      LogResponse(user.id, user.username, None, Some(to), count, log)
    else if hasFrom && b.fromWasValid then
      LogResponse(user.id, user.username, Some(from), None, count, log)
    else if hasTo && b.toWasValid then
      LogResponse(user.id, user.username, None, Some(to), count, log)
    else if hasLimit then
      LogResponse(user.id, user.username, None, None, count, log)
    else
      LogResponse(user.id, user.username, None, None, count, log)
  }

  /** The two-by-two table: `from` appears when it was supplied and valid, and `to` likewise. */
  function ShapeByTable(showFrom: bool, showTo: bool, b: Bounds, user: User, count: nat, log: seq<LogEntry>, lib: Lib): LogResponse {
    LogResponse(user.id, user.username,
      if showFrom then Some(Display(b.from, lib)) else None,
      if showTo then Some(Display(b.to, lib)) else None,
      count, log)
  }

  /** The eight branches collapse to the table, and the `limit` key plays no part in it. */
  lemma ShapeIsTable(q: LogQuery, b: Bounds, user: User, count: nat, log: seq<LogEntry>, lib: Lib)
    ensures ShapeAsWritten(q, b, user, count, log, lib)
         == ShapeByTable(q.from.Some? && b.fromWasValid, q.to.Some? && b.toWasValid, b, user, count, log, lib)
    ensures ShapeAsWritten(q, b, user, count, log, lib)
         == ShapeAsWritten(q.(limit := None), b, user, count, log, lib)
  {
  }

  /** The lower bound the exercise query should use: the accepted date, else the epoch. */
  function LowerBound(q: LogQuery, lib: Lib): Instant {
    if Accepted(q.from, lib) then lib.ToDate(q.from.value) else Epoch
  }

  /** The upper bound the exercise query should use: the accepted date, else `now`. */
  function UpperBound(q: LogQuery, now: Instant, lib: Lib): Instant {
    if Accepted(q.to, lib) then lib.ToDate(q.to.value) else now
  }

  /** The documents the exercise query returns for this request. */
  function Selected(exercises: seq<Exercise>, userId: Id, q: LogQuery, now: Instant, lib: Lib): seq<Exercise> {
    Select(exercises, userId, LowerBound(q, lib), UpperBound(q, now, lib), ParseLimit(q.limit, lib))
  }

  /**
   * The handler.  An unknown user fails before the exercises are consulted; an
   * empty selection fails; otherwise `count` is the number of log entries, the
   * response names the user, and `from`/`to` appear exactly when they were
   * supplied and valid, displaying the instant the query used.
   */
  function GetUserLogs(users: seq<User>, exercises: seq<Exercise>, userId: Id, q: LogQuery, now: Instant, lib: Lib)
    : (r: Result<LogResponse, ApiError>)
    ensures r == Failure(NoSuchUser(userId)) <==> forall u :: u in users ==> u.id != userId
    ensures r == Failure(NoExercises) <==>
      (exists u :: u in users && u.id == userId)
      && forall e :: e in exercises ==> !InRange(e, userId, LowerBound(q, lib), UpperBound(q, now, lib))
    ensures r.Failure? ==> r.error in {NoSuchUser(userId), NoExercises}
    ensures r.Success? ==> r.value.id == userId && exists u :: u in users && u.id == userId && u.username == r.value.username
    ensures r.Success? ==> 0 < r.value.count == |r.value.log|
    ensures r.Success? ==> r.value.log == Pretty(Selected(exercises, userId, q, now, lib), lib)
    ensures r.Success? && ParseLimit(q.limit, lib) > 0 ==> r.value.count <= ParseLimit(q.limit, lib)
    ensures r.Success? ==> (r.value.from.Some? <==> Accepted(q.from, lib))
    ensures r.Success? ==> (r.value.to.Some? <==> Accepted(q.to, lib))
    ensures r.Success? && r.value.from.Some? ==> r.value.from.value == lib.Render(LowerBound(q, lib))
    ensures r.Success? && r.value.to.Some? ==> r.value.to.value == lib.Render(UpperBound(q, now, lib))
  {
    var b := ResolveBounds(q, now, lib);
    match FindUser(users, userId)
    case None => Failure(NoSuchUser(userId))
    case Some(user) =>
      var lo, hi := BoundInstant(b.from, lib), BoundInstant(b.to, lib);
      var exercisesFound := Select(exercises, userId, lo, hi, b.limit);
      SelectEmptyIff(exercises, userId, lo, hi, b.limit);
      SelectSound(exercises, userId, lo, hi, b.limit);
      if |exercisesFound| == 0 then Failure(NoExercises)
      else
        var count := |exercisesFound|;
        var log := Pretty(exercisesFound, lib);
        ShapeIsTable(q, b, user, count, log, lib);
        Success(ShapeAsWritten(q, b, user, count, log, lib))
  }

  /**
   * The response always has `_id`, `username`, `count` and `log`; it has `from`
   * exactly when `from` was supplied and valid, and `to` likewise.
   */
  lemma {:induction false} ResponseKeys(users: seq<User>, exercises: seq<Exercise>, userId: Id, q: LogQuery, now: Instant, lib: Lib)
    ensures var r := GetUserLogs(users, exercises, userId, q, now, lib);
      r.Success? ==>
        Keys(r.value) == {"_id", "username", "count", "log"}
                         + (if Accepted(q.from, lib) then {"from"} else {})
                         + (if Accepted(q.to, lib) then {"to"} else {})
  {
  }

  /**
   * Whether `limit` is given, and what it says, never changes whether the request
   * succeeds nor which keys the response has nor what `from` and `to` display.
   */
  lemma {:induction false} LimitNeverChangesKeys(users: seq<User>, exercises: seq<Exercise>, userId: Id, q: LogQuery,
                              limit: Option<string>, now: Instant, lib: Lib)
    ensures var r, r' := GetUserLogs(users, exercises, userId, q, now, lib),
                         GetUserLogs(users, exercises, userId, q.(limit := limit), now, lib);
      && r.Success? == r'.Success?
      && (r.Failure? ==> r.error == r'.error)
      && (r.Success? ==> r.value.id == r'.value.id && r.value.username == r'.value.username
                         && r.value.from == r'.value.from && r.value.to == r'.value.to)
  {
    var q' := q.(limit := limit);
    assert LowerBound(q', lib) == LowerBound(q, lib) && UpperBound(q', now, lib) == UpperBound(q, now, lib);
    var r, r' := GetUserLogs(users, exercises, userId, q, now, lib), GetUserLogs(users, exercises, userId, q', now, lib);
    if r.Success? && r'.Success? {
      var user := FindUser(users, userId).value;
      assert r.value.username == user.username;
      assert r'.value.username == user.username;
    }
  }

  /** An unknown user fails the same way whatever the exercise collection holds. */
  lemma {:induction false} UnknownUserIgnoresExercises(users: seq<User>, exercises: seq<Exercise>, others: seq<Exercise>,
                                    userId: Id, q: LogQuery, now: Instant, lib: Lib)
    requires forall u :: u in users ==> u.id != userId
    ensures GetUserLogs(users, exercises, userId, q, now, lib) == Failure(NoSuchUser(userId))
    ensures GetUserLogs(users, others, userId, q, now, lib) == Failure(NoSuchUser(userId))
  {
  }

  /**
   * A successful log is the query's selection mapped entry by entry in the same
   * order: the user's exercises within the bounds, newest first, at most `limit`
   * of them when `limit` is positive.
   */
  lemma {:induction false} LogIsSelection(users: seq<User>, exercises: seq<Exercise>, userId: Id, q: LogQuery, now: Instant, lib: Lib)
    ensures var r, sel := GetUserLogs(users, exercises, userId, q, now, lib), Selected(exercises, userId, q, now, lib);
      r.Success? ==> var log := r.value.log;
      && |log| == |sel|
      && (forall i :: 0 <= i < |sel| ==> log[i] == LogEntry(sel[i].description, sel[i].duration, lib.Render(sel[i].date)))
      && (forall i :: 0 <= i < |sel| ==> sel[i].user == Some(userId)
                                         && LowerBound(q, lib) <= sel[i].date <= UpperBound(q, now, lib))
      && (forall i, j :: 0 <= i < j < |sel| ==> sel[i].date >= sel[j].date)
      && (ParseLimit(q.limit, lib) > 0 ==> |sel| <= ParseLimit(q.limit, lib))
  {
    var r := GetUserLogs(users, exercises, userId, q, now, lib);
    if r.Success? {
      var lo, hi, n := LowerBound(q, lib), UpperBound(q, now, lib), ParseLimit(q.limit, lib);
      var sel := Selected(exercises, userId, q, now, lib);
      assert sel == Select(exercises, userId, lo, hi, n);
      SelectSound(exercises, userId, lo, hi, n);
      forall i | 0 <= i < |sel| ensures sel[i].user == Some(userId) && lo <= sel[i].date <= hi {
        assert InRange(sel[i], userId, lo, hi);
      }
      var log := r.value.log;
      assert log == Pretty(sel, lib);
      forall i | 0 <= i < |sel|
        ensures log[i] == LogEntry(sel[i].description, sel[i].duration, lib.Render(sel[i].date))
      {
        assert log[i] == ToEntry(sel[i], lib);
      }
    }
  }

  /**
   * A failed log request answers with the handler's own text: the unknown-id
   * message when no user has the id, else the no-exercises message.
   */
  lemma {:induction false} LogFailureMessage(users: seq<User>, exercises: seq<Exercise>, userId: Id, q: LogQuery,
                                             now: Instant, lib: Lib, idText: Id -> string)
    ensures var r := GetUserLogs(users, exercises, userId, q, now, lib);
      r.Failure? ==>
        Message(r.error, idText) == if forall u :: u in users ==> u.id != userId
                                    then Some("No user with _id " + idText(userId) + " exists.")
                                    else Some("User has not added any exercises")
  {
  }

  /**
   * A worked request: "alice" logged a run on 2024-01-01 and a swim on 2024-01-10;
   * asking from 2024-01-05 to 2024-01-31 returns the swim alone, with both bounds
   * echoed.  Instants are the UTC midnights of those days.
   */
  lemma {:induction false} TwoExercisesOneInRange(lib: Lib)
    requires lib.ValidDateText("2024-01-05") && lib.ToDate("2024-01-05") == 1704412800000
    requires lib.ValidDateText("2024-01-31") && lib.ToDate("2024-01-31") == 1706659200000
    ensures var users := [User(0, "alice", Some(2))];
      var exercises := [Exercise(1, Some(0), "run", 30, 1704067200000), Exercise(2, Some(0), "swim", 45, 1704844800000)];
      GetUserLogs(users, exercises, 0, LogQuery(Some("2024-01-05"), Some("2024-01-31"), None), 1767225600000, lib)
      == Success(LogResponse(0, "alice", Some(lib.Render(1704412800000)), Some(lib.Render(1706659200000)),
                             1, [LogEntry("swim", 45, lib.Render(1704844800000))]))
  {
    var run, swim := Exercise(1, Some(0), "run", 30, 1704067200000), Exercise(2, Some(0), "swim", 45, 1704844800000);
    var users := [User(0, "alice", Some(2))];
    var q := LogQuery(Some("2024-01-05"), Some("2024-01-31"), None);
    var now := 1767225600000;
    var b := ResolveBounds(q, now, lib);
    assert b == Bounds(Raw("2024-01-05"), true, Raw("2024-01-31"), true, 0);
    assert Selected([run, swim], 0, q, now, lib) == [swim] by {
      assert LowerBound(q, lib) == 1704412800000 && UpperBound(q, now, lib) == 1706659200000;
      SwimSelected(run, swim);
    }
    assert FindUser(users, 0) == Some(users[0]);
    var log := Pretty([swim], lib);
    assert log == [LogEntry("swim", 45, lib.Render(1704844800000))] by {
      assert log[0] == ToEntry(swim, lib);
    }
    ShapeIsTable(q, b, users[0], 1, log, lib);
  }

  /** The selection step of the worked request, with its instants written out. */
  lemma SwimSelected(run: Exercise, swim: Exercise)
    requires run == Exercise(1, Some(0), "run", 30, 1704067200000)
    requires swim == Exercise(2, Some(0), "swim", 45, 1704844800000)
    ensures Select([run, swim], 0, 1704412800000, 1706659200000, 0) == [swim]
  {
    assert Filter([run, swim], 0, 1704412800000, 1706659200000) == [swim] by {
      assert [run, swim][1..] == [swim];
      assert [swim][1..] == [];
    }
    assert SortDesc([swim]) == [swim] by {
      assert [swim][1..] == [];
    }
  }
}
