/**
 * The handlers of controllers/user.js that touch the store: `getAllUsers`, and
 * `createUser` and `createUserExercise`, which append to the two collections and
 * overwrite a user's single exercise link.  `getUserLogs` is in module UserLogs.
 */
module UserController {
  import opened Wrappers
  import opened Host
  import opened UserModel
  import opened ExerciseModel
  import opened Errors

  /** One element of `User.find({}).select('username _id')`. */
  datatype UserSummary = UserSummary(username: string, id: Id)

  /** `getAllUsers`: every stored user's name and id, in store order; an empty store is an error. */
  function GetAllUsers(users: seq<User>): (r: Result<seq<UserSummary>, ApiError>)
    ensures r.Failure? <==> |users| == 0
    ensures r.Failure? ==> r.error == NoUsersExist
    ensures r.Success? ==> |r.value| == |users|
    ensures r.Success? ==> forall i :: 0 <= i < |users| ==> r.value[i] == UserSummary(users[i].username, users[i].id)
  {
    if |users| == 0 then Failure(NoUsersExist)
    else Success(seq(|users|, i requires 0 <= i < |users| => UserSummary(users[i].username, users[i].id)))
  }

  /** The body `createUser` answers with. */
  datatype UserCreated = UserCreated(username: string, id: Id)

  /** The body `createUserExercise` answers with: the user and the exercise it now links to. */
  datatype ExerciseCreated = ExerciseCreated(id: Id, username: string, date: string, duration: int, description: string)

  /** The date `createUserExercise` stores: absent or empty text means `now`, other text is parsed. */
  function ExerciseDate(date: Option<string>, now: Instant, lib: Lib): (t: Instant)
    ensures date.None? || date == Some("") ==> t == now
    ensures date.Some? && date.value != "" ==> t == lib.ToDate(date.value)
  {
    if date.None? || date.value == "" then now else lib.ToDate(date.value)
  }

  /**
   * Every document satisfies its schema, ids are below `nextId` and unique within
   * their collection, and every user's exercise link resolves to a stored exercise.
   */
  ghost predicate Consistent(users: seq<User>, exercises: seq<Exercise>, nextId: Id) {
    && (forall i :: 0 <= i < |users| ==> ValidUser(users[i]) && users[i].id < nextId)
    && (forall i :: 0 <= i < |exercises| ==> ValidExercise(exercises[i]) && exercises[i].id < nextId)
    && (forall i, j :: 0 <= i < j < |users| ==> users[i].id != users[j].id)
    && (forall i, j :: 0 <= i < j < |exercises| ==> exercises[i].id != exercises[j].id)
    && (forall i :: 0 <= i < |users| && users[i].exercise.Some? ==> FindExercise(exercises, users[i].exercise.value).Some?)
  }

  /** Appending a schema-valid user with no link under the next id keeps the store consistent. */
  lemma AddUserKeepsConsistent(users: seq<User>, exercises: seq<Exercise>, nextId: Id, u: User)
    requires Consistent(users, exercises, nextId)
    requires ValidUser(u) && u.id == nextId && u.exercise.None?
    ensures Consistent(users + [u], exercises, nextId + 1)
  {
  }

  /** Appending a schema-valid exercise under the next id keeps the store consistent. */
  lemma AddExerciseKeepsConsistent(users: seq<User>, exercises: seq<Exercise>, nextId: Id, e: Exercise)
    requires Consistent(users, exercises, nextId)
    requires ValidExercise(e) && e.id == nextId
    ensures Consistent(users, exercises + [e], nextId + 1)
    ensures FindExercise(exercises + [e], e.id) == Some(e)
  {
    forall x | x in exercises ensures x.id != e.id {
      var k :| 0 <= k < |exercises| && exercises[k] == x;
    }
    FindAppended(exercises, e);
    forall i | 0 <= i < |users| && users[i].exercise.Some?
      ensures FindExercise(exercises + [e], users[i].exercise.value).Some?
    {
      FindAfterAppend(exercises, e, users[i].exercise.value);
    }
  }

  /** Pointing a user's link at a stored exercise keeps the store consistent. */
  lemma {:induction false} LinkKeepsConsistent(users: seq<User>, exercises: seq<Exercise>, nextId: Id, userId: Id, eid: Id)
    requires Consistent(users, exercises, nextId)
    requires FindExercise(exercises, eid).Some?
    ensures Consistent(LinkExercise(users, userId, eid), exercises, nextId)
  {
    var users' := LinkExercise(users, userId, eid);
    forall i | 0 <= i < |users'| ensures ValidUser(users'[i]) && users'[i].id == users[i].id && users'[i].id < nextId {
    }
    forall i | 0 <= i < |users'| && users'[i].exercise.Some?
      ensures FindExercise(exercises, users'[i].exercise.value).Some?
    {
    }
  }

  /** The two collections, with the ObjectId source and the schema's date default. */
  class Store {
    var users: seq<User>
    var exercises: seq<Exercise>
    /** Every id handed out so far is below `nextId`. */
    var nextId: Id
    /** The Exercise schema's `default: new Date()`, evaluated once when the schema is defined. */
    const dateDefault: Instant

    /** The store's invariant, over its fields. */
    ghost predicate Valid()
      reads this
    {
      Consistent(users, exercises, nextId)
    }

    /** An empty database; `loadTime` is when the Exercise schema was defined. */
    constructor (loadTime: Instant)
      ensures Valid()
      ensures users == [] && exercises == [] && dateDefault == loadTime
    {
      users, exercises, nextId := [], [], 0;
      dateDefault := loadTime;
    }

    /** `User.create({ username })`: validates, then appends the document under a fresh id. */
    method InsertUser(username: Option<string>) returns (user: Option<User>)
      requires Valid()
      modifies this
      ensures Valid() && exercises == old(exercises)
      ensures user == NewUser(old(nextId), username)
      ensures users == if user.Some? then old(users) + [user.value] else old(users)
      ensures user.Some? ==> forall u :: u in old(users) ==> u.id != user.value.id
    {
      user := NewUser(nextId, username);
      if user.Some? {
        forall u | u in users ensures u.id != nextId {
          var k :| 0 <= k < |users| && users[k] == u;
        }
        AddUserKeepsConsistent(users, exercises, nextId, user.value);
        users := users + [user.value];
        nextId := nextId + 1;
      }
    }

    /** `Exercise.create(...)`: validates, then appends the document under a fresh id. */
    method InsertExercise(user: Option<Id>, description: Option<string>, duration: Option<int>, date: Option<Instant>)
      returns (exercise: Option<Exercise>)
      requires Valid()
      modifies this
      ensures Valid() && users == old(users)
      ensures exercise == NewExercise(old(nextId), user, description, duration, date, dateDefault)
      ensures exercises == if exercise.Some? then old(exercises) + [exercise.value] else old(exercises)
      ensures exercise.Some? ==> FindExercise(exercises, exercise.value.id) == exercise
    {
      exercise := NewExercise(nextId, user, description, duration, date, dateDefault);
      if exercise.Some? {
        AddExerciseKeepsConsistent(users, exercises, nextId, exercise.value);
        exercises := exercises + [exercise.value];
        nextId := nextId + 1;
      }
    }

    /**
     * `User.findByIdAndUpdate(userId, { exercise: eid }, { new: true })`: overwrites
     * the user's single link and answers with the updated user, if there is one.
     */
    method SetExerciseLink(userId: Id, eid: Id) returns (user: Option<User>)
      requires Valid()
      requires FindExercise(exercises, eid).Some?
      modifies this
      ensures Valid() && exercises == old(exercises)
      ensures users == LinkExercise(old(users), userId, eid)
      ensures user == FindUser(users, userId)
      ensures user == match FindUser(old(users), userId)
        case None => None
        case Some(u) => Some(u.(exercise := Some(eid)))
    {
      LinkKeepsConsistent(users, exercises, nextId, userId, eid);
      users := LinkExercise(users, userId, eid);
      user := FindUser(users, userId);
    }

    /**
     * `createUser`: fails when exactly one stored user has the name, fails when the
     * schema rejects the name, and otherwise appends one user with a fresh id and no
     * exercise link and answers with its name and id.
     */
    method CreateUser(username: Option<string>) returns (r: Result<UserCreated, ApiError>)
      requires Valid()
      modifies this
      ensures Valid() && exercises == old(exercises)
      ensures old(CountNamed(users, username)) == 1 ==>
        r == Failure(UserAlreadyExists) && users == old(users)
      ensures old(CountNamed(users, username)) != 1 && !AcceptableUsername(username) ==>
        r == Failure(ValidationFailed) && users == old(users)
      ensures old(CountNamed(users, username)) != 1 && AcceptableUsername(username) ==>
        && users == old(users) + [User(old(nextId), username.value, None)]
        && r == Success(UserCreated(username.value, old(nextId)))
        && forall u :: u in old(users) ==> u.id != old(nextId)
      ensures UniqueUsernames(old(users)) ==> UniqueUsernames(users)
    {
      if CountNamed(users, username) == 1 {
        return Failure(UserAlreadyExists);
      }
      if AcceptableUsername(username) && UniqueUsernames(users) {
        UserModel.AppendKeepsUnique(users, User(nextId, username.value, None));
      }
      var user := InsertUser(username);
      if user.None? {
        return Failure(ValidationFailed);
      }
      r := Success(UserCreated(user.value.username, user.value.id));
    }

    /**
     * `createUserExercise`.  The date defaults to `now`; a duration that is not a
     * number fails the query's cast; exactly one stored record with the same user,
     * description, duration and date fails as a duplicate; a document the schema
     * rejects fails.  Otherwise the exercise is appended and the user's single link
     * is overwritten with its id, and the answer echoes the new exercise.  When no
     * user has the id, the exercise stays stored, no link changes, and reading the
     * missing user fails.
     */
    method CreateUserExercise(userId: Id, description: Option<string>, duration: Option<int>, date: Option<string>,
                              now: Instant, lib: Lib) returns (r: Result<ExerciseCreated, ApiError>)
      requires Valid()
      modifies this
      ensures Valid()
      ensures duration.None? ==>
        r == Failure(ValidationFailed) && users == old(users) && exercises == old(exercises)
      ensures duration.Some? && old(CountSame(exercises, userId, description, duration.value, ExerciseDate(date, now, lib))) == 1 ==>
        r == Failure(ExerciseAlreadyExists) && users == old(users) && exercises == old(exercises)
      ensures duration.Some? && old(CountSame(exercises, userId, description, duration.value, ExerciseDate(date, now, lib))) != 1
              && !Acceptable(description, duration) ==>
        r == Failure(ValidationFailed) && users == old(users) && exercises == old(exercises)
      ensures duration.Some? && old(CountSame(exercises, userId, description, duration.value, ExerciseDate(date, now, lib))) != 1
              && Acceptable(description, duration) ==>
        var added := Exercise(old(nextId), Some(userId), description.value, duration.value, ExerciseDate(date, now, lib));
        && exercises == old(exercises) + [added]
        && users == LinkExercise(old(users), userId, added.id)
        && r == match old(FindUser(users, userId))
             case None => Failure(InternalError)
             case Some(u) => Success(ExerciseCreated(userId, u.username, lib.Render(added.date), added.duration, added.description))
      ensures UniqueKeys(old(exercises)) ==> UniqueKeys(exercises)
    {
      var when := ExerciseDate(date, now, lib);
      if duration.None? {
        return Failure(ValidationFailed);
      }
      if CountSame(exercises, userId, description, duration.value, when) == 1 {
        return Failure(ExerciseAlreadyExists);
      }
      if Acceptable(description, duration) && UniqueKeys(exercises) {
        ExerciseModel.AppendKeepsUnique(exercises, Exercise(nextId, Some(userId), description.value, duration.value, when));
      }
      var exercise := InsertExercise(Some(userId), description, duration, Some(when));
      if exercise.None? {
        return Failure(ValidationFailed);
      }
      var exerciseId := exercise.value.id;
      var updated := SetExerciseLink(userId, exerciseId);
      // `User.findById(userId).populate('exercise')`
      var userObj := FindUser(users, userId);
      if userObj.None? {
        return Failure(InternalError);
      }
      var linked := FindExercise(exercises, userObj.value.exercise.value);
      assert linked == exercise;
      r := Success(ExerciseCreated(userObj.value.id, userObj.value.username, lib.Render(linked.value.date),
                                   linked.value.duration, linked.value.description));
    }
  }
}
