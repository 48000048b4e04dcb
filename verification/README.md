# Exercise tracker: a Dafny model of the user and exercise controller

The repository is a small REST API. It creates users, lists them, logs exercises
against a user, and returns a user's exercise log, filtered by a date range and
capped by a limit. This project models the controller in `controllers/user.js`
and the two Mongoose schemas it writes through (`models/User.js`,
`models/Exercise.js`). The database is an in-memory store: a class holding a
sequence of users and a sequence of exercises.

Modules, one per concern:

- `Host` (`host.dfy`): what the controller borrows from its libraries. These are
  the Joi date-format validator, `new Date(text)`, `toDateString()` and
  `Number(text)`. They form one record of total functions, `Lib`. Every
  operation that validates, parses or renders a date, or reads `limit`, takes
  `Lib` as a parameter. Every property except the worked example
  `TwoExercisesOneInRange` holds whatever `Lib` does; that example fixes what
  `Lib` says about its two date texts. Time values are integers (milliseconds
  since 1970), and `Epoch` is `new Date(0)`.
- `UserModel`, `ExerciseModel`: the records, the schema constraints as validity
  predicates, document creation (`User.create`, `Exercise.create`), and the
  lookups the controller runs (`findById`, the duplicate `find` queries,
  `findByIdAndUpdate`).
- `LogSelection`: the exercise query of `getUserLogs`. It filters by user and
  inclusive date range, sorts newest first, then keeps `limit` entries (0 keeps
  all).
- `UserLogs`: `getUserLogs` as a pure function of the store's contents. It
  resolves the bounds from the raw query text, then applies the two error cases,
  the log mapping and the response-key table.
- `UserController`: `getAllUsers`, plus the class `Store` whose methods
  `CreateUser` and `CreateUserExercise` append to the collections. The
  exercise handler also overwrites a user's single exercise link.
- `Errors`, `Wrappers`: the error taxonomy with its messages, and `Option`/`Result`.

Behaviour of `controllers/user.js` that the model keeps:

- `getUserLogs` keeps a valid `from`/`to` as the raw query text, not as a parsed
  date (controllers/user.js:98-112). That text is the query bound, cast by
  Mongoose (lines 118-121). Re-parsed with `new Date(...)`, the same text is
  what the response displays (lines 146-198). Both uses go through the one
  function `Lib.ToDate`.
- `getUserLogs` reads `limit` as `Number(text) || 0` (line 101). Absent, empty,
  NaN and zero all give 0, and `.limit(0)` sets no cap.
- `createUserExercise` overwrites the user's `exercise` link with the new
  exercise's id (controllers/user.js:71-75).
- Both duplicate checks fire only when exactly one stored record matches
  (`length === 1`, lines 34 and 63). `DuplicateCheckIsExact` shows that on a
  store with unique keys this equals "a match exists". Both creation methods
  keep keys unique.
- `createUserExercise` stores the exercise (line 67) before it looks the user
  up. For the id of no user, the exercise stays stored and the handler fails
  when it reads a field of the missing user (lines 84-91).

## Model

| member | source | states |
|---|---|---|
| `UserModel.NewUser` | models/User.js:3-13 | the schema accepts a user exactly when `username` is present, non-empty and at most 25 characters; a new user has no exercise link |
| `UserModel.FindUser` | controllers/user.js:113-116 | `findById` finds a stored user with that id, and finds nothing exactly when no stored user has it |
| `UserModel.CountNamed` | controllers/user.js:33 | `User.find({ username }).length` is the number of stored users with that name, repeats included (its multiplicity among the stored names), so never more than the number of users; an absent username matches nothing |
| `UserModel.CountNamedZero` | controllers/user.js:33 | the username query returns nothing exactly when no stored user has that name |
| `UserModel.CountNamedAtMostOne` | controllers/user.js:33-34 | with unique usernames the query returns at most one user |
| `UserModel.DuplicateCheckIsExact` | controllers/user.js:33-36 | on a store with unique usernames, "exactly one match" is the same as "the name is taken" |
| `UserModel.AppendKeepsUnique` | controllers/user.js:33-37 | adding a user whose name the check did not find keeps usernames unique |
| `UserModel.LinkExercise` | controllers/user.js:71-75 | `findByIdAndUpdate` replaces the user's single link with the new id, whatever it held; other records and all ids and names are unchanged; an unknown id changes nothing |
| `ExerciseModel.NewExercise` | models/Exercise.js:3-22 | the schema accepts an exercise exactly when the description is present, non-empty and at most 150 characters and the duration is present and at most 180 (no lower bound); without a date the document takes the one default fixed when the schema was defined |
| `ExerciseModel.FindExercise` | controllers/user.js:84 | `populate('exercise')` resolves a link to a stored exercise with that id, or to nothing exactly when none has it |
| `ExerciseModel.FindAppended` | controllers/user.js:67-84 | an exercise appended under an id no stored exercise has is what that id resolves to |
| `ExerciseModel.FindAfterAppend` | controllers/user.js:67 | appending an exercise does not change what an existing link resolves to |
| `ExerciseModel.CountSame` | controllers/user.js:62 | `exerciseExist.length` is the number of stored exercises with that user, description, duration and date, repeats included (its multiplicity among the stored keys); an absent description matches nothing |
| `ExerciseModel.CountSameZero` | controllers/user.js:62 | the duplicate query returns nothing exactly when no stored exercise has that user, description, duration and date |
| `ExerciseModel.CountSameAtMostOne` | controllers/user.js:62-63 | with unique keys the duplicate query returns at most one exercise |
| `ExerciseModel.DuplicateCheckIsExact` | controllers/user.js:62-65 | on a store with unique keys, "exactly one match" is the same as "this exercise exists" |
| `ExerciseModel.AppendKeepsUnique` | controllers/user.js:62-67 | adding an exercise the check did not find keeps (user, description, duration, date) unique |
| `LogSelection.Filter` | controllers/user.js:118-121 | keeps exactly the user's exercises dated within the inclusive range, each as often as it is stored |
| `LogSelection.InsertDesc` | controllers/user.js:129 | inserting into a newest-first sequence keeps it newest first and adds exactly that exercise |
| `LogSelection.SortDesc` | controllers/user.js:129 | `sort({ date: 'desc' })` gives a newest-first permutation of its input |
| `LogSelection.Take` | controllers/user.js:128 | `limit(limit)` keeps a prefix of the sorted documents: all of them when `limit` is 0, never more than a positive `limit`, and fewer than all only when cut at `limit` |
| `LogSelection.Select` | controllers/user.js:118-129 | no contract of its own: filter, sort newest first, then `Take`; see `SelectSound`, `SelectComplete`, `SelectEmptyIff` |
| `LogSelection.SelectSound` | controllers/user.js:118-129 | every returned exercise is stored, belongs to the user and lies within the range; they come newest first; there are at most `limit` of them when `limit` is positive |
| `LogSelection.SelectComplete` | controllers/user.js:118-129 | a matching exercise is left out only when `limit` entries were returned, all at least as new as it |
| `LogSelection.SelectEmptyIff` | controllers/user.js:118-134 | the query returns nothing exactly when no stored exercise of the user lies within the range, whatever the limit |
| `LogSelection.NoLimitKeepsEveryMatch` | controllers/user.js:101-128 | with `limit` 0 every matching stored exercise is returned |
| `UserLogs.ParseLimit` | controllers/user.js:101 | an absent, empty, non-numeric or zero `limit` gives 0; otherwise its numeric value |
| `UserLogs.ResolveBounds` | controllers/user.js:98-112 | `from` is valid exactly when supplied, non-empty and accepted by the date validator, and is then kept as its raw text, else replaced by `new Date(0)`; `to` likewise with `now` |
| `UserLogs.Pretty` | controllers/user.js:138-142 | `exercises.map(...)` gives one entry per document in the same order, with its description, its duration and its date as `toDateString()` text |
| `UserLogs.ShapeAsWritten` | controllers/user.js:144-198 | every branch answers with the user's `_id` and `username` and the given `count` and `log`, and shows `from` (or `to`) only when it was supplied and valid, displaying the resolved bound; which keys appear: see `ShapeIsTable` |
| `UserLogs.ShapeIsTable` | controllers/user.js:144-198 | the eight-branch chain equals the two-by-two table (`from` shown iff supplied and valid, `to` likewise), and the `limit` key never changes it |
| `UserLogs.GetUserLogs` | controllers/user.js:95-199 | unknown user fails with "No user with _id …"; an empty selection fails with "User has not added any exercises"; otherwise `count` equals the log length, the response names the user, `from`/`to` appear exactly when supplied and valid, and display the instant the query used |
| `UserLogs.ResponseKeys` | controllers/user.js:144-198 | the keys are always `_id`, `username`, `count`, `log`, plus `from` iff it was supplied and valid, plus `to` likewise |
| `UserLogs.LimitNeverChangesKeys` | controllers/user.js:146-198 | changing or dropping `limit` never changes success, the error, the user, or `from`/`to` in the response |
| `UserLogs.UnknownUserIgnoresExercises` | controllers/user.js:113-121 | for an unknown user the answer is the same error whatever the exercise collection holds |
| `UserLogs.LogFailureMessage` | controllers/user.js:113-134 | a failed log request carries "No user with _id … exists." when no user has the id, else "User has not added any exercises" |
| `UserLogs.LogIsSelection` | controllers/user.js:118-142 | `log` is the query's selection mapped to `{description, duration, date}` in the same order, newest first, in range, capped by a positive `limit` |
| `UserLogs.TwoExercisesOneInRange` | controllers/user.js:95-199 | a user with a run on 2024-01-01 and a swim on 2024-01-10, asked from 2024-01-05 to 2024-01-31, gets the swim alone with both bounds echoed |
| `Errors.Message` | controllers/user.js:35-133 | exactly validation failures and internal errors carry no message of their own, every other error a `BadRequestError` text (lines 35, 44, 64, 115 and 133); an unknown id gives "No user with _id <id> exists." (line 115) |
| `UserController.GetAllUsers` | controllers/user.js:41-47 | fails with "No users exist" exactly when the store has no users; otherwise every user's name and id, in store order |
| `UserController.ExerciseDate` | controllers/user.js:56-60 | an absent or empty date means `now`; other text is parsed |
| `UserController.AddUserKeepsConsistent` | controllers/user.js:37 | appending a schema-valid user with no link under a fresh id keeps the store consistent |
| `UserController.AddExerciseKeepsConsistent` | controllers/user.js:67 | appending a schema-valid exercise under a fresh id keeps the store consistent and makes its id resolve to it |
| `UserController.LinkKeepsConsistent` | controllers/user.js:71-75 | pointing a user's link at a stored exercise keeps every link resolving |
| `UserController.Store.constructor` | models/Exercise.js:18-21 | an empty, consistent store whose exercise date default is the time the schema was defined |
| `UserController.Store.InsertUser` | controllers/user.js:37 | `User.create` validates, then appends the user under a fresh id |
| `UserController.Store.InsertExercise` | controllers/user.js:67 | `Exercise.create` validates, then appends the exercise under a fresh id that resolves to it |
| `UserController.Store.SetExerciseLink` | controllers/user.js:71-75 | overwrites the user's single link and returns the updated user, or nothing for an unknown id |
| `UserController.Store.CreateUser` | controllers/user.js:30-39 | fails with "User already exists" when exactly one stored user has the name, fails when the schema rejects it, otherwise appends one user with a fresh id and no link and answers with its name and id; keeps usernames unique |
| `UserController.Store.CreateUserExercise` | controllers/user.js:49-93 | the date defaults to `now`; a duration that `Number` makes NaN (`None`) fails; exactly one identical record fails with "Exercise already exists"; a schema rejection fails; otherwise exactly one exercise is appended, the user's link is replaced by its id and the answer echoes it; for an unknown user the exercise stays stored and the call fails; keeps exercise keys unique |

## Left out

- Date-format validation against the 20 accepted layouts (controllers/user.js:7-28), `new Date(text)`, `toDateString()` and `Number(text)` are library behaviour. They are the parameters of `Host.Lib`, not implementations. The model has no invalid Date: `Lib.ToDate` gives an instant for every text.
- `UserController.Store.CreateUserExercise`: `Number(duration)` (controllers/user.js:54) is not modelled. The caller passes its result, with `None` for NaN. Empty or blank text, which `Number` turns into 0, is therefore an input the model does not see: the source stores such an exercise with duration 0.
- `UserController.Store.CreateUserExercise`: a date text `new Date` cannot parse gives an Invalid Date (controllers/user.js:59), and the duplicate query at line 62 then fails with a cast error before anything is stored. The model has no such failure: it answers, and it stores the exercise.
- `UserLogs.GetUserLogs`: a bound the Joi validator accepts but `new Date` cannot parse (such as "31/12/2024" under `D/M/YYYY`) makes the exercise query at lines 118-121 fail with a cast error after the user lookup. The model answers normally.
- `UserModel.CountNamed`, `ExerciseModel.CountSame`: an absent username or description is taken to match nothing. If Mongoose dropped a filter key whose value is `undefined`, `User.find({ username: undefined })` would match every user, and `createUser` without a username on a store of exactly one user would answer "User already exists".
- `UserLogs.ParseLimit`: `Number` results that are negative or fractional are not modelled. `Lib.number` gives only non-negative integers, as MongoDB's handling of other limits is library behaviour.
- Ids are natural numbers from a store counter. The ObjectId format, and the cast errors for malformed ids in the path or the query, are not modelled.
- Request fields are absent or a single string (a duration is absent or an integer). Query arrays, non-string JSON bodies and fractional durations are not modelled.
- String lengths are counted in Unicode scalar values, not JavaScript's UTF-16 code units.
- MongoDB does not fix the order of exercises with equal dates. The model keeps store order among them.
- Concurrency: each handler runs to completion alone. A duplicate created by two racing requests is outside the model; `CountNamed` and `CountSame` count such repeats, and with two stored matches the `=== 1` checks let a third through. The lemmas say only that sequential creation keeps keys unique.
- Database failures, `async`/`await`, HTTP status codes and the error-handling middleware are not modelled.
- index.js (bootstrap) and utils/joi.js are not part of this model. utils/joi.js repeats the controller's date schema, and the controller does not use it.
- routes/user.js is not part of this model. It imports a `handleLogsResponse` that controllers/user.js:201 does not export, so that route's second handler is undefined.
