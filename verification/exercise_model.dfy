/**
 * The `Exercise` collection: the schema's record invariant, document creation with
 * the schema's date default, and the duplicate query of `createUserExercise`.
 */
module ExerciseModel {
  import opened Wrappers
  import opened Host

  const MaxDescriptionLength: nat := 150
  const MaxDuration: int := 180

  /** A stored exercise; `user` is an optional, unchecked reference to a User. */
  datatype Exercise = Exercise(id: Id, user: Option<Id>, description: string, duration: int, date: Instant)

  /**
   * The schema: `description` is a required (so non-empty) string of at most 150
   * characters; `duration` is required and at most 180, with no lower bound.
   */
  predicate ValidExercise(e: Exercise) {
    0 < |e.description| <= MaxDescriptionLength && e.duration <= MaxDuration
  }

  /** The request fields the schema accepts: a present, non-empty description of at most 150 characters and a present duration of at most 180. */
  predicate Acceptable(description: Option<string>, duration: Option<int>) {
    && description.Some? && 0 < |description.value| <= MaxDescriptionLength
    && duration.Some? && duration.value <= MaxDuration
  }

  /**
   * `Exercise.create(...)`.  The schema's `default: new Date()` is evaluated once,
   * when the schema is defined, so `dateDefault` is one value shared by every
   * document created without a date, not the time of the call.
   */
  function NewExercise(id: Id, user: Option<Id>, description: Option<string>, duration: Option<int>,
                       date: Option<Instant>, dateDefault: Instant): (r: Option<Exercise>)
    ensures r.Some? <==> Acceptable(description, duration)
    ensures r.Some? ==> ValidExercise(r.value) && r.value.id == id && r.value.user == user
    ensures r.Some? ==> r.value.description == description.value && r.value.duration == duration.value
    ensures r.Some? ==> r.value.date == if date.Some? then date.value else dateDefault
  {
    if description.Some? && 0 < |description.value| <= MaxDescriptionLength
       && duration.Some? && duration.value <= MaxDuration
    then Some(Exercise(id, user, description.value, duration.value, date.GetOr(dateDefault)))
    else None
  }

  /** `Exercise.findById(id)`, and what `populate('exercise')` resolves a link to. */
  function FindExercise(exercises: seq<Exercise>, id: Id): (r: Option<Exercise>)
    ensures r.Some? ==> r.value in exercises && r.value.id == id
    ensures r.None? <==> forall e :: e in exercises ==> e.id != id
  {
    if exercises == [] then None
    else if exercises[0].id == id then Some(exercises[0])
    else FindExercise(exercises[1..], id)
  }

  /** A document appended under an id no stored document has is the one its id resolves to. */
  lemma FindAppended(exercises: seq<Exercise>, e: Exercise)
    requires forall x :: x in exercises ==> x.id != e.id
    ensures FindExercise(exercises + [e], e.id) == Some(e)
  {
  }

  /** An id that resolves keeps resolving to the same document after an append. */
  lemma {:induction false} FindAfterAppend(exercises: seq<Exercise>, e: Exercise, id: Id)
    requires FindExercise(exercises, id).Some?
    ensures FindExercise(exercises + [e], id) == FindExercise(exercises, id)
  {
    if exercises[0].id != id {
      assert (exercises + [e])[1..] == exercises[1..] + [e];
      FindAfterAppend(exercises[1..], e, id);
    }
  }

  /** The fields `createUserExercise` compares to detect a repeated exercise. */
  datatype Key = Key(user: Option<Id>, description: string, duration: int, date: Instant)

  function KeyOf(e: Exercise): Key {
    Key(e.user, e.description, e.duration, e.date)
  }

  /** The keys of the stored exercises, in store order, repeats included. */
  function StoredKeys(exercises: seq<Exercise>): seq<Key> {
    if exercises == [] then [] else [KeyOf(exercises[0])] + StoredKeys(exercises[1..])
  }

  /**
   * The number of documents `Exercise.find({ user, description, duration, date })`
   * returns: how many stored exercises carry that key, repeats included, and none
   * for an absent description.
   */
  function CountSame(exercises: seq<Exercise>, user: Id, description: Option<string>, duration: int, date: Instant): (n: nat)
    ensures n <= |exercises|
    ensures description.Some? ==> n == multiset(StoredKeys(exercises))[Key(Some(user), description.value, duration, date)]
    ensures description.None? ==> n == 0
  {
    if exercises == [] then 0
    else (if description.Some? && KeyOf(exercises[0]) == Key(Some(user), description.value, duration, date) then 1 else 0)
         + CountSame(exercises[1..], user, description, duration, date)
  }

  /** No two stored exercises agree on user, description, duration and date. */
  ghost predicate UniqueKeys(exercises: seq<Exercise>) {
    forall i, j :: 0 <= i < j < |exercises| ==> KeyOf(exercises[i]) != KeyOf(exercises[j])
  }

  /** The duplicate query finds nothing exactly when no stored exercise has that key. */
  lemma {:induction false} CountSameZero(exercises: seq<Exercise>, k: Key)
    requires k.user.Some?
    ensures CountSame(exercises, k.user.value, Some(k.description), k.duration, k.date) == 0
        <==> forall e :: e in exercises ==> KeyOf(e) != k
  {
    if exercises != [] {
      CountSameZero(exercises[1..], k);
      assert forall e :: e in exercises <==> e == exercises[0] || e in exercises[1..];
    }
  }

  /** With unique keys the duplicate query returns at most one document. */
  lemma {:induction false} CountSameAtMostOne(exercises: seq<Exercise>, k: Key)
    requires k.user.Some?
    requires UniqueKeys(exercises)
    ensures CountSame(exercises, k.user.value, Some(k.description), k.duration, k.date) <= 1
  {
    if exercises != [] {
      var rest := exercises[1..];
      assert UniqueKeys(rest) by {
        forall i, j | 0 <= i < j < |rest| ensures KeyOf(rest[i]) != KeyOf(rest[j]) {
          assert rest[i] == exercises[i + 1] && rest[j] == exercises[j + 1];
        }
      }
      CountSameAtMostOne(rest, k);
      if KeyOf(exercises[0]) == k {
        CountSameZero(rest, k);
        forall e | e in rest ensures KeyOf(e) != k {
          var n :| 0 <= n < |rest| && rest[n] == e;
          assert exercises[n + 1] == e;
        }
      }
    }
  }

  /**
   * `createUserExercise` rejects a repeated exercise only when exactly one stored
   * record matches (controllers/user.js:63).  On a store with unique keys that is
   * the same as rejecting every key already present.
   */
  lemma DuplicateCheckIsExact(exercises: seq<Exercise>, k: Key)
    requires k.user.Some?
    requires UniqueKeys(exercises)
    ensures CountSame(exercises, k.user.value, Some(k.description), k.duration, k.date) == 1
        <==> exists e :: e in exercises && KeyOf(e) == k
  {
    CountSameZero(exercises, k);
    CountSameAtMostOne(exercises, k);
  }

  /** Appending an exercise whose key the duplicate query did not find keeps keys unique. */
  lemma AppendKeepsUnique(exercises: seq<Exercise>, e: Exercise)
    requires e.user.Some?
    requires UniqueKeys(exercises)
    requires CountSame(exercises, e.user.value, Some(e.description), e.duration, e.date) != 1
    ensures UniqueKeys(exercises + [e])
  {
    DuplicateCheckIsExact(exercises, KeyOf(e));
    CountSameZero(exercises, KeyOf(e));
    var s := exercises + [e];
    forall i, j | 0 <= i < j < |s| ensures KeyOf(s[i]) != KeyOf(s[j]) {
      if j == |exercises| {
        assert s[i] in exercises;
      } else {
        assert s[i] == exercises[i] && s[j] == exercises[j];
      }
    }
  }
}
