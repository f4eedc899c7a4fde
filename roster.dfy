/** The activity roster of the Mergington High School service (src/app.py).
    The document store is abstracted to a map from activity name to the stored
    document; the three request handlers are specified by pure functions that
    return the response and the store after the request. The class
    `ActivityDirectory` holds the store and performs each request in steps:
    find the activity, check the roster, update it with `$push` or `$pull`,
    then inspect the modified count. */
module Roster {

  /** An activity record as the listing shows it (no store identifier). */
  datatype Activity = Activity(
    name: string,
    description: string,
    schedule: string,
    maxParticipants: int,
    participants: seq<string>)

  /** A stored document: the store's `_id` plus the activity's fields. */
  datatype Document = Document(id: nat, activity: Activity)

  /** The collection, keyed by the `name` field every query filters on. */
  type Collection = map<string, Document>

  /** What a handler answers; the HTTP status is given by `StatusCode`. */
  datatype Response =
    | Ok(message: string)
    | NotFound(detail: string)
    | Conflict(detail: string)
    | Internal(detail: string)

  /** The store after a request together with the answer to it. */
  datatype Outcome = Outcome(after: Collection, response: Response)

  const ActivityNotFound: string := "Activity not found"
  const AlreadySignedUp: string := "Student already signed up for this activity"
  const ParticipantNotFound: string := "Participant not found for this activity"
  const UpdateFailed: string := "Failed to update activity"

  function StatusCode(r: Response): (code: int)
    ensures 200 <= code < 300 <==> r.Ok?
    ensures 400 <= code < 500 <==> r.NotFound? || r.Conflict?
    ensures 500 <= code < 600 <==> r.Internal?
  {
    match r
    case Ok(_) => 200
    case NotFound(_) => 404
    case Conflict(_) => 400
    case Internal(_) => 500
  }

  function SignedUpMessage(email: string, activityName: string): string {
    "Signed up " + email + " for " + activityName
  }

  function UnregisteredMessage(email: string, activityName: string): string {
    "Unregistered " + email + " from " + activityName
  }

  // ---------------------------------------------------------------------------
  // Store invariants

  /** Every document is filed under its own `name`. */
  predicate KeyedByName(c: Collection) {
    forall k | k in c :: c[k].activity.name == k
  }

  /** Every `_id` is below the next one the store hands out. */
  predicate IdsBelow(c: Collection, bound: nat) {
    forall k | k in c :: c[k].id < bound
  }

  /** No two documents share an `_id`. */
  predicate IdsDistinct(c: Collection) {
    forall k1, k2 | k1 in c && k2 in c && k1 != k2 :: c[k1].id != c[k2].id
  }

  predicate NoDuplicates(s: seq<string>) {
    forall i, j | 0 <= i < j < |s| :: s[i] != s[j]
  }

  /** No roster lists the same address twice. */
  predicate RostersDistinct(c: Collection) {
    forall k | k in c :: NoDuplicates(c[k].activity.participants)
  }

  // ---------------------------------------------------------------------------
  // The array operators of the update

  /** `r` is obtained from `s` by deleting some entries, keeping the order. */
  ghost predicate IsSubsequence(r: seq<string>, s: seq<string>) {
    r == [] || (s != [] && ((r[0] == s[0] && IsSubsequence(r[1..], s[1..])) || IsSubsequence(r, s[1..])))
  }

  /** `$push`: append at the end. */
  function Push(s: seq<string>, e: string): (r: seq<string>)
    ensures |r| == |s| + 1 && r[..|s|] == s && r[|s|] == e
    ensures multiset(r) == multiset(s) + multiset{e}
  {
    s + [e]
  }

  /** `$pull`: remove every entry equal to `e`, keeping the others in order. */
  function Pull(s: seq<string>, e: string): (r: seq<string>)
    ensures e !in r
    ensures multiset(r) == multiset(s)[e := 0]
    ensures IsSubsequence(r, s)
  {
    if s == [] then []
    else
      assert s == [s[0]] + s[1..];
      if s[0] == e then Pull(s[1..], e) else [s[0]] + Pull(s[1..], e)
  }

  /** Replace the roster of the activity filed under `name`, nothing else. */
  function WithParticipants(c: Collection, name: string, ps: seq<string>): (c': Collection)
    requires name in c
    ensures c'.Keys == c.Keys
    ensures c'[name].id == c[name].id
    ensures c'[name].activity == c[name].activity.(participants := ps)
    ensures forall k | k in c && k != name :: c'[k] == c[k]
  {
    c[name := c[name].(activity := c[name].activity.(participants := ps))]
  }

  // ---------------------------------------------------------------------------
  // The handlers as functions of the store

  /** POST /activities/{activityName}/signup?email=... */
  function Signup(c: Collection, activityName: string, email: string): (out: Outcome)
    ensures out.response == NotFound(ActivityNotFound) <==> activityName !in c
    ensures out.response == Conflict(AlreadySignedUp)
            <==> activityName in c && email in c[activityName].activity.participants
    ensures out.response.Ok? <==> activityName in c && email !in c[activityName].activity.participants
    ensures !out.response.Internal?
    ensures StatusCode(out.response) in {200, 400, 404}
    ensures StatusCode(out.response) == 404 <==> activityName !in c
    ensures !out.response.Ok? ==> out.after == c
    ensures out.response.Ok? ==>
              && out.response.message == SignedUpMessage(email, activityName)
              && out.after == WithParticipants(c, activityName, c[activityName].activity.participants + [email])
  {
    if activityName !in c then Outcome(c, NotFound(ActivityNotFound))
    else if email in c[activityName].activity.participants then Outcome(c, Conflict(AlreadySignedUp))
    else
      var ps := c[activityName].activity.participants;
      Outcome(WithParticipants(c, activityName, Push(ps, email)), Ok(SignedUpMessage(email, activityName)))
  }

  /** DELETE /activities/{activityName}/participants?email=... */
  function Unregister(c: Collection, activityName: string, email: string): (out: Outcome)
    ensures out.response == NotFound(ActivityNotFound) <==> activityName !in c
    ensures out.response == NotFound(ParticipantNotFound)
            <==> activityName in c && email !in c[activityName].activity.participants
    ensures out.response.Ok? <==> activityName in c && email in c[activityName].activity.participants
    ensures !out.response.Internal? && !out.response.Conflict?
    ensures StatusCode(out.response) in {200, 404}
    ensures !out.response.Ok? ==> out.after == c
    ensures out.response.Ok? ==>
              && out.response.message == UnregisteredMessage(email, activityName)
              && out.after == WithParticipants(c, activityName, Pull(c[activityName].activity.participants, email))
  {
    if activityName !in c then Outcome(c, NotFound(ActivityNotFound))
    else if email !in c[activityName].activity.participants then Outcome(c, NotFound(ParticipantNotFound))
    else
      var ps := c[activityName].activity.participants;
      Outcome(WithParticipants(c, activityName, Pull(ps, email)), Ok(UnregisteredMessage(email, activityName)))
  }

  /** GET /activities: every stored record under its `name`, without `_id`. */
  function Listing(c: Collection): (m: map<string, Activity>)
    requires KeyedByName(c)
    ensures m.Keys == set d | d in c.Values :: d.activity.name
    ensures forall d | d in c.Values :: d.activity.name in m && m[d.activity.name] == d.activity
  {
    map k | k in c :: c[k].activity
  }

  // ---------------------------------------------------------------------------
  // Seed data

  const ChessClub: Activity := Activity("Chess Club",
      "Learn strategies and compete in chess tournaments",
      "Fridays, 3:30 PM - 5:00 PM", 12,
      ["michael@mergington.edu", "daniel@mergington.edu"])

  const ProgrammingClass: Activity := Activity("Programming Class",
      "Learn programming fundamentals and build software projects",
      "Tuesdays and Thursdays, 3:30 PM - 4:30 PM", 20,
      ["emma@mergington.edu", "sophia@mergington.edu"])

  const GymClass: Activity := Activity("Gym Class",
      "Physical education and sports activities",
      "Mondays, Wednesdays, Fridays, 2:00 PM - 3:00 PM", 30,
      ["john@mergington.edu", "olivia@mergington.edu"])

  const SoccerTeam: Activity := Activity("Soccer Team",
      "Team training, drills, and inter-school matches",
      "Mondays, Thursdays, 4:00 PM - 6:00 PM", 22,
      ["liam@mergington.edu", "noah@mergington.edu"])

  const BasketballTeam: Activity := Activity("Basketball Team",
      "Practice sessions and competitive games",
      "Tuesdays, Fridays, 4:00 PM - 6:00 PM", 15,
      ["ava@mergington.edu", "isabella@mergington.edu"])

  const DramaClub: Activity := Activity("Drama Club",
      "Acting exercises, rehearsals, and school plays",
      "Wednesdays, 3:30 PM - 5:30 PM", 25,
      ["mia@mergington.edu", "charlotte@mergington.edu"])

  const Choir: Activity := Activity("Choir",
      "Vocal training and performances for concerts and events",
      "Thursdays, 3:30 PM - 4:30 PM", 40,
      ["amelia@mergington.edu", "harper@mergington.edu"])

  const ScienceClub: Activity := Activity("Science Club",
      "Experiments, science fairs, and research projects",
      "Wednesdays, 4:00 PM - 5:30 PM", 18,
      ["noelle@mergington.edu", "ethan@mergington.edu"])

  const DebateTeam: Activity := Activity("Debate Team",
      "Debate practice, public speaking, and tournaments",
      "Tuesdays, 4:00 PM - 5:30 PM", 16,
      ["lucas@mergington.edu", "sophia.r@mergington.edu"])

  /** The records `initial_activities` holds, in its order. */
  const InitialActivities: seq<Activity> := [
    ChessClub, ProgrammingClass, GymClass, SoccerTeam, BasketballTeam,
    DramaClub, Choir, ScienceClub, DebateTeam
  ]

  function SeedNames(): set<string> {
    set a | a in InitialActivities :: a.name
  }

  /** The seed records have pairwise distinct names. */
  lemma SeedNamesDistinct()
    ensures forall i, j | 0 <= i < j < |InitialActivities| :: InitialActivities[i].name != InitialActivities[j].name
  {
    // Only two pairs of names have equal lengths, and their first letters differ.
    forall i, j | 0 <= i < j < |InitialActivities|
      ensures InitialActivities[i].name != InitialActivities[j].name
    {
      var a, b := InitialActivities[i].name, InitialActivities[j].name;
      if |a| == |b| {
        assert a[0] != b[0];
      }
    }
  }

  /** Every seed roster is free of duplicates. */
  lemma SeedRostersDistinct()
    ensures forall i | 0 <= i < |InitialActivities| :: NoDuplicates(InitialActivities[i].participants)
  {
  }

  // ---------------------------------------------------------------------------
  // Properties of the array operators

  /** Pulling an address that is not listed changes nothing. */
  lemma {:induction false} PullAbsent(s: seq<string>, e: string)
    requires e !in s
    ensures Pull(s, e) == s
  {
    if s != [] {
      PullAbsent(s[1..], e);
      assert s == [s[0]] + s[1..];
    }
  }

  /** `$pull` undoes a `$push` of an address that was not listed. */
  lemma {:induction false} PullUndoesPush(s: seq<string>, e: string)
    requires e !in s
    ensures Pull(Push(s, e), e) == s
  {
    if s == [] {
    } else {
      assert Push(s, e)[1..] == Push(s[1..], e);
      PullUndoesPush(s[1..], e);
      assert s == [s[0]] + s[1..];
    }
  }

  /** Appending an address that is not listed keeps a roster duplicate-free. */
  lemma PushKeepsNoDuplicates(s: seq<string>, e: string)
    requires NoDuplicates(s) && e !in s
    ensures NoDuplicates(Push(s, e))
  {
  }

  /** Removing an address keeps a roster duplicate-free. */
  lemma {:induction false} PullKeepsNoDuplicates(s: seq<string>, e: string)
    requires NoDuplicates(s)
    ensures NoDuplicates(Pull(s, e))
  {
    if s != [] {
      PullKeepsNoDuplicates(s[1..], e);
      if s[0] != e {
        var t := Pull(s[1..], e);
        assert s[0] !in s[1..];
        assert s[0] !in multiset(t);
        assert forall j | 0 <= j < |t| :: ([s[0]] + t)[j + 1] == t[j];
      }
    }
  }

  /** In a duplicate-free roster, the address occurs exactly once. */
  lemma {:induction false} OccursOnce(s: seq<string>, e: string)
    requires NoDuplicates(s) && e in s
    ensures multiset(s)[e] == 1
  {
    assert s == [s[0]] + s[1..];
    if s[0] == e {
      assert e !in s[1..];
    } else {
      OccursOnce(s[1..], e);
    }
  }

  /** From a duplicate-free roster, `$pull` of a listed address removes exactly one entry. */
  lemma PullShrinksByOne(s: seq<string>, e: string)
    requires NoDuplicates(s) && e in s
    ensures |Pull(s, e)| == |s| - 1
  {
    OccursOnce(s, e);
    calc {
      |Pull(s, e)|;
      |multiset(Pull(s, e))|;
      |multiset(s)[e := 0]|;
      { assert multiset(s) == multiset(s)[e := 0] + multiset{e}; }
      |multiset(s)| - 1;
    }
  }

  // ---------------------------------------------------------------------------
  // Properties of the handlers

  /** A successful signup keeps every roster duplicate-free. */
  lemma SignupKeepsRostersDistinct(c: Collection, activityName: string, email: string)
    requires RostersDistinct(c)
    ensures RostersDistinct(Signup(c, activityName, email).after)
  {
  }

  /** A successful unregistration keeps every roster duplicate-free. */
  lemma UnregisterKeepsRostersDistinct(c: Collection, activityName: string, email: string)
    requires RostersDistinct(c)
    ensures RostersDistinct(Unregister(c, activityName, email).after)
  {
    if activityName in c && email in c[activityName].activity.participants {
      PullKeepsNoDuplicates(c[activityName].activity.participants, email);
    }
  }

  /** Signing up and then unregistering the same address restores the store. */
  lemma SignupThenUnregister(c: Collection, activityName: string, email: string)
    requires activityName in c && email !in c[activityName].activity.participants
    ensures Signup(c, activityName, email).response == Ok(SignedUpMessage(email, activityName))
    ensures Unregister(Signup(c, activityName, email).after, activityName, email)
            == Outcome(c, Ok(UnregisteredMessage(email, activityName)))
  {
    var ps := c[activityName].activity.participants;
    PullUndoesPush(ps, email);
    var after := Signup(c, activityName, email).after;
    assert WithParticipants(after, activityName, Pull(Push(ps, email), email)) == c;
  }

  /** Repeating a successful signup is refused as a conflict. */
  lemma SignupTwiceConflicts(c: Collection, activityName: string, email: string)
    requires Signup(c, activityName, email).response.Ok?
    ensures Signup(Signup(c, activityName, email).after, activityName, email).response
            == Conflict(AlreadySignedUp)
  {
  }

  /** Repeating a successful unregistration finds no participant. */
  lemma UnregisterTwiceNotFound(c: Collection, activityName: string, email: string)
    requires Unregister(c, activityName, email).response.Ok?
    ensures Unregister(Unregister(c, activityName, email).after, activityName, email).response
            == NotFound(ParticipantNotFound)
  {
  }

  /** Signup never consults the capacity: changing `maxParticipants` changes
      neither the answer nor the resulting roster. */
  lemma SignupIgnoresCapacity(c: Collection, activityName: string, email: string, capacity: int)
    requires activityName in c
    ensures var c' := c[activityName := c[activityName].(activity := c[activityName].activity.(maxParticipants := capacity))];
            && Signup(c', activityName, email).response == Signup(c, activityName, email).response
            && Signup(c', activityName, email).after[activityName].activity.participants
               == Signup(c, activityName, email).after[activityName].activity.participants
  {
  }

  /** Signing up a new address for the Chess Club, holding its two seeded
      participants, appends it after them. */
  lemma ChessClubSignupScenario(c: Collection)
    requires "Chess Club" in c
    requires c["Chess Club"].activity.participants == ["michael@mergington.edu", "daniel@mergington.edu"]
    ensures Signup(c, "Chess Club", "new@mergington.edu").response
            == Ok(SignedUpMessage("new@mergington.edu", "Chess Club"))
    ensures Signup(c, "Chess Club", "new@mergington.edu").after["Chess Club"].activity.participants
            == ["michael@mergington.edu", "daniel@mergington.edu", "new@mergington.edu"]
  {
    var ps := c["Chess Club"].activity.participants;
    var email := "new@mergington.edu";
    assert |email| != |ps[0]| && |email| != |ps[1]|;
    assert email !in ps;
    assert Signup(c, "Chess Club", email).response == Ok(SignedUpMessage(email, "Chess Club"));
  }

  /** Unregistering one of the two seeded Chess Club members leaves the other. */
  lemma ChessClubUnregisterScenario(c: Collection)
    requires "Chess Club" in c
    requires c["Chess Club"].activity.participants == ["michael@mergington.edu", "daniel@mergington.edu"]
    ensures Unregister(c, "Chess Club", "michael@mergington.edu").response
            == Ok(UnregisteredMessage("michael@mergington.edu", "Chess Club"))
    ensures Unregister(c, "Chess Club", "michael@mergington.edu").after["Chess Club"].activity.participants
            == ["daniel@mergington.edu"]
  {
    var ps := c["Chess Club"].activity.participants;
    var email := "michael@mergington.edu";
    assert ps[0] == email && |ps[1]| != |email|;
    assert Pull(ps, email) == Pull(ps[1..], email) == [ps[1]] + Pull([], email);
    assert Unregister(c, "Chess Club", email).response == Ok(UnregisteredMessage(email, "Chess Club"));
  }

  /** Filing a record under its name with a fresh `_id` keeps the store's invariants. */
  lemma InsertKeepsValid(c: Collection, nextId: nat, a: Activity)
    requires KeyedByName(c) && IdsBelow(c, nextId) && IdsDistinct(c)
    ensures var c' := c[a.name := Document(nextId, a)];
            KeyedByName(c') && IdsBelow(c', nextId + 1) && IdsDistinct(c')
  {
  }

  /** The collection holds exactly the first `n` records, each under its name. */
  ghost predicate HoldsExactly(c: Collection, records: seq<Activity>, n: nat)
    requires n <= |records|
  {
    && (forall j | 0 <= j < n :: records[j].name in c && c[records[j].name].activity == records[j])
    && (forall k | k in c :: exists j | 0 <= j < n :: records[j].name == k)
  }

  /** Filing the next record keeps the collection equal to the records so far. */
  lemma InsertNext(c: Collection, records: seq<Activity>, i: nat, id: nat)
    requires i < |records| && HoldsExactly(c, records, i)
    requires forall j | 0 <= j < i :: records[j].name != records[i].name
    ensures HoldsExactly(c[records[i].name := Document(id, records[i])], records, i + 1)
  {
  }

  // ---------------------------------------------------------------------------
  // The service over its document store

  /** The two array operators `update_one` is called with. */
  datatype ArrayUpdate = PushOp(value: string) | PullOp(value: string)

  function Apply(op: ArrayUpdate, s: seq<string>): seq<string> {
    match op
    case PushOp(e) => Push(s, e)
    case PullOp(e) => Pull(s, e)
  }

  /** The activity directory: the store's collection and the next `_id` it
      will hand out. Each handler is one atomic step on `collection`. */
  class ActivityDirectory {
    var collection: Collection
    var nextId: nat

    ghost predicate Valid()
      reads this
    {
      KeyedByName(collection) && IdsBelow(collection, nextId) && IdsDistinct(collection)
    }

    /** Connect to a store that already holds `existing`. */
    constructor (existing: Collection, idBound: nat)
      requires KeyedByName(existing) && IdsBelow(existing, idBound) && IdsDistinct(existing)
      ensures Valid()
      ensures collection == existing && nextId == idBound
    {
      collection := existing;
      nextId := idBound;
    }

    /** Insert the seed records one at a time, but only into an empty collection. */
    method SeedIfEmpty()
      requires Valid()
      modifies this
      ensures Valid()
      ensures old(collection) != map[] ==> collection == old(collection) && nextId == old(nextId)
      ensures old(collection) == map[] ==>
                && collection.Keys == SeedNames()
                && (forall i | 0 <= i < |InitialActivities| ::
                      collection[InitialActivities[i].name].activity == InitialActivities[i])
                && RostersDistinct(collection)
      ensures collection != map[]
    {
      if |collection| == 0 {
        SeedNamesDistinct();
        SeedRostersDistinct();
        InsertEach(InitialActivities);
        assert InitialActivities[0].name in collection;
        assert HoldsExactly(collection, InitialActivities, |InitialActivities|);
        forall k | k in collection
          ensures k in SeedNames() && NoDuplicates(collection[k].activity.participants)
        {
          var i :| 0 <= i < |InitialActivities| && InitialActivities[i].name == k;
        }
      }
    }

    /** `insert_one` of each record in turn into an empty collection. */
    method InsertEach(records: seq<Activity>)
      requires Valid() && collection == map[]
      requires forall i, j | 0 <= i < j < |records| :: records[i].name != records[j].name
      modifies this
      ensures Valid()
      ensures HoldsExactly(collection, records, |records|)
    {
      for i := 0 to |records|
        invariant Valid()
        invariant HoldsExactly(collection, records, i)
      {
        InsertKeepsValid(collection, nextId, records[i]);
        InsertNext(collection, records, i, nextId);
        collection := collection[records[i].name := Document(nextId, records[i])];
        nextId := nextId + 1;
      }
    }

    /** `update_one({"name": name}, op)`: reports how many documents changed. */
    method UpdateOne(name: string, op: ArrayUpdate) returns (modifiedCount: nat)
      requires Valid()
      modifies this`collection
      ensures Valid()
      ensures var changes := name in old(collection)
                && Apply(op, old(collection)[name].activity.participants) != old(collection)[name].activity.participants;
              && modifiedCount == (if changes then 1 else 0)
              && collection == (if changes then WithParticipants(old(collection), name, Apply(op, old(collection)[name].activity.participants))
                                else old(collection))
    {
      if name !in collection {
        return 0;
      }
      var ps := collection[name].activity.participants;
      var updated := Apply(op, ps);
      if updated == ps {
        return 0;
      }
      collection := WithParticipants(collection, name, updated);
      return 1;
    }

    /** The signup handler, step by step. */
    method SignupForActivity(activityName: string, email: string) returns (response: Response)
      requires Valid()
      modifies this`collection
      ensures Valid()
      ensures Outcome(collection, response) == Signup(old(collection), activityName, email)
    {
      if activityName !in collection {
        return NotFound(ActivityNotFound);
      }
      var activity := collection[activityName].activity;
      if email in activity.participants {
        return Conflict(AlreadySignedUp);
      }
      assert |Push(activity.participants, email)| != |activity.participants|;
      var modifiedCount := UpdateOne(activityName, PushOp(email));
      if modifiedCount == 0 {
        return Internal(UpdateFailed);
      }
      return Ok(SignedUpMessage(email, activityName));
    }

    /** The unregister handler, step by step. */
    method UnregisterParticipant(activityName: string, email: string) returns (response: Response)
      requires Valid()
      modifies this`collection
      ensures Valid()
      ensures Outcome(collection, response) == Unregister(old(collection), activityName, email)
    {
      if activityName !in collection {
        return NotFound(ActivityNotFound);
      }
      var activity := collection[activityName].activity;
      if email !in activity.participants {
        return NotFound(ParticipantNotFound);
      }
      assert email !in Pull(activity.participants, email);
      var modifiedCount := UpdateOne(activityName, PullOp(email));
      if modifiedCount == 0 {
        return Internal(UpdateFailed);
      }
      return Ok(UnregisteredMessage(email, activityName));
    }
  }
}
