/** The request handlers of src/app.py as methods on the store they mutate.
    The store holds both tables and the next primary key of each; each
    handler looks rows up, raises its error before touching anything, and
    otherwise adds or deletes one row. Each method is proved against the
    corresponding function of `Handlers` and keeps the store invariant. */
module App {
  import opened Models
  import opened Handlers
  import Properties

  class Store {
    var activities: seq<Activity>
    var registrations: seq<Registration>
    var nextActivityId: nat
    var nextRegistrationId: nat

    /** The store's contents as a value. */
    function State(): Db
      reads this
    {
      Db(activities, registrations, nextActivityId, nextRegistrationId)
    }

    ghost predicate Valid()
      reads this
    {
      Models.Valid(State())
    }

    /** A store with both tables empty, as `init_db` leaves a new database. */
    constructor ()
      ensures Valid() && State() == Empty
    {
      activities := [];
      registrations := [];
      nextActivityId := 1;
      nextRegistrationId := 1;
    }

    /** `GET /activities`: one entry per activity, each listing the emails
        of its registrations. Reads the store and changes nothing. */
    method GetActivities() returns (result: seq<ActivityView>)
      ensures result == Listing(State())
    {
      result := [];
      for i := 0 to |activities|
        invariant |result| == i
        invariant forall j :: 0 <= j < i ==> result[j] == View(activities[j], registrations)
      {
        var a := activities[i];
        var participants := Emails(RegistrationsOf(registrations, a.id));
        result := result + [ActivityView(a.name, a.description, a.schedule, a.maxParticipants, participants)];
      }
    }

    /** `POST /activities`. */
    method CreateActivity(payload: ActivityCreate) returns (outcome: Outcome)
      requires Valid()
      modifies this
      ensures Valid()
      ensures Reply(outcome, State()) == CreateStep(old(State()), payload)
    {
      ghost var before := State();
      Properties.CreatePreservesValid(before, payload);
      var existing := FindActivity(activities, payload.name);
      if existing.Some? {
        return Err(AlreadyExists);
      }
      var activity := Activity(nextActivityId, payload.name, payload.description,
                               payload.schedule, payload.maxParticipants);
      activities := activities + [activity];
      nextActivityId := nextActivityId + 1;
      outcome := Ok;
    }

    /** `POST /activities/{name}/signup`. */
    method SignupForActivity(activityName: string, email: string) returns (outcome: Outcome)
      requires Valid()
      modifies this
      ensures Valid()
      ensures Reply(outcome, State()) == SignupStep(old(State()), activityName, email)
    {
      ghost var before := State();
      Properties.SignupPreservesValid(before, activityName, email);
      var found := FindActivity(activities, activityName);
      if found.None? {
        return Err(NotFound);
      }
      var activity := activities[found.value];
      var existing := FindRegistration(registrations, activity.id, email);
      if existing.Some? {
        return Err(AlreadySignedUp);
      }
      if activity.maxParticipants.Some? {
        var current := |RegistrationsOf(registrations, activity.id)|;
        if current >= activity.maxParticipants.value {
          return Err(Full);
        }
      }
      var reg := Registration(nextRegistrationId, email, activity.id);
      registrations := registrations + [reg];
      nextRegistrationId := nextRegistrationId + 1;
      outcome := Ok;
    }

    /** `DELETE /activities/{name}/unregister`. */
    method UnregisterFromActivity(activityName: string, email: string) returns (outcome: Outcome)
      requires Valid()
      modifies this
      ensures Valid()
      ensures Reply(outcome, State()) == UnregisterStep(old(State()), activityName, email)
    {
      ghost var before := State();
      Properties.UnregisterPreservesValid(before, activityName, email);
      var found := FindActivity(activities, activityName);
      if found.None? {
        return Err(NotFound);
      }
      var activity := activities[found.value];
      var reg := FindRegistration(registrations, activity.id, email);
      if reg.None? {
        return Err(NotSignedUp);
      }
      var k := reg.value;
      registrations := registrations[..k] + registrations[k + 1..];
      outcome := Ok;
    }
  }

  /** The request sequence of the project's test, run against a store:
      create, sign up, sign up again, unregister, unregister again. */
  method SignupAndUnregisterFlow(store: Store, payload: ActivityCreate, email: string)
    returns (created: Outcome, first: Outcome, second: Outcome, removed: Outcome, again: Outcome)
    requires store.Valid()
    requires !NameTaken(store.activities, payload.name)
    requires payload.maxParticipants.None? || payload.maxParticipants.value >= 1
    modifies store
    ensures store.Valid()
    ensures created == Ok && first == Ok && second == Err(AlreadySignedUp)
    ensures removed == Ok && again == Err(NotSignedUp)
  {
    Properties.TestedFlow(store.State(), payload, email);
    created := store.CreateActivity(payload);
    first := store.SignupForActivity(payload.name, email);
    second := store.SignupForActivity(payload.name, email);
    removed := store.UnregisterFromActivity(payload.name, email);
    again := store.UnregisterFromActivity(payload.name, email);
  }
}
