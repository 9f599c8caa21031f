/** What the request handlers of src/app.py do to the store, as functions
    from the store before a request to the reply and the store after it.
    Each query of the handlers (`filter(...).first()`, `count()`) is a
    function over the tables; every error is decided before any row is
    added or deleted. */
module Handlers {
  import opened Models

  /** The body of `POST /activities`. */
  datatype ActivityCreate = ActivityCreate(
    name: string,
    description: Option<string>,
    schedule: Option<string>,
    maxParticipants: Option<int>)

  /** The client errors the handlers raise. */
  datatype Error =
    | NotFound         // "Activity not found"
    | AlreadyExists    // "Activity already exists"
    | AlreadySignedUp  // "Student is already signed up"
    | Full             // "Activity is full"
    | NotSignedUp      // "Student is not signed up for this activity"

  datatype Outcome = Ok | Err(error: Error)

  /** What a handler answers and the store it leaves behind. */
  datatype Reply = Reply(outcome: Outcome, after: Db)

  /** One entry of the `GET /activities` listing. */
  datatype ActivityView = ActivityView(
    name: string,
    description: Option<string>,
    schedule: Option<string>,
    maxParticipants: Option<int>,
    participants: seq<string>)

  /** A request to one of the three mutating endpoints. */
  datatype Request =
    | CreateActivity(payload: ActivityCreate)
    | Signup(activityName: string, email: string)
    | Unregister(activityName: string, email: string)

  /** The HTTP status of each error: only a missing activity is a 404; a
      duplicate name is a plain 400 like every other client error. */
  function StatusCode(e: Error): (code: nat)
    ensures code == 404 <==> e == NotFound
    ensures code == 404 || code == 400
  {
    match e
    case NotFound => 404
    case AlreadyExists => 400
    case AlreadySignedUp => 400
    case Full => 400
    case NotSignedUp => 400
  }

  predicate NameTaken(acts: seq<Activity>, name: string)
  {
    exists i :: 0 <= i < |acts| && acts[i].name == name
  }

  predicate SignedUp(regs: seq<Registration>, activityId: nat, email: string)
  {
    exists k :: 0 <= k < |regs| && regs[k].activityId == activityId && regs[k].email == email
  }

  /** `query(Activity).filter(Activity.name == name).first()`: the index of
      the first activity with that name, if any. */
  function FindActivity(acts: seq<Activity>, name: string): (r: Option<nat>)
    ensures r.None? <==> !NameTaken(acts, name)
    ensures r.Some? ==> r.value < |acts| && acts[r.value].name == name
    ensures r.Some? ==> forall i :: 0 <= i < r.value ==> acts[i].name != name
  {
    if acts == [] then None
    else
      var n := |acts| - 1;
      match FindActivity(acts[..n], name)
      case Some(i) => Some(i)
      case None => if acts[n].name == name then Some(n) else None
  }

  /** `query(Registration).filter(activity_id == ..., email == ...).first()`:
      the index of the first matching registration, if any. */
  function FindRegistration(regs: seq<Registration>, activityId: nat, email: string): (r: Option<nat>)
    ensures r.None? <==> !SignedUp(regs, activityId, email)
    ensures r.Some? ==> r.value < |regs| && regs[r.value].activityId == activityId && regs[r.value].email == email
    ensures r.Some? ==> forall k :: 0 <= k < r.value ==> !(regs[k].activityId == activityId && regs[k].email == email)
  {
    if regs == [] then None
    else
      var n := |regs| - 1;
      match FindRegistration(regs[..n], activityId, email)
      case Some(k) => Some(k)
      case None =>
        if regs[n].activityId == activityId && regs[n].email == email then Some(n) else None
  }

  /** The activity a handler looks up by name. */
  function Named(acts: seq<Activity>, name: string): Activity
    requires NameTaken(acts, name)
  {
    acts[FindActivity(acts, name).value]
  }

  /** `create_activity`: a name already stored is refused before anything
      is added; otherwise one activity with the payload's fields and a
      fresh id is appended and the registrations are untouched. */
  function CreateStep(db: Db, p: ActivityCreate): (r: Reply)
    ensures r.outcome in {Ok, Err(AlreadyExists)}
    ensures r.outcome == Err(AlreadyExists) <==> NameTaken(db.activities, p.name)
    ensures r.outcome.Err? ==> r.after == db
    ensures r.outcome == Ok ==>
      && r.after.activities == db.activities +
           [Activity(db.nextActivityId, p.name, p.description, p.schedule, p.maxParticipants)]
      && r.after.registrations == db.registrations
      && r.after.nextActivityId > db.nextActivityId
      && r.after.nextRegistrationId == db.nextRegistrationId
  {
    if FindActivity(db.activities, p.name).Some? then
      Reply(Err(AlreadyExists), db)
    else
      var activity := Activity(db.nextActivityId, p.name, p.description, p.schedule, p.maxParticipants);
      Reply(Ok, db.(activities := db.activities + [activity], nextActivityId := db.nextActivityId + 1))
  }

  /** `signup_for_activity`: an unknown name is NotFound whatever the email;
      then an existing (activity, email) pair is AlreadySignedUp, even when
      the activity is full; then, only when a limit is set, a count that has
      reached it is Full. Success appends exactly one registration. */
  function SignupStep(db: Db, name: string, email: string): (r: Reply)
    ensures r.outcome in {Ok, Err(NotFound), Err(AlreadySignedUp), Err(Full)}
    ensures r.outcome.Err? ==> r.after == db
    ensures r.outcome == Err(NotFound) <==> !NameTaken(db.activities, name)
    ensures NameTaken(db.activities, name) ==>
      var a := Named(db.activities, name);
      && (r.outcome == Err(AlreadySignedUp) <==> SignedUp(db.registrations, a.id, email))
      && (r.outcome == Err(Full) <==>
            && !SignedUp(db.registrations, a.id, email)
            && a.maxParticipants.Some?
            && |RegistrationsOf(db.registrations, a.id)| >= a.maxParticipants.value)
      && (r.outcome == Ok ==>
            && r.after.registrations == db.registrations + [Registration(db.nextRegistrationId, email, a.id)]
            && r.after.activities == db.activities
            && r.after.nextRegistrationId > db.nextRegistrationId
            && r.after.nextActivityId == db.nextActivityId)
  {
    match FindActivity(db.activities, name)
    case None => Reply(Err(NotFound), db)
    case Some(i) =>
      var activity := db.activities[i];
      if FindRegistration(db.registrations, activity.id, email).Some? then
        Reply(Err(AlreadySignedUp), db)
      else if activity.maxParticipants.Some?
           && |RegistrationsOf(db.registrations, activity.id)| >= activity.maxParticipants.value then
        Reply(Err(Full), db)
      else
        var reg := Registration(db.nextRegistrationId, email, activity.id);
        Reply(Ok, db.(registrations := db.registrations + [reg],
                      nextRegistrationId := db.nextRegistrationId + 1))
  }

  /** `unregister_from_activity`: an unknown name is NotFound; a missing
      (activity, email) pair is NotSignedUp; otherwise exactly the first
      matching registration is removed and nothing else changes. */
  function UnregisterStep(db: Db, name: string, email: string): (r: Reply)
    ensures r.outcome in {Ok, Err(NotFound), Err(NotSignedUp)}
    ensures r.outcome.Err? ==> r.after == db
    ensures r.outcome == Err(NotFound) <==> !NameTaken(db.activities, name)
    ensures NameTaken(db.activities, name) ==>
      var a := Named(db.activities, name);
      && (r.outcome == Err(NotSignedUp) <==> !SignedUp(db.registrations, a.id, email))
      && (r.outcome == Ok ==>
            var k := FindRegistration(db.registrations, a.id, email).value;
            && r.after.registrations == db.registrations[..k] + db.registrations[k + 1..]
            && multiset(r.after.registrations) + multiset{db.registrations[k]} == multiset(db.registrations)
            && r.after.activities == db.activities
            && r.after.nextActivityId == db.nextActivityId
            && r.after.nextRegistrationId == db.nextRegistrationId)
  {
    match FindActivity(db.activities, name)
    case None => Reply(Err(NotFound), db)
    case Some(i) =>
      var activity := db.activities[i];
      match FindRegistration(db.registrations, activity.id, email)
      case None => Reply(Err(NotSignedUp), db)
      case Some(k) =>
        assert db.registrations == db.registrations[..k] + [db.registrations[k]] + db.registrations[k + 1..];
        Reply(Ok, db.(registrations := db.registrations[..k] + db.registrations[k + 1..]))
  }

  /** The listing entry of one activity: its columns and the email of each
      of its registrations. */
  function View(a: Activity, regs: seq<Registration>): ActivityView
  {
    ActivityView(a.name, a.description, a.schedule, a.maxParticipants, Emails(RegistrationsOf(regs, a.id)))
  }

  /** The participants of an activity are exactly the emails signed up for it. */
  lemma ParticipantsAreSignedUp(regs: seq<Registration>, activityId: nat, e: string)
    ensures e in Emails(RegistrationsOf(regs, activityId)) <==> SignedUp(regs, activityId, e)
  {
    var rs := RegistrationsOf(regs, activityId);
    var es := Emails(rs);
    if e in es {
      var p :| 0 <= p < |es| && es[p] == e;
      assert rs[p] in rs;
    }
    if SignedUp(regs, activityId, e) {
      var k :| 0 <= k < |regs| && regs[k].activityId == activityId && regs[k].email == e;
      assert regs[k] in rs;
      var p :| 0 <= p < |rs| && rs[p] == regs[k];
      assert es[p] == e;
    }
  }

  /** Every activity's participants are exactly the emails signed up for it. */
  lemma AllParticipantsAreSignedUp(db: Db)
    ensures forall i, e :: 0 <= i < |db.activities| ==>
      (e in Emails(RegistrationsOf(db.registrations, db.activities[i].id)) <==>
       SignedUp(db.registrations, db.activities[i].id, e))
  {
    forall i, e | 0 <= i < |db.activities|
      ensures e in Emails(RegistrationsOf(db.registrations, db.activities[i].id)) <==>
              SignedUp(db.registrations, db.activities[i].id, e)
    {
      ParticipantsAreSignedUp(db.registrations, db.activities[i].id, e);
    }
  }

  /** `get_activities`: one entry per stored activity, in table order, with
      that activity's columns; its participants are the emails signed up for
      it, one per registration. */
  function Listing(db: Db): (r: seq<ActivityView>)
    ensures |r| == |db.activities|
    ensures forall i :: 0 <= i < |r| ==>
      && r[i].name == db.activities[i].name
      && r[i].description == db.activities[i].description
      && r[i].schedule == db.activities[i].schedule
      && r[i].maxParticipants == db.activities[i].maxParticipants
      && |r[i].participants| == |RegistrationsOf(db.registrations, db.activities[i].id)|
    ensures forall i, e :: 0 <= i < |r| ==>
      (e in r[i].participants <==> SignedUp(db.registrations, db.activities[i].id, e))
  {
    AllParticipantsAreSignedUp(db);
    seq(|db.activities|, i requires 0 <= i < |db.activities| => View(db.activities[i], db.registrations))
  }

  /** Serving one request. */
  function Handle(db: Db, req: Request): Reply
  {
    match req
    case CreateActivity(p) => CreateStep(db, p)
    case Signup(name, email) => SignupStep(db, name, email)
    case Unregister(name, email) => UnregisterStep(db, name, email)
  }

  /** Serving requests one after another, each atomically. */
  function Run(db: Db, reqs: seq<Request>): Db
    decreases |reqs|
  {
    if reqs == [] then db else Run(Handle(db, reqs[0]).after, reqs[1..])
  }
}
