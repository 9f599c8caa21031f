/** The two tables of the registration store and the invariants kept over them
    (src/models.py): activities, registrations, the relationship from an activity
    to its registrations, and the cascade that deletes registrations with their
    activity. */
module Models {

  datatype Option<T> = None | Some(value: T)

  /** A row of the `activities` table. `name` is required; the other
      three columns are nullable. A missing `maxParticipants` means no limit. */
  datatype Activity = Activity(
    id: nat,
    name: string,
    description: Option<string>,
    schedule: Option<string>,
    maxParticipants: Option<int>)

  /** A row of the `registrations` table; `created_at` is not modelled. */
  datatype Registration = Registration(id: nat, email: string, activityId: nat)

  /** Both tables, each in insertion order, and the next primary key
      each table hands out. */
  datatype Db = Db(
    activities: seq<Activity>,
    registrations: seq<Registration>,
    nextActivityId: nat,
    nextRegistrationId: nat)

  /** The store of a new database: both tables empty. */
  const Empty: Db := Db([], [], 1, 1)

  /** The relationship `Activity.registrations`: the registrations whose
      `activityId` is `activityId`, in table order. */
  function RegistrationsOf(regs: seq<Registration>, activityId: nat): (r: seq<Registration>)
    ensures |r| <= |regs|
    ensures forall x :: x in r <==> x in regs && x.activityId == activityId
  {
    if regs == [] then []
    else
      var rest := RegistrationsOf(regs[..|regs| - 1], activityId);
      var last := regs[|regs| - 1];
      assert regs == regs[..|regs| - 1] + [last];
      if last.activityId == activityId then rest + [last] else rest
  }

  /** The emails of a list of registrations, one per registration. */
  function Emails(rs: seq<Registration>): seq<string>
  {
    seq(|rs|, i requires 0 <= i < |rs| => rs[i].email)
  }

  /** Capacity granted by `max_participants = m`: a count `c` passes the
      handler's test `c >= m` only while `c < m`, so never more than max(0, m). */
  function Capacity(m: int): nat
  {
    if m < 0 then 0 else m
  }

  /** `name` is unique across activities (src/models.py:12). */
  predicate NamesUnique(acts: seq<Activity>)
  {
    forall i, j :: 0 <= i < |acts| && 0 <= j < |acts| && acts[i].name == acts[j].name ==> i == j
  }

  /** Activity ids are distinct primary keys, all below the next id handed out. */
  predicate ActivityIdsValid(acts: seq<Activity>, next: nat)
  {
    (forall i :: 0 <= i < |acts| ==> acts[i].id < next) &&
    (forall i, j :: 0 <= i < |acts| && 0 <= j < |acts| && acts[i].id == acts[j].id ==> i == j)
  }

  /** Registration ids are distinct primary keys, all below the next id handed out. */
  predicate RegistrationIdsValid(regs: seq<Registration>, next: nat)
  {
    (forall k :: 0 <= k < |regs| ==> regs[k].id < next) &&
    (forall k, l :: 0 <= k < |regs| && 0 <= l < |regs| && regs[k].id == regs[l].id ==> k == l)
  }

  /** At most one registration per (activity, email) pair. The schema does
      not enforce this; only the signup handler's check keeps it. */
  predicate PairsUnique(regs: seq<Registration>)
  {
    forall k, l ::
      0 <= k < |regs| && 0 <= l < |regs| &&
      regs[k].activityId == regs[l].activityId && regs[k].email == regs[l].email
      ==> k == l
  }

  predicate IsActivityId(acts: seq<Activity>, id: nat)
  {
    exists i :: 0 <= i < |acts| && acts[i].id == id
  }

  /** Every registration refers to a stored activity (src/models.py:25). */
  predicate NoOrphans(db: Db)
  {
    forall k :: 0 <= k < |db.registrations| ==> IsActivityId(db.activities, db.registrations[k].activityId)
  }

  /** No activity with a limit holds more registrations than its capacity. */
  predicate WithinCapacity(db: Db)
  {
    forall i :: 0 <= i < |db.activities| && db.activities[i].maxParticipants.Some? ==>
      |RegistrationsOf(db.registrations, db.activities[i].id)| <= Capacity(db.activities[i].maxParticipants.value)
  }

  /** The store invariant. */
  predicate Valid(db: Db)
  {
    && NamesUnique(db.activities)
    && ActivityIdsValid(db.activities, db.nextActivityId)
    && RegistrationIdsValid(db.registrations, db.nextRegistrationId)
    && PairsUnique(db.registrations)
    && NoOrphans(db)
    && WithinCapacity(db)
  }

  /** The activities whose id is not `id`, in table order. */
  function OtherActivities(acts: seq<Activity>, id: nat): (r: seq<Activity>)
    ensures forall a :: a in r <==> a in acts && a.id != id
  {
    if acts == [] then []
    else
      var rest := OtherActivities(acts[..|acts| - 1], id);
      var last := acts[|acts| - 1];
      assert acts == acts[..|acts| - 1] + [last];
      if last.id != id then rest + [last] else rest
  }

  /** The registrations not belonging to activity `id`, in table order. */
  function OtherRegistrations(regs: seq<Registration>, id: nat): (r: seq<Registration>)
    ensures forall x :: x in r <==> x in regs && x.activityId != id
  {
    if regs == [] then []
    else
      var rest := OtherRegistrations(regs[..|regs| - 1], id);
      var last := regs[|regs| - 1];
      assert regs == regs[..|regs| - 1] + [last];
      if last.activityId != id then rest + [last] else rest
  }

  /** Deleting activity `id` through the ORM: the `delete-orphan` cascade
      (src/models.py:17) and `ondelete="CASCADE"` (src/models.py:25) take
      its registrations with it. No endpoint calls this. */
  function DeleteActivity(db: Db, id: nat): (r: Db)
    ensures forall a :: a in r.activities <==> a in db.activities && a.id != id
    ensures forall x :: x in r.registrations <==> x in db.registrations && x.activityId != id
    ensures r.nextActivityId == db.nextActivityId && r.nextRegistrationId == db.nextRegistrationId
  {
    db.(activities := OtherActivities(db.activities, id),
        registrations := OtherRegistrations(db.registrations, id))
  }

  /** The relationship distributes over appending rows. */
  lemma {:induction false} RegistrationsOfConcat(a: seq<Registration>, b: seq<Registration>, activityId: nat)
    ensures RegistrationsOf(a + b, activityId) == RegistrationsOf(a, activityId) + RegistrationsOf(b, activityId)
    decreases |b|
  {
    if b == [] {
      assert a + b == a;
    } else {
      var b' := b[..|b| - 1];
      assert (a + b)[..|a + b| - 1] == a + b';
      RegistrationsOfConcat(a, b', activityId);
    }
  }

  /** Dropping the registrations of another activity leaves an activity's
      registrations as they were. */
  lemma {:induction false} RegistrationsOfOthers(regs: seq<Registration>, id: nat, activityId: nat)
    requires activityId != id
    ensures RegistrationsOf(OtherRegistrations(regs, id), activityId) == RegistrationsOf(regs, activityId)
    decreases |regs|
  {
    if regs != [] {
      var init := regs[..|regs| - 1];
      var last := regs[|regs| - 1];
      RegistrationsOfOthers(init, id, activityId);
      if last.activityId != id {
        RegistrationsOfConcat(OtherRegistrations(init, id), [last], activityId);
      }
    }
  }

  /** Appending a registration whose keys are new keeps the keys unique. */
  lemma AppendRegistrationKeepsKeys(rest: seq<Registration>, x: Registration, next: nat)
    requires PairsUnique(rest) && RegistrationIdsValid(rest, next) && x.id < next
    requires forall y :: y in rest ==> y.id != x.id && (y.activityId != x.activityId || y.email != x.email)
    ensures PairsUnique(rest + [x]) && RegistrationIdsValid(rest + [x], next)
  {
    var s := rest + [x];
    forall k | 0 <= k < |rest| ensures s[k] == rest[k] && rest[k] in rest { }
  }

  /** A prefix of the registration table keeps its keys unique. */
  lemma RegistrationPrefixKeepsKeys(regs: seq<Registration>, n: nat, next: nat)
    requires PairsUnique(regs) && RegistrationIdsValid(regs, next) && n <= |regs|
    ensures PairsUnique(regs[..n]) && RegistrationIdsValid(regs[..n], next)
  {
    assert forall k :: 0 <= k < n ==> regs[..n][k] == regs[k];
  }

  /** Filtering registrations keeps (activity, email) pairs unique and ids valid. */
  lemma {:induction false} OtherRegistrationsKeepKeys(regs: seq<Registration>, id: nat, next: nat)
    requires PairsUnique(regs) && RegistrationIdsValid(regs, next)
    ensures PairsUnique(OtherRegistrations(regs, id))
    ensures RegistrationIdsValid(OtherRegistrations(regs, id), next)
    decreases |regs|
  {
    if regs != [] {
      var n := |regs| - 1;
      var init := regs[..n];
      var last := regs[n];
      RegistrationPrefixKeepsKeys(regs, n, next);
      OtherRegistrationsKeepKeys(init, id, next);
      var rest := OtherRegistrations(init, id);
      if last.activityId != id {
        forall y | y in rest
          ensures y.id != last.id && (y.activityId != last.activityId || y.email != last.email)
        {
          var k :| 0 <= k < n && init[k] == y;
          assert regs[k] == y;
        }
        AppendRegistrationKeepsKeys(rest, last, next);
      }
    }
  }

  /** Appending an activity whose name and id are new keeps them unique. */
  lemma AppendActivityKeepsKeys(rest: seq<Activity>, a: Activity, next: nat)
    requires NamesUnique(rest) && ActivityIdsValid(rest, next) && a.id < next
    requires forall b :: b in rest ==> b.id != a.id && b.name != a.name
    ensures NamesUnique(rest + [a]) && ActivityIdsValid(rest + [a], next)
  {
    var s := rest + [a];
    forall i | 0 <= i < |rest| ensures s[i] == rest[i] && rest[i] in rest { }
  }

  /** A prefix of the activity table keeps its keys unique. */
  lemma ActivityPrefixKeepsKeys(acts: seq<Activity>, n: nat, next: nat)
    requires NamesUnique(acts) && ActivityIdsValid(acts, next) && n <= |acts|
    ensures NamesUnique(acts[..n]) && ActivityIdsValid(acts[..n], next)
  {
    assert forall i :: 0 <= i < n ==> acts[..n][i] == acts[i];
  }

  /** Filtering activities keeps names unique and ids valid. */
  lemma {:induction false} OtherActivitiesKeepKeys(acts: seq<Activity>, id: nat, next: nat)
    requires NamesUnique(acts) && ActivityIdsValid(acts, next)
    ensures NamesUnique(OtherActivities(acts, id))
    ensures ActivityIdsValid(OtherActivities(acts, id), next)
    decreases |acts|
  {
    if acts != [] {
      var n := |acts| - 1;
      var init := acts[..n];
      var last := acts[n];
      ActivityPrefixKeepsKeys(acts, n, next);
      OtherActivitiesKeepKeys(init, id, next);
      var rest := OtherActivities(init, id);
      if last.id != id {
        forall b | b in rest
          ensures b.id != last.id && b.name != last.name
        {
          var i :| 0 <= i < n && init[i] == b;
          assert acts[i] == b;
        }
        AppendActivityKeepsKeys(rest, last, next);
      }
    }
  }

  /** After a cascade delete every remaining registration still has its activity. */
  lemma DeleteActivityNoOrphans(db: Db, id: nat)
    requires NoOrphans(db)
    ensures NoOrphans(DeleteActivity(db, id))
  {
    var after := DeleteActivity(db, id);
    forall k | 0 <= k < |after.registrations|
      ensures IsActivityId(after.activities, after.registrations[k].activityId)
    {
      var x := after.registrations[k];
      assert x in after.registrations;
      var k0 :| 0 <= k0 < |db.registrations| && db.registrations[k0] == x;
      var i :| 0 <= i < |db.activities| && db.activities[i].id == x.activityId;
      assert db.activities[i] in after.activities;
      var j :| 0 <= j < |after.activities| && after.activities[j] == db.activities[i];
    }
  }

  /** After a cascade delete every remaining activity is still within capacity. */
  lemma DeleteActivityWithinCapacity(db: Db, id: nat)
    requires WithinCapacity(db)
    ensures WithinCapacity(DeleteActivity(db, id))
  {
    var after := DeleteActivity(db, id);
    forall j | 0 <= j < |after.activities| && after.activities[j].maxParticipants.Some?
      ensures |RegistrationsOf(after.registrations, after.activities[j].id)|
              <= Capacity(after.activities[j].maxParticipants.value)
    {
      var a := after.activities[j];
      assert a in after.activities;
      var i :| 0 <= i < |db.activities| && db.activities[i] == a;
      RegistrationsOfOthers(db.registrations, id, a.id);
    }
  }

  /** Deleting an activity keeps the store invariant, leaves no activity
      with that id and no registration of it behind, and every other
      activity keeps exactly its registrations. */
  lemma DeleteActivityCascades(db: Db, id: nat)
    requires Valid(db)
    ensures Valid(DeleteActivity(db, id))
    ensures !IsActivityId(DeleteActivity(db, id).activities, id)
    ensures RegistrationsOf(DeleteActivity(db, id).registrations, id) == []
    ensures forall other :: other != id ==>
      RegistrationsOf(DeleteActivity(db, id).registrations, other) == RegistrationsOf(db.registrations, other)
  {
    var after := DeleteActivity(db, id);
    OtherActivitiesKeepKeys(db.activities, id, db.nextActivityId);
    OtherRegistrationsKeepKeys(db.registrations, id, db.nextRegistrationId);
    DeleteActivityNoOrphans(db, id);
    DeleteActivityWithinCapacity(db, id);
    forall other | other != id
      ensures RegistrationsOf(after.registrations, other) == RegistrationsOf(db.registrations, other)
    {
      RegistrationsOfOthers(db.registrations, id, other);
    }
    if RegistrationsOf(after.registrations, id) != [] {
      assert RegistrationsOf(after.registrations, id)[0] in RegistrationsOf(after.registrations, id);
      assert false;
    }
  }
}
