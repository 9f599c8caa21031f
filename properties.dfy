/** Properties of the handlers of src/app.py: each keeps the store
    invariant, so the invariant holds after any sequence of requests;
    signup and unregister undo each other; the listing reports exactly the
    registrations; and the request sequence of the project's own test
    behaves as that test expects. */
module Properties {
  import opened Models
  import opened Handlers

  // ---------------------------------------------------------------------
  // Invariant preservation

  /** The store of a new database satisfies the invariant. */
  lemma EmptyValid()
    ensures Valid(Empty)
  {
  }

  /** An activity none of whose rows refer to it has no registrations. */
  lemma {:induction false} RegistrationsOfNone(regs: seq<Registration>, activityId: nat)
    requires forall k :: 0 <= k < |regs| ==> regs[k].activityId != activityId
    ensures RegistrationsOf(regs, activityId) == []
    decreases |regs|
  {
    if regs != [] {
      RegistrationsOfNone(regs[..|regs| - 1], activityId);
    }
  }

  /** No registration refers to an id the activity table has not handed out yet. */
  lemma NoRegistrationsForFreshId(db: Db)
    requires Valid(db)
    ensures RegistrationsOf(db.registrations, db.nextActivityId) == []
  {
    forall k | 0 <= k < |db.registrations|
      ensures db.registrations[k].activityId != db.nextActivityId
    {
      assert IsActivityId(db.activities, db.registrations[k].activityId);
    }
    RegistrationsOfNone(db.registrations, db.nextActivityId);
  }

  /** `create_activity` keeps the store invariant: the new name is not
      taken, the new id is fresh, and the new activity has no registrations. */
  lemma CreatePreservesValid(db: Db, p: ActivityCreate)
    requires Valid(db)
    ensures Valid(CreateStep(db, p).after)
    ensures CreateStep(db, p).outcome == Ok ==>
      RegistrationsOf(CreateStep(db, p).after.registrations, db.nextActivityId) == []
  {
    var r := CreateStep(db, p);
    if r.outcome == Ok {
      var after := r.after;
      var n := |db.activities|;
      assert forall i :: 0 <= i < n ==> after.activities[i] == db.activities[i];
      NoRegistrationsForFreshId(db);
      forall k | 0 <= k < |after.registrations|
        ensures IsActivityId(after.activities, after.registrations[k].activityId)
      {
        var i :| 0 <= i < n && db.activities[i].id == db.registrations[k].activityId;
        assert after.activities[i].id == after.registrations[k].activityId;
      }
      assert NoOrphans(after);
    }
  }

  /** The relationship after appending one registration. */
  lemma RegistrationsOfAppend(regs: seq<Registration>, x: Registration, activityId: nat)
    ensures RegistrationsOf(regs + [x], activityId) ==
            RegistrationsOf(regs, activityId) + (if x.activityId == activityId then [x] else [])
  {
    RegistrationsOfConcat(regs, [x], activityId);
    assert [x][..0] == [];
  }

  /** `signup_for_activity` keeps the store invariant: the pair is new, the
      registration id is fresh, the activity exists, and the count was below
      the limit before the one registration was added. */
  lemma SignupPreservesValid(db: Db, name: string, email: string)
    requires Valid(db)
    ensures Valid(SignupStep(db, name, email).after)
  {
    var r := SignupStep(db, name, email);
    if r.outcome == Ok {
      var after := r.after;
      var i := FindActivity(db.activities, name).value;
      var a := db.activities[i];
      var x := Registration(db.nextRegistrationId, email, a.id);
      var n := |db.registrations|;
      assert after.registrations == db.registrations + [x];
      assert forall k :: 0 <= k < n ==> after.registrations[k] == db.registrations[k];
      assert !SignedUp(db.registrations, a.id, email);
      assert PairsUnique(after.registrations);
      assert NoOrphans(after);
      forall j | 0 <= j < |db.activities| && db.activities[j].maxParticipants.Some?
        ensures |RegistrationsOf(after.registrations, db.activities[j].id)|
                <= Capacity(db.activities[j].maxParticipants.value)
      {
        RegistrationsOfAppend(db.registrations, x, db.activities[j].id);
      }
    }
  }

  /** Removing the row at index `k` keeps keys unique and references valid. */
  lemma RemoveAtKeepsKeys(db: Db, k: nat)
    requires Valid(db) && k < |db.registrations|
    ensures var rest := db.registrations[..k] + db.registrations[k + 1..];
      && PairsUnique(rest)
      && RegistrationIdsValid(rest, db.nextRegistrationId)
      && NoOrphans(db.(registrations := rest))
  {
    var regs := db.registrations;
    var rest := regs[..k] + regs[k + 1..];
    assert forall j :: 0 <= j < |rest| ==> rest[j] == regs[if j < k then j else j + 1];
  }

  /** Removing one registration lowers its own activity's count by one and
      leaves every other count as it was. */
  lemma RegistrationsOfRemoveAt(regs: seq<Registration>, k: nat, activityId: nat)
    requires k < |regs|
    ensures |RegistrationsOf(regs[..k] + regs[k + 1..], activityId)| ==
            |RegistrationsOf(regs, activityId)| - (if regs[k].activityId == activityId then 1 else 0)
  {
    assert regs == regs[..k] + ([regs[k]] + regs[k + 1..]);
    RegistrationsOfConcat(regs[..k], [regs[k]] + regs[k + 1..], activityId);
    RegistrationsOfConcat([regs[k]], regs[k + 1..], activityId);
    RegistrationsOfConcat(regs[..k], regs[k + 1..], activityId);
  }

  /** `unregister_from_activity` keeps the store invariant. */
  lemma UnregisterPreservesValid(db: Db, name: string, email: string)
    requires Valid(db)
    ensures Valid(UnregisterStep(db, name, email).after)
  {
    var r := UnregisterStep(db, name, email);
    if r.outcome == Ok {
      var a := Named(db.activities, name);
      var k := FindRegistration(db.registrations, a.id, email).value;
      RemoveAtKeepsKeys(db, k);
      forall j | 0 <= j < |db.activities| && db.activities[j].maxParticipants.Some?
        ensures |RegistrationsOf(r.after.registrations, db.activities[j].id)|
                <= Capacity(db.activities[j].maxParticipants.value)
      {
        RegistrationsOfRemoveAt(db.registrations, k, db.activities[j].id);
      }
    }
  }

  /** Every request keeps the store invariant. */
  lemma HandlePreservesValid(db: Db, req: Request)
    requires Valid(db)
    ensures Valid(Handle(db, req).after)
  {
    match req
    case CreateActivity(p) => CreatePreservesValid(db, p);
    case Signup(name, email) => SignupPreservesValid(db, name, email);
    case Unregister(name, email) => UnregisterPreservesValid(db, name, email);
  }

  /** Any sequence of requests keeps the store invariant: names stay unique,
      (activity, email) pairs stay unique, no registration is orphaned, and
      no activity exceeds max(0, max_participants) registrations. */
  lemma {:induction false} RunPreservesValid(db: Db, reqs: seq<Request>)
    requires Valid(db)
    ensures Valid(Run(db, reqs))
    decreases |reqs|
  {
    if reqs != [] {
      HandlePreservesValid(db, reqs[0]);
      RunPreservesValid(Handle(db, reqs[0]).after, reqs[1..]);
    }
  }

  /** From the empty store, every sequence of requests leaves activity names
      pairwise distinct and each activity within its capacity. */
  lemma InvariantFromEmpty(reqs: seq<Request>)
    ensures NamesUnique(Run(Empty, reqs).activities)
    ensures WithinCapacity(Run(Empty, reqs))
  {
    EmptyValid();
    RunPreservesValid(Empty, reqs);
  }

  // ---------------------------------------------------------------------
  // Capacity

  /** With `max_participants` at or below zero, every signup that passes the
      existence and duplicate checks is refused as full. */
  lemma NonPositiveLimitAlwaysFull(db: Db, name: string, email: string)
    requires NameTaken(db.activities, name)
    requires Named(db.activities, name).maxParticipants.Some?
    requires Named(db.activities, name).maxParticipants.value <= 0
    requires !SignedUp(db.registrations, Named(db.activities, name).id, email)
    ensures SignupStep(db, name, email) == Reply(Err(Full), db)
  {
  }

  /** Unregistering from a full activity frees a slot: a student not yet
      signed up can then sign up. */
  lemma UnregisterFreesSlot(db: Db, name: string, email: string, other: string)
    requires Valid(db)
    requires UnregisterStep(db, name, email).outcome == Ok
    requires !SignedUp(db.registrations, Named(db.activities, name).id, other)
    ensures SignupStep(UnregisterStep(db, name, email).after, name, other).outcome == Ok
  {
    var after := UnregisterStep(db, name, email).after;
    var a := Named(db.activities, name);
    var k := FindRegistration(db.registrations, a.id, email).value;
    RegistrationsOfRemoveAt(db.registrations, k, a.id);
    var i := FindActivity(db.activities, name).value;
    assert |RegistrationsOf(db.registrations, a.id)| >= 1 by {
      assert db.registrations[k] in RegistrationsOf(db.registrations, a.id);
    }
    if a.maxParticipants.Some? {
      assert |RegistrationsOf(db.registrations, db.activities[i].id)| <= Capacity(a.maxParticipants.value);
    }
  }

  // ---------------------------------------------------------------------
  // Signup and unregister

  /** Right after a successful signup the same signup is refused as a
      duplicate and the store stays as it is. */
  lemma SignupTwice(db: Db, name: string, email: string)
    requires SignupStep(db, name, email).outcome == Ok
    ensures var after := SignupStep(db, name, email).after;
      SignupStep(after, name, email) == Reply(Err(AlreadySignedUp), after)
  {
    var after := SignupStep(db, name, email).after;
    var a := Named(db.activities, name);
    assert after.registrations[|db.registrations|].activityId == a.id;
    assert SignedUp(after.registrations, a.id, email);
  }

  /** Unregistering right after a successful signup succeeds and restores
      both tables; only the registration id counter has moved on. */
  lemma SignupThenUnregister(db: Db, name: string, email: string)
    requires SignupStep(db, name, email).outcome == Ok
    ensures var after := SignupStep(db, name, email).after;
      UnregisterStep(after, name, email) == Reply(Ok, after.(registrations := db.registrations))
  {
    var after := SignupStep(db, name, email).after;
    var a := Named(db.activities, name);
    var n := |db.registrations|;
    assert !SignedUp(db.registrations, a.id, email);
    assert after.registrations[n].activityId == a.id && after.registrations[n].email == email;
    var found := FindRegistration(after.registrations, a.id, email);
    assert found == Some(n);
    assert after.registrations[..n] == db.registrations;
  }

  /** After a successful unregister the pair is no longer signed up, so a
      second unregister is refused and a new signup does not hit the
      duplicate check. Relies on pairs being unique beforehand. */
  lemma UnregisterClearsPair(db: Db, name: string, email: string)
    requires Valid(db)
    requires UnregisterStep(db, name, email).outcome == Ok
    ensures var after := UnregisterStep(db, name, email).after;
      && !SignedUp(after.registrations, Named(db.activities, name).id, email)
      && UnregisterStep(after, name, email) == Reply(Err(NotSignedUp), after)
      && SignupStep(after, name, email).outcome != Err(AlreadySignedUp)
  {
    var after := UnregisterStep(db, name, email).after;
    var a := Named(db.activities, name);
    var regs := db.registrations;
    var k := FindRegistration(regs, a.id, email).value;
    var rest := after.registrations;
    assert rest == regs[..k] + regs[k + 1..];
  }

  /** Signup, unregister, signup of the same pair: the second signup
      succeeds again, since unregistering freed the slot it took. */
  lemma SignupUnregisterSignup(db: Db, name: string, email: string)
    requires SignupStep(db, name, email).outcome == Ok
    ensures var s1 := SignupStep(db, name, email).after;
      var u := UnregisterStep(s1, name, email).after;
      SignupStep(u, name, email).outcome == Ok
  {
    SignupThenUnregister(db, name, email);
  }

  /** The request sequence of the project's test: create an activity whose
      name is free and whose limit admits one student, sign a student up,
      sign up again (refused), unregister (accepted), unregister again
      (refused). */
  lemma TestedFlow(db: Db, p: ActivityCreate, email: string)
    requires Valid(db)
    requires !NameTaken(db.activities, p.name)
    requires p.maxParticipants.None? || p.maxParticipants.value >= 1
    ensures var c := CreateStep(db, p);
      var s1 := SignupStep(c.after, p.name, email);
      var s2 := SignupStep(s1.after, p.name, email);
      var u1 := UnregisterStep(s2.after, p.name, email);
      var u2 := UnregisterStep(u1.after, p.name, email);
      && c.outcome == Ok
      && s1.outcome == Ok
      && s2.outcome == Err(AlreadySignedUp)
      && u1.outcome == Ok
      && u2.outcome == Err(NotSignedUp)
  {
    var c := CreateStep(db, p);
    CreatePreservesValid(db, p);
    var n := |db.activities|;
    assert c.after.activities[n].name == p.name;
    assert FindActivity(c.after.activities, p.name) == Some(n);
    NoRegistrationsForFreshId(db);
    var s1 := SignupStep(c.after, p.name, email);
    assert s1.outcome == Ok;
    SignupTwice(c.after, p.name, email);
    SignupPreservesValid(c.after, p.name, email);
    var s2 := SignupStep(s1.after, p.name, email);
    assert s2.after == s1.after;
    UnregisterClearsPair(s1.after, p.name, email);
  }

  // ---------------------------------------------------------------------
  // Listing

  /** No row occurs twice. */
  predicate DistinctRows(rs: seq<Registration>)
  {
    forall p, q :: 0 <= p < q < |rs| ==> rs[p] != rs[q]
  }

  /** Registrations of a table whose rows are distinct are distinct. */
  lemma {:induction false} RegistrationsOfDistinct(regs: seq<Registration>, activityId: nat)
    requires DistinctRows(regs)
    ensures DistinctRows(RegistrationsOf(regs, activityId))
    decreases |regs|
  {
    if regs != [] {
      var n := |regs| - 1;
      var init := regs[..n];
      assert forall k :: 0 <= k < n ==> init[k] == regs[k];
      RegistrationsOfDistinct(init, activityId);
      assert regs[n] !in init;
      var rest := RegistrationsOf(init, activityId);
      assert regs[n] !in rest;
      if regs[n].activityId == activityId {
        var rs := rest + [regs[n]];
        assert regs == init + [regs[n]];
        assert RegistrationsOf(regs, activityId) == rs;
        forall p, q | 0 <= p < q < |rs| ensures rs[p] != rs[q] {
          if q == |rest| {
            assert rs[p] == rest[p] && rs[q] == regs[n];
            assert rest[p] in rest;
          } else {
            assert rs[p] == rest[p] && rs[q] == rest[q];
          }
        }
      } else {
        assert regs == init + [regs[n]];
        assert RegistrationsOf(regs, activityId) == rest;
      }
    }
  }

  /** With (activity, email) pairs unique, no email is listed twice. */
  lemma ParticipantsDistinct(regs: seq<Registration>, activityId: nat)
    requires PairsUnique(regs)
    ensures var es := Emails(RegistrationsOf(regs, activityId));
      forall p, q :: 0 <= p < q < |es| ==> es[p] != es[q]
  {
    var rs := RegistrationsOf(regs, activityId);
    var es := Emails(rs);
    RegistrationsOfDistinct(regs, activityId);
    forall p, q | 0 <= p < q < |es| ensures es[p] != es[q] {
      assert rs[p] in rs && rs[q] in rs;
      var k :| 0 <= k < |regs| && regs[k] == rs[p];
      var l :| 0 <= l < |regs| && regs[l] == rs[q];
      assert es[p] == rs[p].email && es[q] == rs[q].email;
      assert rs[p].activityId == activityId == rs[q].activityId;
      assert k != l;
    }
  }

  /** `get_activities` reports every stored activity with its own columns,
      and its `participants` hold exactly the emails signed up for it, one
      per registration and without repetition. */
  lemma ListingReportsRegistrations(db: Db, i: nat)
    requires Valid(db) && i < |db.activities|
    ensures |Listing(db)| == |db.activities|
    ensures var v := Listing(db)[i];
      var a := db.activities[i];
      && v.name == a.name && v.description == a.description
      && v.schedule == a.schedule && v.maxParticipants == a.maxParticipants
      && |v.participants| == |RegistrationsOf(db.registrations, a.id)|
      && (forall e :: e in v.participants <==> SignedUp(db.registrations, a.id, e))
      && (forall p, q :: 0 <= p < q < |v.participants| ==> v.participants[p] != v.participants[q])
  {
    var a := db.activities[i];
    forall e ensures e in Listing(db)[i].participants <==> SignedUp(db.registrations, a.id, e) {
      ParticipantsAreSignedUp(db.registrations, a.id, e);
    }
    ParticipantsDistinct(db.registrations, a.id);
  }

  /** A created activity appears at the end of the listing with no
      participants; the entries before it are unchanged. */
  lemma CreateThenListed(db: Db, p: ActivityCreate)
    requires Valid(db)
    requires CreateStep(db, p).outcome == Ok
    ensures var l := Listing(CreateStep(db, p).after);
      && l == Listing(db) + [ActivityView(p.name, p.description, p.schedule, p.maxParticipants, [])]
  {
    NoRegistrationsForFreshId(db);
    var after := CreateStep(db, p).after;
    var l := Listing(after);
    var n := |db.activities|;
    assert forall i :: 0 <= i < n ==> l[i] == Listing(db)[i];
    assert l[n].participants == [];
  }

  /** One listing entry after a successful signup. */
  lemma SignupListedAt(db: Db, name: string, email: string, i: nat)
    requires NamesUnique(db.activities) && ActivityIdsValid(db.activities, db.nextActivityId)
    requires SignupStep(db, name, email).outcome == Ok
    requires i < |db.activities|
    ensures var after := SignupStep(db, name, email).after;
      Listing(after)[i] ==
        if db.activities[i].name == name
        then Listing(db)[i].(participants := Listing(db)[i].participants + [email])
        else Listing(db)[i]
  {
    var after := SignupStep(db, name, email).after;
    var fi := FindActivity(db.activities, name).value;
    var a := db.activities[fi];
    var x := Registration(db.nextRegistrationId, email, a.id);
    var c := db.activities[i];
    assert after.registrations == db.registrations + [x];
    assert Listing(after)[i] == View(c, after.registrations);
    assert Listing(db)[i] == View(c, db.registrations);
    RegistrationsOfAppend(db.registrations, x, c.id);
    assert c.id == a.id <==> i == fi;
    assert c.name == name <==> i == fi;
    if c.id == a.id {
      assert Emails(RegistrationsOf(db.registrations, c.id) + [x]) ==
             Emails(RegistrationsOf(db.registrations, c.id)) + [email];
    }
  }

  /** A successful signup adds the email at the end of its activity's
      participants and leaves every other entry of the listing as it was. */
  lemma SignupThenListed(db: Db, name: string, email: string)
    requires Valid(db)
    requires SignupStep(db, name, email).outcome == Ok
    ensures var before := Listing(db);
      var l := Listing(SignupStep(db, name, email).after);
      && |l| == |before|
      && forall i :: 0 <= i < |l| ==>
           if db.activities[i].name == name
           then l[i] == before[i].(participants := before[i].participants + [email])
           else l[i] == before[i]
  {
    forall i | 0 <= i < |db.activities|
      ensures Listing(SignupStep(db, name, email).after)[i] ==
        if db.activities[i].name == name
        then Listing(db)[i].(participants := Listing(db)[i].participants + [email])
        else Listing(db)[i]
    {
      SignupListedAt(db, name, email, i);
    }
  }
}
