/** The request handlers of the web application, each as a transition of the
    record store: Ok(new store) when the handler commits, Err(reason) when it
    stops early or its commit is rolled back, in which case the store is the
    one it started from. The session's current user is the explicit actor. */
module Handlers {
  import opened Models
  import opened Ordering
  import opened Queries

  /** Why a handler changed nothing (the message it flashes or the abort). */
  datatype Error =
    | AccessDenied          // the role gate sent the user back to the dashboard
    | MissingDetails        // a required form field is absent or empty
    | SlotAlreadyBooked     // the booking pre-check found a Booked appointment
    | IntegrityError        // the store refused the commit; it was rolled back
    | NotFound              // no row with that primary key (404)
    | Unauthorized          // cancelling another patient's appointment
    | NotCancellable        // cancelling an appointment that is not Booked
    | Forbidden             // completing another doctor's appointment (403)
    | UsernameExists        // the username check before creating an account
    | CannotBlacklistAdmin  // toggling an Admin account
    | AlreadyAuthenticated  // registering while logged in
    | HashingFailed         // no password given: hashing raises before the store is touched

  datatype Result<T> = Ok(value: T) | Err(error: Error)

  /** The logged-in user as the handlers see it. */
  datatype Actor = Actor(id: int, role: Role)

  /** The role gate put in front of every role-specific handler. */
  predicate HasRole(actor: Actor, role: Role)
  {
    actor.role == role
  }

  // ---------------------------------------------------------------------
  // Booking
  // ---------------------------------------------------------------------

  /** A patient books (doctor, date, time). The pre-check looks only for a
      Booked appointment at that triple; the UNIQUE constraint then refuses
      any stored appointment at the triple, whatever its status. */
  function BookAppointment(db: Db, actor: Actor, doctorId: Option<int>, date: string, time: string): (r: Result<Db>)
    ensures r.Ok? <==> HasRole(actor, Patient) && doctorId.Some? && date != "" && time != ""
                       && !SlotTaken(db.appointments, doctorId.value, date, time)
    ensures HasRole(actor, Patient) && (doctorId.None? || date == "" || time == "") ==> r == Err(MissingDetails)
    ensures r == Err(SlotAlreadyBooked) <==> HasRole(actor, Patient) && doctorId.Some? && date != "" && time != ""
                                             && HasBookedAt(db.appointments, doctorId.value, date, time)
    ensures r == Err(IntegrityError) ==> doctorId.Some? && !HasBookedAt(db.appointments, doctorId.value, date, time)
                                         && SlotTaken(db.appointments, doctorId.value, date, time)
    ensures r.Ok? ==>
              && |r.value.appointments| == |db.appointments| + 1
              && r.value.appointments[..|db.appointments|] == db.appointments
              && r.value.appointments[|db.appointments|..]
                 == [Appointment(db.nextAppointmentId, actor.id, doctorId.value, date, time, Booked)]
              && r.value == db.(appointments := r.value.appointments, nextAppointmentId := db.nextAppointmentId + 1)
  {
    if !HasRole(actor, Patient) then Err(AccessDenied)
    else if doctorId.None? || date == "" || time == "" then Err(MissingDetails)
    else if HasBookedAt(db.appointments, doctorId.value, date, time) then Err(SlotAlreadyBooked)
    else if SlotTaken(db.appointments, doctorId.value, date, time) then Err(IntegrityError)
    else
      var a := Appointment(db.nextAppointmentId, actor.id, doctorId.value, date, time, DefaultStatus);
      assert (db.appointments + [a])[..|db.appointments|] == db.appointments;
      Ok(db.(appointments := db.appointments + [a], nextAppointmentId := db.nextAppointmentId + 1))
  }

  lemma BookAppointmentPreservesValid(db: Db, actor: Actor, doctorId: Option<int>, date: string, time: string)
    requires db.Valid()
    ensures BookAppointment(db, actor, doctorId, date, time).Ok? ==> BookAppointment(db, actor, doctorId, date, time).value.Valid()
  {
    var r := BookAppointment(db, actor, doctorId, date, time);
    if r.Ok? {
      var a := Appointment(db.nextAppointmentId, actor.id, doctorId.value, date, time, Booked);
      assert r.value.appointments == db.appointments + [a];
      AppendAppointmentConstraints(db.appointments, db.nextAppointmentId, a);
      forall k | 0 <= k < |db.treatments| ensures HasAppointmentId(r.value.appointments, db.treatments[k].appointmentId) {
        var i :| 0 <= i < |db.appointments| && db.appointments[i].id == db.treatments[k].appointmentId;
        assert r.value.appointments[i] == db.appointments[i];
      }
    }
  }

  /** A (doctor, date, time) whose appointment was cancelled (or completed)
      passes the pre-check and is then refused by the store: it can never be
      booked again. */
  lemma UsedSlotIsRefusedAtCommit(db: Db, actor: Actor, i: nat)
    requires db.Constraints() && i < |db.appointments| && db.appointments[i].status != Booked
    requires HasRole(actor, Patient) && db.appointments[i].date != "" && db.appointments[i].time != ""
    ensures var a := db.appointments[i];
            BookAppointment(db, actor, Some(a.doctorId), a.date, a.time) == Err(IntegrityError)
  {
    var a := db.appointments[i];
    assert SlotTaken(db.appointments, a.doctorId, a.date, a.time);
  }

  /** Once a booking of (doctor, date, time) commits, the next attempt by
      anyone fails: the pre-check sees the new Booked row. */
  lemma SecondBookingIsRefused(db: Db, first: Actor, second: Actor, doctorId: int, date: string, time: string)
    requires BookAppointment(db, first, Some(doctorId), date, time).Ok?
    ensures var db' := BookAppointment(db, first, Some(doctorId), date, time).value;
            && BookAppointment(db', second, Some(doctorId), date, time).Err?
            && (HasRole(second, Patient) ==> BookAppointment(db', second, Some(doctorId), date, time) == Err(SlotAlreadyBooked))
  {
    var db' := BookAppointment(db, first, Some(doctorId), date, time).value;
    var n := |db.appointments|;
    assert db'.appointments[n] == db'.appointments[n..][0];
    assert HasBookedAt(db'.appointments, doctorId, date, time);
  }

  // ---------------------------------------------------------------------
  // Cancelling and completing
  // ---------------------------------------------------------------------

  /** A patient cancels one of their own Booked appointments. */
  function CancelAppointment(db: Db, actor: Actor, apptId: int): (r: Result<Db>)
    ensures !HasAppointmentId(db.appointments, apptId) && HasRole(actor, Patient) ==> r == Err(NotFound)
    ensures r.Ok? ==>
              exists i :: 0 <= i < |db.appointments| && db.appointments[i].id == apptId
                          && db.appointments[i].patientId == actor.id && db.appointments[i].status == Booked
                          && r.value == db.(appointments := db.appointments[i := db.appointments[i].(status := Cancelled)])
  {
    if !HasRole(actor, Patient) then Err(AccessDenied)
    else match FindAppointment(db.appointments, apptId)
      case None => Err(NotFound)
      case Some(i) =>
        var a := db.appointments[i];
        if a.patientId != actor.id then Err(Unauthorized)
        else if a.status != Booked then Err(NotCancellable)
        else Ok(db.(appointments := db.appointments[i := a.(status := Cancelled)]))
  }

  /** With unique appointment ids: cancelling appointment i succeeds exactly
      for its patient while it is Booked, and then only its status changes,
      to Cancelled. A Completed or Cancelled appointment is never cancelled. */
  lemma CancelAppointmentExactly(db: Db, actor: Actor, i: nat)
    requires db.Constraints() && i < |db.appointments|
    ensures var a := db.appointments[i];
            var r := CancelAppointment(db, actor, a.id);
            && (r.Ok? <==> HasRole(actor, Patient) && a.patientId == actor.id && a.status == Booked)
            && (r.Ok? ==> r.value == db.(appointments := db.appointments[i := a.(status := Cancelled)]))
            && (HasRole(actor, Patient) && a.patientId == actor.id && a.status != Booked ==> r == Err(NotCancellable))
  {
    FindAppointmentUnique(db.appointments, i);
  }

  lemma CancelAppointmentPreservesValid(db: Db, actor: Actor, apptId: int)
    requires db.Valid()
    ensures CancelAppointment(db, actor, apptId).Ok? ==> CancelAppointment(db, actor, apptId).value.Valid()
  {
    var r := CancelAppointment(db, actor, apptId);
    if r.Ok? {
      var i := FindAppointment(db.appointments, apptId).value;
      SetStatusConstraints(db.appointments, db.nextAppointmentId, i, Cancelled);
      forall k | 0 <= k < |db.treatments| ensures HasAppointmentId(r.value.appointments, db.treatments[k].appointmentId) {
        SetStatusKeepsIds(db.appointments, i, Cancelled, db.treatments[k].appointmentId);
      }
    }
  }

  /** A doctor closes one of their appointments: its status becomes Completed
      (whatever it was) and one treatment row for it is inserted. The UNIQUE
      appointment_id of the treatment table refuses a second completion, and
      the rollback undoes the status change too. */
  function CompleteAppointment(db: Db, actor: Actor, apptId: int,
                               diagnosis: Option<string>, prescription: Option<string>, notes: Option<string>): (r: Result<Db>)
    ensures !HasAppointmentId(db.appointments, apptId) && HasRole(actor, Doctor) ==> r == Err(NotFound)
    ensures HasTreatment(db.treatments, apptId) ==> r.Err?
    ensures r.Ok? ==>
              exists i :: 0 <= i < |db.appointments| && db.appointments[i].id == apptId
                          && db.appointments[i].doctorId == actor.id
                          && r.value == db.(appointments := db.appointments[i := db.appointments[i].(status := Completed)],
                                            treatments := db.treatments + [Treatment(db.nextTreatmentId, apptId, diagnosis, prescription, notes)],
                                            nextTreatmentId := db.nextTreatmentId + 1)
  {
    if !HasRole(actor, Doctor) then Err(AccessDenied)
    else match FindAppointment(db.appointments, apptId)
      case None => Err(NotFound)
      case Some(i) =>
        var a := db.appointments[i];
        if a.doctorId != actor.id then Err(Forbidden)
        else if HasTreatment(db.treatments, apptId) then Err(IntegrityError)
        else Ok(db.(appointments := db.appointments[i := a.(status := Completed)],
                    treatments := db.treatments + [Treatment(db.nextTreatmentId, apptId, diagnosis, prescription, notes)],
                    nextTreatmentId := db.nextTreatmentId + 1))
  }

  /** With unique appointment ids: completing appointment i succeeds exactly
      for its doctor while it has no treatment row, in any status. */
  lemma CompleteAppointmentExactly(db: Db, actor: Actor, i: nat,
                                   diagnosis: Option<string>, prescription: Option<string>, notes: Option<string>)
    requires db.Constraints() && i < |db.appointments|
    ensures var a := db.appointments[i];
            var r := CompleteAppointment(db, actor, a.id, diagnosis, prescription, notes);
            && (r.Ok? <==> HasRole(actor, Doctor) && a.doctorId == actor.id && !HasTreatment(db.treatments, a.id))
            && (HasRole(actor, Doctor) && a.doctorId != actor.id ==> r == Err(Forbidden))
            && (r.Ok? ==> |r.value.treatments| == |db.treatments| + 1
                          && r.value.treatments[|db.treatments|].appointmentId == a.id
                          && r.value.appointments[i].status == Completed)
  {
    FindAppointmentUnique(db.appointments, i);
  }

  /** Completing the same appointment again fails and changes nothing. */
  lemma SecondCompletionIsRefused(db: Db, actor: Actor, other: Actor, apptId: int,
                                  diagnosis: Option<string>, prescription: Option<string>, notes: Option<string>,
                                  diagnosis': Option<string>, prescription': Option<string>, notes': Option<string>)
    requires CompleteAppointment(db, actor, apptId, diagnosis, prescription, notes).Ok?
    ensures var db' := CompleteAppointment(db, actor, apptId, diagnosis, prescription, notes).value;
            && CompleteAppointment(db', other, apptId, diagnosis', prescription', notes').Err?
            && (other == actor ==> CompleteAppointment(db', other, apptId, diagnosis', prescription', notes') == Err(IntegrityError))
  {
    var db' := CompleteAppointment(db, actor, apptId, diagnosis, prescription, notes).value;
    var n := |db.treatments|;
    assert db'.treatments[n].appointmentId == apptId;
    assert HasTreatment(db'.treatments, apptId);
    var i := FindAppointment(db.appointments, apptId).value;
    assert db'.appointments[i].id == apptId;
    var j := FindAppointment(db'.appointments, apptId).value;
    assert db'.appointments[j].doctorId == db.appointments[j].doctorId;
  }

  lemma CompleteAppointmentPreservesValid(db: Db, actor: Actor, apptId: int,
                                          diagnosis: Option<string>, prescription: Option<string>, notes: Option<string>)
    requires db.Valid()
    ensures var r := CompleteAppointment(db, actor, apptId, diagnosis, prescription, notes);
            r.Ok? ==> r.value.Valid()
  {
    var r := CompleteAppointment(db, actor, apptId, diagnosis, prescription, notes);
    if r.Ok? {
      var i := FindAppointment(db.appointments, apptId).value;
      var t := Treatment(db.nextTreatmentId, apptId, diagnosis, prescription, notes);
      SetStatusConstraints(db.appointments, db.nextAppointmentId, i, Completed);
      assert r.value.treatments == db.treatments + [t];
      forall k, l | 0 <= k < l < |r.value.treatments|
        ensures r.value.treatments[k].appointmentId != r.value.treatments[l].appointmentId
      {
        if l == |db.treatments| {
          assert r.value.treatments[k] == db.treatments[k];
        }
      }
      forall k | 0 <= k < |r.value.treatments| ensures HasAppointmentId(r.value.appointments, r.value.treatments[k].appointmentId) {
        SetStatusKeepsIds(db.appointments, i, Completed, r.value.treatments[k].appointmentId);
        if k < |db.treatments| {
          assert r.value.treatments[k] == db.treatments[k];
        } else {
          assert db.appointments[i].id == apptId;
        }
      }
    }
  }

  // ---------------------------------------------------------------------
  // Availability
  // ---------------------------------------------------------------------

  /** At most one window per (doctor, date): what the upsert keeps (the
      table's own constraint is only per (doctor, date, start time)). */
  predicate OneWindowPerDay(windows: seq<Availability>)
  {
    forall i, j :: 0 <= i < j < |windows| ==> !IsFor(windows[j], windows[i].doctorId, windows[i].date)
  }

  /** Some window other than the i-th one is stored for (doctor, date, start). */
  predicate OtherWindowStartsAt(windows: seq<Availability>, i: nat, doctorId: int, date: string, startTime: string)
  {
    exists j :: 0 <= j < |windows| && j != i && IsFor(windows[j], doctorId, date) && windows[j].startTime == startTime
  }

  /** A doctor publishes a window for a date: the first stored window for
      (doctor, date) gets the new start and end, or else a new window is
      inserted. */
  function SetAvailability(db: Db, actor: Actor, date: string, startTime: string, endTime: string): (r: Result<Db>)
    ensures (!HasRole(actor, Doctor) || date == "" || startTime == "" || endTime == "") ==> r.Err?
    ensures !HasRole(actor, Doctor) ==> r == Err(AccessDenied)
    ensures HasRole(actor, Doctor) && (date == "" || startTime == "" || endTime == "") ==> r == Err(MissingDetails)
    ensures r.Ok? <==> HasRole(actor, Doctor) && date != "" && startTime != "" && endTime != ""
                       && (FirstWindow(db.availability, actor.id, date).Some? ==>
                             !OtherWindowStartsAt(db.availability, FirstWindow(db.availability, actor.id, date).value,
                                                  actor.id, date, startTime))
    ensures HasRole(actor, Doctor) && date != "" && startTime != "" && endTime != "" && r.Err? ==> r == Err(IntegrityError)
    ensures r.Ok? && FirstWindow(db.availability, actor.id, date).None? ==>
              r.value == db.(availability := db.availability + [Availability(db.nextAvailabilityId, actor.id, date, startTime, endTime)],
                             nextAvailabilityId := db.nextAvailabilityId + 1)
    ensures r.Ok? && FirstWindow(db.availability, actor.id, date).Some? ==>
              var i := FirstWindow(db.availability, actor.id, date).value;
              r.value == db.(availability := db.availability[i := db.availability[i].(startTime := startTime, endTime := endTime)])
  {
    if !HasRole(actor, Doctor) then Err(AccessDenied)
    else if date == "" || startTime == "" || endTime == "" then Err(MissingDetails)
    else match FirstWindow(db.availability, actor.id, date)
      case Some(i) =>
        if OtherWindowStartsAt(db.availability, i, actor.id, date, startTime) then Err(IntegrityError)
        else Ok(db.(availability := db.availability[i := db.availability[i].(startTime := startTime, endTime := endTime)]))
      case None =>
        Ok(db.(availability := db.availability + [Availability(db.nextAvailabilityId, actor.id, date, startTime, endTime)],
               nextAvailabilityId := db.nextAvailabilityId + 1))
  }

  /** While every (doctor, date) has at most one window, a doctor's complete
      request always commits, and afterwards there is still at most one. */
  lemma SetAvailabilityKeepsOneWindowPerDay(db: Db, actor: Actor, date: string, startTime: string, endTime: string)
    requires OneWindowPerDay(db.availability)
    ensures var r := SetAvailability(db, actor, date, startTime, endTime);
            && (r.Ok? <==> HasRole(actor, Doctor) && date != "" && startTime != "" && endTime != "")
            && (r.Ok? ==> OneWindowPerDay(r.value.availability))
  {
    var r := SetAvailability(db, actor, date, startTime, endTime);
    var w := db.availability;
    if HasRole(actor, Doctor) && date != "" && startTime != "" && endTime != "" {
      match FirstWindow(w, actor.id, date)
      case Some(i) =>
        var w' := r.value.availability;
        assert forall k :: 0 <= k < |w| ==> w'[k].doctorId == w[k].doctorId && w'[k].date == w[k].date;
      case None =>
        var w' := r.value.availability;
        forall k, l | 0 <= k < l < |w'| ensures !IsFor(w'[l], w'[k].doctorId, w'[k].date) {
          if l == |w| {
            assert w'[k] == w[k];
          } else {
            assert w'[k] == w[k] && w'[l] == w[l];
          }
        }
    }
  }

  lemma SetAvailabilityPreservesValid(db: Db, actor: Actor, date: string, startTime: string, endTime: string)
    requires db.Valid()
    ensures var r := SetAvailability(db, actor, date, startTime, endTime);
            r.Ok? ==> r.value.Valid()
  {
    var r := SetAvailability(db, actor, date, startTime, endTime);
    if r.Ok? {
      var w := db.availability;
      var w' := r.value.availability;
      match FirstWindow(w, actor.id, date)
      case Some(i) =>
        forall k, l | 0 <= k < l < |w'|
          ensures !(w'[k].doctorId == w'[l].doctorId && w'[k].date == w'[l].date && w'[k].startTime == w'[l].startTime)
        {
          if k == i {
            assert !(IsFor(w[l], actor.id, date) && w[l].startTime == startTime);
          }
        }
      case None =>
        forall k, l | 0 <= k < l < |w'|
          ensures !(w'[k].doctorId == w'[l].doctorId && w'[k].date == w'[l].date && w'[k].startTime == w'[l].startTime)
        {
          if l == |w| {
            assert w'[k] == w[k];
          }
        }
    }
  }

  // ---------------------------------------------------------------------
  // Accounts
  // ---------------------------------------------------------------------

  function ToggleActive(u: User): User
  {
    u.(isActive := !u.isActive)
  }

  /** An admin blacklists or reactivates an account; Admin accounts are left
      alone. */
  function ToggleBlacklist(db: Db, actor: Actor, userId: int): (r: Result<Db>)
    ensures r.Ok? ==>
              exists i :: 0 <= i < |db.users| && db.users[i].id == userId && db.users[i].role != Admin
                          && r.value == db.(users := db.users[i := ToggleActive(db.users[i])])
  {
    if !HasRole(actor, Admin) then Err(AccessDenied)
    else match FindUser(db.users, userId)
      case None => Err(NotFound)
      case Some(i) =>
        if db.users[i].role == Admin then Err(CannotBlacklistAdmin)
        else Ok(db.(users := db.users[i := ToggleActive(db.users[i])]))
  }

  /** With unique user ids: toggling user i succeeds exactly when an admin
      asks and i is not an Admin, and flips only i's active flag. */
  lemma ToggleBlacklistExactly(db: Db, actor: Actor, i: nat)
    requires db.Constraints() && i < |db.users|
    ensures var u := db.users[i];
            var r := ToggleBlacklist(db, actor, u.id);
            && (r.Ok? <==> HasRole(actor, Admin) && u.role != Admin)
            && (HasRole(actor, Admin) && u.role == Admin ==> r == Err(CannotBlacklistAdmin))
            && (r.Ok? ==> r.value.users[i].isActive == !u.isActive
                          && forall k :: 0 <= k < |db.users| && k != i ==> r.value.users[k] == db.users[k])
  {
    FindUserUnique(db.users, i);
  }

  /** Toggling the same account twice restores the store. */
  lemma ToggleBlacklistTwice(db: Db, actor: Actor, userId: int)
    requires ToggleBlacklist(db, actor, userId).Ok?
    ensures ToggleBlacklist(ToggleBlacklist(db, actor, userId).value, actor, userId) == Ok(db)
  {
    var db' := ToggleBlacklist(db, actor, userId).value;
    var i := FindUser(db.users, userId).value;
    assert forall k :: 0 <= k < |db.users| ==> db'.users[k].id == db.users[k].id;
    var j := FindUser(db'.users, userId).value;
    assert j == i;
    assert db'.users[i := ToggleActive(db'.users[i])] == db.users;
  }

  lemma ToggleBlacklistPreservesValid(db: Db, actor: Actor, userId: int)
    requires db.Valid()
    ensures ToggleBlacklist(db, actor, userId).Ok? ==> ToggleBlacklist(db, actor, userId).value.Valid()
  {
    var r := ToggleBlacklist(db, actor, userId);
    if r.Ok? {
      var i := FindUser(db.users, userId).value;
      assert forall k :: 0 <= k < |db.users| ==>
        r.value.users[k].id == db.users[k].id && r.value.users[k].username == db.users[k].username;
      forall d | 0 <= d < |db.doctors| ensures HasUserId(r.value.users, db.doctors[d].userId) {
        var k :| 0 <= k < |db.users| && db.users[k].id == db.doctors[d].userId;
      }
      forall p | 0 <= p < |db.patients| ensures HasUserId(r.value.users, db.patients[p].userId) {
        var k :| 0 <= k < |db.users| && db.users[k].id == db.patients[p].userId;
      }
    }
  }

  /** A new account as both account-creating handlers insert it. */
  function NewUser(db: Db, username: string, passwordHash: string, role: Role, name: string, contactInfo: Option<string>): User
  {
    User(db.nextUserId, username, passwordHash, role, name, contactInfo, DefaultIsActive)
  }

  /** An admin adds a doctor: a user with role Doctor and its doctor profile,
      committed together. The password arrives already hashed (None when the
      form had none). */
  function AddDoctor(db: Db, actor: Actor, name: Option<string>, username: Option<string>, passwordHash: Option<string>,
                     specializationId: Option<int>, contactInfo: Option<string>): (r: Result<Db>)
    ensures r.Ok? <==> HasRole(actor, Admin) && name.Some? && username.Some? && passwordHash.Some?
                       && specializationId.Some? && !UsernameTaken(db.users, username.value)
    ensures r.Ok? ==>
              && |r.value.users| == |db.users| + 1
              && r.value.users[..|db.users|] == db.users
              && r.value.users[|db.users|..] == [User(db.nextUserId, username.value, passwordHash.value, Doctor, name.value, contactInfo, true)]
              && r.value.doctors == db.doctors + [DoctorProfile(db.nextUserId, specializationId.value)]
              && r.value == db.(users := r.value.users, doctors := r.value.doctors, nextUserId := db.nextUserId + 1)
  {
    if !HasRole(actor, Admin) then Err(AccessDenied)
    else if username.Some? && UsernameTaken(db.users, username.value) then Err(UsernameExists)
    else if passwordHash.None? then Err(HashingFailed)
    else if name.None? || username.None? || specializationId.None? then Err(IntegrityError)
    else
      var u := NewUser(db, username.value, passwordHash.value, Doctor, name.value, contactInfo);
      assert (db.users + [u])[..|db.users|] == db.users;
      Ok(db.(users := db.users + [u],
             doctors := db.doctors + [DoctorProfile(u.id, specializationId.value)],
             nextUserId := db.nextUserId + 1))
  }

  /** A visitor registers as a patient: a user with role Patient and its
      patient profile, committed together. */
  function Register(db: Db, authenticated: bool, name: Option<string>, username: Option<string>, passwordHash: Option<string>,
                    dateOfBirth: Option<string>): (r: Result<Db>)
    ensures r.Ok? <==> !authenticated && name.Some? && username.Some? && passwordHash.Some?
                       && !UsernameTaken(db.users, username.value)
    ensures r.Ok? ==>
              && |r.value.users| == |db.users| + 1
              && r.value.users[..|db.users|] == db.users
              && r.value.users[|db.users|..] == [User(db.nextUserId, username.value, passwordHash.value, Patient, name.value, None, true)]
              && r.value.patients == db.patients + [PatientProfile(db.nextUserId, dateOfBirth)]
              && r.value == db.(users := r.value.users, patients := r.value.patients, nextUserId := db.nextUserId + 1)
  {
    if authenticated then Err(AlreadyAuthenticated)
    else if username.Some? && UsernameTaken(db.users, username.value) then Err(UsernameExists)
    else if passwordHash.None? then Err(HashingFailed)
    else if name.None? || username.None? then Err(IntegrityError)
    else
      var u := NewUser(db, username.value, passwordHash.value, Patient, name.value, None);
      assert (db.users + [u])[..|db.users|] == db.users;
      Ok(db.(users := db.users + [u],
             patients := db.patients + [PatientProfile(u.id, dateOfBirth)],
             nextUserId := db.nextUserId + 1))
  }

  /** Appending a fresh user whose name is not taken keeps the user table's
      constraints and every profile's reference. */
  lemma AppendUserValid(db: Db, u: User, users': seq<User>)
    requires db.Valid() && u.id == db.nextUserId && !UsernameTaken(db.users, u.username)
    requires users' == db.users + [u]
    ensures UsersConstraints(users', db.nextUserId + 1)
    ensures forall id :: HasUserId(db.users, id) ==> HasUserId(users', id)
    ensures HasUserId(users', u.id)
    ensures forall id :: HasUserId(db.users, id) ==> id < db.nextUserId
  {
    assert users'[|db.users|] == u;
    forall id | HasUserId(db.users, id) ensures HasUserId(users', id) {
      var k :| 0 <= k < |db.users| && db.users[k].id == id;
      assert users'[k] == db.users[k];
    }
    forall i, j | 0 <= i < j < |users'| ensures users'[i].username != users'[j].username {
      if j == |db.users| {
        assert users'[i] == db.users[i];
      }
    }
  }

  lemma AddDoctorPreservesValid(db: Db, actor: Actor, name: Option<string>, username: Option<string>, passwordHash: Option<string>,
                                specializationId: Option<int>, contactInfo: Option<string>)
    requires db.Valid()
    ensures var r := AddDoctor(db, actor, name, username, passwordHash, specializationId, contactInfo);
            r.Ok? ==> r.value.Valid()
  {
    var r := AddDoctor(db, actor, name, username, passwordHash, specializationId, contactInfo);
    if r.Ok? {
      var u := NewUser(db, username.value, passwordHash.value, Doctor, name.value, contactInfo);
      assert r.value.users == db.users + [u];
      AppendUserValid(db, u, r.value.users);
      var ds := r.value.doctors;
      forall i, j | 0 <= i < j < |ds| ensures ds[i].userId != ds[j].userId {
        if j == |db.doctors| {
          assert ds[i] == db.doctors[i];
          assert HasUserId(db.users, db.doctors[i].userId);
        }
      }
      forall i | 0 <= i < |ds| ensures HasUserId(r.value.users, ds[i].userId) {
        if i < |db.doctors| {
          assert ds[i] == db.doctors[i];
        }
      }
    }
  }

  lemma RegisterPreservesValid(db: Db, authenticated: bool, name: Option<string>, username: Option<string>, passwordHash: Option<string>,
                               dateOfBirth: Option<string>)
    requires db.Valid()
    ensures var r := Register(db, authenticated, name, username, passwordHash, dateOfBirth);
            r.Ok? ==> r.value.Valid()
  {
    var r := Register(db, authenticated, name, username, passwordHash, dateOfBirth);
    if r.Ok? {
      var u := NewUser(db, username.value, passwordHash.value, Patient, name.value, None);
      assert r.value.users == db.users + [u];
      AppendUserValid(db, u, r.value.users);
      var ps := r.value.patients;
      forall i, j | 0 <= i < j < |ps| ensures ps[i].userId != ps[j].userId {
        if j == |db.patients| {
          assert ps[i] == db.patients[i];
          assert HasUserId(db.users, db.patients[i].userId);
        }
      }
      forall i | 0 <= i < |ps| ensures HasUserId(r.value.users, ps[i].userId) {
        if i < |db.patients| {
          assert ps[i] == db.patients[i];
        }
      }
    }
  }

  // ---------------------------------------------------------------------
  // A doctor reading a patient's history
  // ---------------------------------------------------------------------

  /** A doctor opens a patient's history: 404 unless the id is a stored
      Patient account; otherwise the patient's Completed appointments, most
      recent first. */
  function DoctorViewPatientHistory(db: Db, actor: Actor, patientId: int): (r: Result<seq<Appointment>>)
    ensures r.Ok? <==> HasRole(actor, Doctor) && FindUser(db.users, patientId).Some?
                       && db.users[FindUser(db.users, patientId).value].role == Patient
    ensures r.Ok? ==> Sorted(Descending, r.value)
    ensures HasRole(actor, Doctor) && r.Err? ==> r == Err(NotFound)
    ensures !HasRole(actor, Doctor) ==> r == Err(AccessDenied)
    ensures r.Ok? ==> forall a :: multiset(r.value)[a]
                                  == if IsPatientHistory(a, patientId) then multiset(db.appointments)[a] else 0
  {
    if !HasRole(actor, Doctor) then Err(AccessDenied)
    else match FindUser(db.users, patientId)
      case None => Err(NotFound)
      case Some(i) =>
        if db.users[i].role != Patient then Err(NotFound)
        else
          Ok(PatientHistory(db.appointments, patientId))
  }
}
