/** The record store as the running application holds it: one mutable object
    whose routes change its tables in place. A route stages its changes, the
    commit checks the table constraints, and a failed commit restores the
    tables it had touched. Every route's outcome and new state are those of
    the corresponding handler function applied to the store it started from. */
module Clinic {
  import opened Models
  import opened Ordering
  import opened Queries
  import opened Handlers
  import Lifecycle

  /** What a route reports back: success, or the handler's error. */
  datatype Outcome = Success | Failure(error: Error)

  function OutcomeOf(r: Result<Db>): Outcome
  {
    match r
    case Ok(_) => Success
    case Err(e) => Failure(e)
  }

  /** What the admin dashboard shows. */
  datatype AdminSummary = AdminSummary(totalDoctors: nat, totalPatients: nat, totalAppointments: nat,
                                       upcoming: seq<Appointment>)

  /** What the doctor search shows: the listed doctors, and for each doctor
      and date in range the text of its window. */
  datatype DoctorSearch = DoctorSearch(doctors: seq<DoctorProfile>, windows: map<int, map<string, string>>)

  /** Inserting a treatment row with the next id is accepted exactly when the
      appointment has no treatment yet. */
  lemma AppendTreatmentConstraints(treatments: seq<Treatment>, nextId: int, t: Treatment)
    requires TreatmentsConstraints(treatments, nextId) && t.id == nextId
    ensures TreatmentsConstraints(treatments + [t], nextId + 1) <==> !HasTreatment(treatments, t.appointmentId)
  {
    var s := treatments + [t];
    if HasTreatment(treatments, t.appointmentId) {
      var k :| 0 <= k < |treatments| && treatments[k].appointmentId == t.appointmentId;
      assert s[k].appointmentId == s[|treatments|].appointmentId;
    } else {
      forall k, l | 0 <= k < l < |s| ensures s[k].appointmentId != s[l].appointmentId {
        if l == |treatments| {
          assert s[k] == treatments[k];
        }
      }
    }
  }

  /** Moving window i to a new start time is accepted exactly when no other
      window of that doctor and date starts then. */
  lemma MoveWindowConstraints(windows: seq<Availability>, nextId: int, i: nat, startTime: string, endTime: string)
    requires AvailabilityConstraints(windows, nextId) && i < |windows|
    ensures var s := windows[i := windows[i].(startTime := startTime, endTime := endTime)];
            AvailabilityConstraints(s, nextId)
            <==> !OtherWindowStartsAt(windows, i, windows[i].doctorId, windows[i].date, startTime)
  {
    var s := windows[i := windows[i].(startTime := startTime, endTime := endTime)];
    var w := windows[i];
    if OtherWindowStartsAt(windows, i, w.doctorId, w.date, startTime) {
      var j :| 0 <= j < |windows| && j != i && IsFor(windows[j], w.doctorId, w.date) && windows[j].startTime == startTime;
      assert s[j] == windows[j];
      if j < i {
        assert s[j].doctorId == s[i].doctorId && s[j].date == s[i].date && s[j].startTime == s[i].startTime;
      } else {
        assert s[i].doctorId == s[j].doctorId && s[i].date == s[j].date && s[i].startTime == s[j].startTime;
      }
    }
  }

  /** The staged completion of appointment i is what the handler commits
      when the store accepts it, and a rollback with IntegrityError when not. */
  lemma StagedCompletion(db: Db, staged: Db, actor: Actor, apptId: int, i: nat,
                         diagnosis: Option<string>, prescription: Option<string>, notes: Option<string>)
    requires db.Constraints() && HasRole(actor, Doctor)
    requires FindAppointment(db.appointments, apptId) == Some(i) && db.appointments[i].doctorId == actor.id
    requires staged == db.(appointments := db.appointments[i := db.appointments[i].(status := Completed)],
                           treatments := db.treatments + [Treatment(db.nextTreatmentId, apptId, diagnosis, prescription, notes)],
                           nextTreatmentId := db.nextTreatmentId + 1)
    ensures Lifecycle.Dispatch(db, Lifecycle.Complete(actor, apptId, diagnosis, prescription, notes))
            == if staged.Constraints() then Ok(staged) else Err(IntegrityError)
  {
    SetStatusConstraints(db.appointments, db.nextAppointmentId, i, Completed);
    AppendTreatmentConstraints(db.treatments, db.nextTreatmentId,
                               Treatment(db.nextTreatmentId, apptId, diagnosis, prescription, notes));
  }

  class Store {
    var users: seq<User>
    var doctors: seq<DoctorProfile>
    var patients: seq<PatientProfile>
    var appointments: seq<Appointment>
    var treatments: seq<Treatment>
    var availability: seq<Availability>
    var nextUserId: int
    var nextAppointmentId: int
    var nextTreatmentId: int
    var nextAvailabilityId: int

    /** The tables as one value. */
    function Snapshot(): Db
      reads this
    {
      Db(users, doctors, patients, appointments, treatments, availability,
         nextUserId, nextAppointmentId, nextTreatmentId, nextAvailabilityId)
    }

    /** The class invariant: the table constraints and the references. */
    predicate Valid()
      reads this
    {
      Snapshot().Valid()
    }

    /** The store right after its tables are created. */
    constructor ()
      ensures Snapshot() == EmptyDb && Valid() && Lifecycle.Invariant(Snapshot())
    {
      users, doctors, patients := [], [], [];
      appointments, treatments, availability := [], [], [];
      nextUserId, nextAppointmentId, nextTreatmentId, nextAvailabilityId := 1, 1, 1, 1;
    }

    /** POST /patient/book. */
    method BookAppointment(actor: Actor, doctorId: Option<int>, date: string, time: string) returns (outcome: Outcome)
      requires Valid()
      modifies this
      ensures Valid()
      ensures outcome == OutcomeOf(Lifecycle.Dispatch(old(Snapshot()), Lifecycle.Book(actor, doctorId, date, time)))
      ensures Snapshot() == Lifecycle.Apply(old(Snapshot()), Lifecycle.Book(actor, doctorId, date, time))
      ensures Lifecycle.Invariant(old(Snapshot())) ==> Lifecycle.Invariant(Snapshot())
    {
      Lifecycle.ApplyKeepsValid(Snapshot(), Lifecycle.Book(actor, doctorId, date, time));
      if !HasRole(actor, Patient) {
        return Failure(AccessDenied);
      }
      if doctorId.None? || date == "" || time == "" {
        return Failure(MissingDetails);
      }
      if HasBookedAt(appointments, doctorId.value, date, time) {
        return Failure(SlotAlreadyBooked);
      }
      var a := Appointment(nextAppointmentId, actor.id, doctorId.value, date, time, DefaultStatus);
      var savedAppointments, savedNext := appointments, nextAppointmentId;
      appointments := appointments + [a];
      nextAppointmentId := nextAppointmentId + 1;
      AppendAppointmentConstraints(savedAppointments, savedNext, a);
      if !Snapshot().Constraints() {
        appointments, nextAppointmentId := savedAppointments, savedNext;
        return Failure(IntegrityError);
      }
      return Success;
    }

    /** POST /patient/cancel_appointment/<id>. */
    method CancelAppointment(actor: Actor, apptId: int) returns (outcome: Outcome)
      requires Valid()
      modifies this
      ensures Valid()
      ensures outcome == OutcomeOf(Lifecycle.Dispatch(old(Snapshot()), Lifecycle.Cancel(actor, apptId)))
      ensures Snapshot() == Lifecycle.Apply(old(Snapshot()), Lifecycle.Cancel(actor, apptId))
      ensures Lifecycle.Invariant(old(Snapshot())) ==> Lifecycle.Invariant(Snapshot())
    {
      Lifecycle.ApplyKeepsValid(Snapshot(), Lifecycle.Cancel(actor, apptId));
      if !HasRole(actor, Patient) {
        return Failure(AccessDenied);
      }
      var found := FindAppointment(appointments, apptId);
      if found.None? {
        return Failure(NotFound);
      }
      var i := found.value;
      if appointments[i].patientId != actor.id {
        return Failure(Unauthorized);
      }
      if appointments[i].status != Booked {
        return Failure(NotCancellable);
      }
      appointments := appointments[i := appointments[i].(status := Cancelled)];
      return Success;
    }

    /** POST /doctor/complete_appointment/<id>. */
    method CompleteAppointment(actor: Actor, apptId: int,
                               diagnosis: Option<string>, prescription: Option<string>, notes: Option<string>)
      returns (outcome: Outcome)
      requires Valid()
      modifies this
      ensures Valid()
      ensures outcome == OutcomeOf(Lifecycle.Dispatch(old(Snapshot()),
                                   Lifecycle.Complete(actor, apptId, diagnosis, prescription, notes)))
      ensures Snapshot() == Lifecycle.Apply(old(Snapshot()), Lifecycle.Complete(actor, apptId, diagnosis, prescription, notes))
      ensures Lifecycle.Invariant(old(Snapshot())) ==> Lifecycle.Invariant(Snapshot())
    {
      ghost var before := Snapshot();
      Lifecycle.ApplyKeepsValid(before, Lifecycle.Complete(actor, apptId, diagnosis, prescription, notes));
      if !HasRole(actor, Doctor) {
        return Failure(AccessDenied);
      }
      var found := FindAppointment(appointments, apptId);
      if found.None? {
        return Failure(NotFound);
      }
      var i := found.value;
      if appointments[i].doctorId != actor.id {
        return Failure(Forbidden);
      }
      var t := Treatment(nextTreatmentId, apptId, diagnosis, prescription, notes);
      var savedAppointments, savedTreatments, savedNext := appointments, treatments, nextTreatmentId;
      appointments := appointments[i := appointments[i].(status := Completed)];
      treatments := treatments + [t];
      nextTreatmentId := nextTreatmentId + 1;
      StagedCompletion(before, Snapshot(), actor, apptId, i, diagnosis, prescription, notes);
      if !Snapshot().Constraints() {
        appointments, treatments, nextTreatmentId := savedAppointments, savedTreatments, savedNext;
        return Failure(IntegrityError);
      }
      return Success;
    }

    /** POST /doctor/set_availability. */
    method SetAvailability(actor: Actor, date: string, startTime: string, endTime: string) returns (outcome: Outcome)
      requires Valid()
      modifies this
      ensures Valid()
      ensures outcome == OutcomeOf(Lifecycle.Dispatch(old(Snapshot()), Lifecycle.Publish(actor, date, startTime, endTime)))
      ensures Snapshot() == Lifecycle.Apply(old(Snapshot()), Lifecycle.Publish(actor, date, startTime, endTime))
      ensures Lifecycle.Invariant(old(Snapshot())) ==> Lifecycle.Invariant(Snapshot())
    {
      Lifecycle.ApplyKeepsValid(Snapshot(), Lifecycle.Publish(actor, date, startTime, endTime));
      if !HasRole(actor, Doctor) {
        return Failure(AccessDenied);
      }
      if date == "" || startTime == "" || endTime == "" {
        return Failure(MissingDetails);
      }
      var savedWindows, savedNext := availability, nextAvailabilityId;
      var found := FirstWindow(availability, actor.id, date);
      if found.Some? {
        var i := found.value;
        MoveWindowConstraints(availability, nextAvailabilityId, i, startTime, endTime);
        availability := availability[i := availability[i].(startTime := startTime, endTime := endTime)];
      } else {
        availability := availability + [Availability(nextAvailabilityId, actor.id, date, startTime, endTime)];
        nextAvailabilityId := nextAvailabilityId + 1;
      }
      if !Snapshot().Constraints() {
        availability, nextAvailabilityId := savedWindows, savedNext;
        return Failure(IntegrityError);
      }
      return Success;
    }

    /** POST /admin/toggle_blacklist/<id>. */
    method ToggleBlacklist(actor: Actor, userId: int) returns (outcome: Outcome)
      requires Valid()
      modifies this
      ensures Valid()
      ensures outcome == OutcomeOf(Lifecycle.Dispatch(old(Snapshot()), Lifecycle.Toggle(actor, userId)))
      ensures Snapshot() == Lifecycle.Apply(old(Snapshot()), Lifecycle.Toggle(actor, userId))
      ensures Lifecycle.Invariant(old(Snapshot())) ==> Lifecycle.Invariant(Snapshot())
    {
      Lifecycle.ApplyKeepsValid(Snapshot(), Lifecycle.Toggle(actor, userId));
      if !HasRole(actor, Admin) {
        return Failure(AccessDenied);
      }
      var found := FindUser(users, userId);
      if found.None? {
        return Failure(NotFound);
      }
      var i := found.value;
      if users[i].role == Admin {
        return Failure(CannotBlacklistAdmin);
      }
      users := users[i := users[i].(isActive := !users[i].isActive)];
      return Success;
    }

    /** POST /admin/add_doctor. The user row is flushed first; when the
        profile row cannot be written the rollback removes the user too. */
    method AddDoctor(actor: Actor, name: Option<string>, username: Option<string>, passwordHash: Option<string>,
                     specializationId: Option<int>, contactInfo: Option<string>) returns (outcome: Outcome)
      requires Valid()
      modifies this
      ensures Valid()
      ensures outcome == OutcomeOf(Lifecycle.Dispatch(old(Snapshot()),
                                   Lifecycle.NewDoctor(actor, name, username, passwordHash, specializationId, contactInfo)))
      ensures Snapshot() == Lifecycle.Apply(old(Snapshot()),
                                            Lifecycle.NewDoctor(actor, name, username, passwordHash, specializationId, contactInfo))
      ensures Lifecycle.Invariant(old(Snapshot())) ==> Lifecycle.Invariant(Snapshot())
    {
      Lifecycle.ApplyKeepsValid(Snapshot(), Lifecycle.NewDoctor(actor, name, username, passwordHash, specializationId, contactInfo));
      if !HasRole(actor, Admin) {
        return Failure(AccessDenied);
      }
      if username.Some? && UsernameTaken(users, username.value) {
        return Failure(UsernameExists);
      }
      if passwordHash.None? {
        return Failure(HashingFailed);
      }
      if name.None? || username.None? {
        return Failure(IntegrityError);
      }
      var u := User(nextUserId, username.value, passwordHash.value, Doctor, name.value, contactInfo, DefaultIsActive);
      var savedUsers, savedNext := users, nextUserId;
      users := users + [u];
      nextUserId := nextUserId + 1;
      if specializationId.None? {
        users, nextUserId := savedUsers, savedNext;
        return Failure(IntegrityError);
      }
      doctors := doctors + [DoctorProfile(u.id, specializationId.value)];
      return Success;
    }

    /** POST /register. */
    method Register(authenticated: bool, name: Option<string>, username: Option<string>, passwordHash: Option<string>,
                    dateOfBirth: Option<string>) returns (outcome: Outcome)
      requires Valid()
      modifies this
      ensures Valid()
      ensures outcome == OutcomeOf(Lifecycle.Dispatch(old(Snapshot()),
                                   Lifecycle.NewPatient(authenticated, name, username, passwordHash, dateOfBirth)))
      ensures Snapshot() == Lifecycle.Apply(old(Snapshot()),
                                            Lifecycle.NewPatient(authenticated, name, username, passwordHash, dateOfBirth))
      ensures Lifecycle.Invariant(old(Snapshot())) ==> Lifecycle.Invariant(Snapshot())
    {
      Lifecycle.ApplyKeepsValid(Snapshot(), Lifecycle.NewPatient(authenticated, name, username, passwordHash, dateOfBirth));
      if authenticated {
        return Failure(AlreadyAuthenticated);
      }
      if username.Some? && UsernameTaken(users, username.value) {
        return Failure(UsernameExists);
      }
      if passwordHash.None? {
        return Failure(HashingFailed);
      }
      if name.None? || username.None? {
        return Failure(IntegrityError);
      }
      var u := User(nextUserId, username.value, passwordHash.value, Patient, name.value, None, DefaultIsActive);
      users := users + [u];
      nextUserId := nextUserId + 1;
      patients := patients + [PatientProfile(u.id, dateOfBirth)];
      return Success;
    }

    // -------------------------------------------------------------------
    // Read-only routes
    // -------------------------------------------------------------------

    /** GET /patient/find_doctors: the doctors of a specialization (or all),
        and the map of their windows dated from startDate to endDate. */
    method FindDoctors(actor: Actor, specializationId: Option<int>, startDate: string, endDate: string)
      returns (r: Result<DoctorSearch>)
      ensures r.Err? <==> !HasRole(actor, Patient)
      ensures r.Err? ==> r.error == AccessDenied
      ensures r.Ok? ==> forall d :: d in r.value.doctors <==>
                          d in doctors && (specializationId.Some? ==> d.specializationId == specializationId.value)
      ensures r.Ok? ==> r.value.windows
                        == WindowMap(WindowsInRange(availability, DoctorIds(r.value.doctors), startDate, endDate))
    {
      if !HasRole(actor, Patient) {
        return Err(AccessDenied);
      }
      var listed := DoctorsInSpecialization(doctors, specializationId);
      var records := WindowsInRange(availability, DoctorIds(listed), startDate, endDate);
      var m := BuildAvailabilityMap(records);
      return Ok(DoctorSearch(listed, m));
    }

    /** GET /admin: the three counts and the first five Booked appointments. */
    method AdminDashboard(actor: Actor) returns (r: Result<AdminSummary>)
      ensures r.Err? <==> !HasRole(actor, Admin)
      ensures r.Err? ==> r.error == AccessDenied
      ensures r.Ok? ==> r.value.totalDoctors == |doctors| && r.value.totalPatients == |patients|
                        && r.value.totalAppointments == |appointments|
      ensures r.Ok? ==> Sorted(Ascending, r.value.upcoming)
                        && |r.value.upcoming| == Min(AdminUpcomingLimit as int, |Filter(appointments, IsBooked)|)
                        && forall a :: a in r.value.upcoming ==> a in appointments && a.status == Booked
      ensures r.Ok? ==> r.value.upcoming == AdminUpcoming(appointments)
      ensures r.Ok? ==> forall x, y ::
                          x in r.value.upcoming && y in appointments && y.status == Booked
                          && multiset(r.value.upcoming)[y] < multiset(appointments)[y]
                          ==> KeyLe(x, y)
    {
      if !HasRole(actor, Admin) {
        return Err(AccessDenied);
      }
      var upcoming := AdminUpcoming(appointments);
      assert forall a :: a in upcoming ==> multiset(upcoming)[a] > 0;
      return Ok(AdminSummary(|doctors|, |patients|, |appointments|, upcoming));
    }

    /** GET /doctor: the actor's appointments from today to the end of the
        week, not Cancelled, by date and time. */
    method DoctorDashboard(actor: Actor, today: string, endOfWeek: string) returns (r: Result<seq<Appointment>>)
      ensures r.Err? <==> !HasRole(actor, Doctor)
      ensures r.Err? ==> r.error == AccessDenied
      ensures r.Ok? ==> Sorted(Ascending, r.value)
      ensures r.Ok? ==> forall a :: multiset(r.value)[a]
                                    == if IsDoctorUpcoming(a, actor.id, today, endOfWeek) then multiset(appointments)[a] else 0
    {
      if !HasRole(actor, Doctor) {
        return Err(AccessDenied);
      }
      return Ok(DoctorUpcoming(appointments, actor.id, today, endOfWeek));
    }

    /** GET /patient: the actor's Booked appointments from today on, by date
        and time. */
    method PatientDashboard(actor: Actor, today: string) returns (r: Result<seq<Appointment>>)
      ensures r.Err? <==> !HasRole(actor, Patient)
      ensures r.Err? ==> r.error == AccessDenied
      ensures r.Ok? ==> Sorted(Ascending, r.value)
      ensures r.Ok? ==> forall a :: multiset(r.value)[a]
                                    == if IsPatientUpcoming(a, actor.id, today) then multiset(appointments)[a] else 0
    {
      if !HasRole(actor, Patient) {
        return Err(AccessDenied);
      }
      return Ok(PatientUpcoming(appointments, actor.id, today));
    }

    /** GET /patient/history: the actor's Completed appointments, most
        recent first. */
    method PatientHistory(actor: Actor) returns (r: Result<seq<Appointment>>)
      ensures r.Err? <==> !HasRole(actor, Patient)
      ensures r.Err? ==> r.error == AccessDenied
      ensures r.Ok? ==> Sorted(Descending, r.value)
      ensures r.Ok? ==> forall a :: multiset(r.value)[a]
                                    == if IsPatientHistory(a, actor.id) then multiset(appointments)[a] else 0
    {
      if !HasRole(actor, Patient) {
        return Err(AccessDenied);
      }
      return Ok(Queries.PatientHistory(appointments, actor.id));
    }

    /** GET /doctor/patient_history/<id>. */
    method DoctorViewPatientHistory(actor: Actor, patientId: int) returns (r: Result<seq<Appointment>>)
      ensures r == Handlers.DoctorViewPatientHistory(Snapshot(), actor, patientId)
      ensures r.Ok? <==> HasRole(actor, Doctor) && FindUser(users, patientId).Some?
                         && users[FindUser(users, patientId).value].role == Patient
      ensures !HasRole(actor, Doctor) ==> r == Err(AccessDenied)
      ensures HasRole(actor, Doctor) && r.Err? ==> r == Err(NotFound)
      ensures r.Ok? ==> Sorted(Descending, r.value)
      ensures r.Ok? ==> forall a :: multiset(r.value)[a]
                                    == if IsPatientHistory(a, patientId) then multiset(appointments)[a] else 0
    {
      r := Handlers.DoctorViewPatientHistory(Snapshot(), actor, patientId);
    }
  }
}
