/** The store over any sequence of requests: every handler keeps the store's
    invariant, and from it follow the application's lasting guarantees (one
    appointment per doctor, date and time; a used slot is never bookable
    again; a completed appointment never changes). */
module Lifecycle {
  import opened Models
  import opened Queries
  import opened Handlers

  /** One request to a state-changing handler, with the form fields it reads. */
  datatype Request =
    | Book(actor: Actor, doctorId: Option<int>, date: string, time: string)
    | Cancel(actor: Actor, apptId: int)
    | Complete(actor: Actor, apptId: int, diagnosis: Option<string>, prescription: Option<string>, notes: Option<string>)
    | Publish(actor: Actor, date: string, startTime: string, endTime: string)
    | Toggle(actor: Actor, userId: int)
    | NewDoctor(actor: Actor, name: Option<string>, username: Option<string>, passwordHash: Option<string>,
                specializationId: Option<int>, contactInfo: Option<string>)
    | NewPatient(authenticated: bool, name: Option<string>, username: Option<string>, passwordHash: Option<string>,
                 dateOfBirth: Option<string>)

  function Dispatch(db: Db, req: Request): Result<Db>
  {
    match req
    case Book(actor, d, date, time) => BookAppointment(db, actor, d, date, time)
    case Cancel(actor, id) => CancelAppointment(db, actor, id)
    case Complete(actor, id, dg, pr, nt) => CompleteAppointment(db, actor, id, dg, pr, nt)
    case Publish(actor, date, st, en) => SetAvailability(db, actor, date, st, en)
    case Toggle(actor, id) => ToggleBlacklist(db, actor, id)
    case NewDoctor(actor, n, u, h, sp, c) => AddDoctor(db, actor, n, u, h, sp, c)
    case NewPatient(auth, n, u, h, dob) => Register(db, auth, n, u, h, dob)
  }

  /** The store after a request: the committed one, or the old one after a
      rejection or rollback. */
  function Apply(db: Db, req: Request): Db
  {
    var r := Dispatch(db, req);
    if r.Ok? then r.value else db
  }

  function Run(db: Db, reqs: seq<Request>): Db
    decreases |reqs|
  {
    if reqs == [] then db else Run(Apply(db, reqs[0]), reqs[1..])
  }

  /** The role each handler's gate asks for; registering has no gate. */
  function RequiredRole(req: Request): Option<Role>
  {
    match req
    case Book(_, _, _, _) => Some(Patient)
    case Cancel(_, _) => Some(Patient)
    case Complete(_, _, _, _, _) => Some(Doctor)
    case Publish(_, _, _, _) => Some(Doctor)
    case Toggle(_, _) => Some(Admin)
    case NewDoctor(_, _, _, _, _, _) => Some(Admin)
    case NewPatient(_, _, _, _, _) => None
  }

  /** Every gated request from a user of another role is turned away and
      changes nothing. */
  lemma RoleGateTurnsAway(db: Db, req: Request)
    requires RequiredRole(req).Some? && !req.NewPatient? && req.actor.role != RequiredRole(req).value
    ensures Dispatch(db, req) == Err(AccessDenied) && Apply(db, req) == db
  {
    match req
    case Book(_, _, _, _) =>
    case Cancel(_, _) =>
    case Complete(_, _, _, _, _) =>
    case Publish(_, _, _, _) =>
    case Toggle(_, _) =>
    case NewDoctor(_, _, _, _, _, _) =>
  }

  // ---------------------------------------------------------------------
  // The invariant
  // ---------------------------------------------------------------------

  /** An appointment is Completed exactly when a treatment row records it. */
  predicate CompletedExactlyWhenTreated(db: Db)
  {
    forall i :: 0 <= i < |db.appointments| ==>
      (db.appointments[i].status == Completed <==> HasTreatment(db.treatments, db.appointments[i].id))
  }

  /** The table constraints, the references, and the two facts the handlers
      keep beyond them. */
  predicate Invariant(db: Db)
  {
    db.Valid() && OneWindowPerDay(db.availability) && CompletedExactlyWhenTreated(db)
  }

  lemma BookKeepsTreated(db: Db, actor: Actor, doctorId: Option<int>, date: string, time: string)
    requires Invariant(db)
    ensures var r := BookAppointment(db, actor, doctorId, date, time);
            r.Ok? ==> CompletedExactlyWhenTreated(r.value)
  {
    var r := BookAppointment(db, actor, doctorId, date, time);
    if r.Ok? {
      var n := |db.appointments|;
      var s := r.value.appointments;
      assert s[n] == s[n..][0];
      forall i | 0 <= i < |s|
        ensures s[i].status == Completed <==> HasTreatment(db.treatments, s[i].id)
      {
        if i < n {
          assert s[i] == s[..n][i];
        }
      }
    }
  }

  lemma CancelKeepsTreated(db: Db, actor: Actor, apptId: int)
    requires Invariant(db)
    ensures var r := CancelAppointment(db, actor, apptId);
            r.Ok? ==> CompletedExactlyWhenTreated(r.value)
  {
  }

  lemma CompleteKeepsTreated(db: Db, actor: Actor, apptId: int,
                             diagnosis: Option<string>, prescription: Option<string>, notes: Option<string>)
    requires Invariant(db)
    ensures var r := CompleteAppointment(db, actor, apptId, diagnosis, prescription, notes);
            r.Ok? ==> CompletedExactlyWhenTreated(r.value)
  {
    var r := CompleteAppointment(db, actor, apptId, diagnosis, prescription, notes);
    if r.Ok? {
      var i := FindAppointment(db.appointments, apptId).value;
      var s := r.value.appointments;
      var ts := r.value.treatments;
      var n := |db.treatments|;
      assert ts[n].appointmentId == apptId;
      forall k | 0 <= k < |s| ensures s[k].status == Completed <==> HasTreatment(ts, s[k].id) {
        if k != i {
          assert s[k] == db.appointments[k];
          assert s[k].id != apptId;
          if HasTreatment(ts, s[k].id) {
            var l :| 0 <= l < |ts| && ts[l].appointmentId == s[k].id;
            assert l < n && ts[l] == db.treatments[l];
          }
          if HasTreatment(db.treatments, s[k].id) {
            var l :| 0 <= l < n && db.treatments[l].appointmentId == s[k].id;
            assert ts[l] == db.treatments[l];
          }
        }
      }
    }
  }

  lemma DispatchPreservesInvariant(db: Db, req: Request)
    requires Invariant(db)
    ensures Invariant(Apply(db, req))
  {
    match req
    case Book(actor, d, date, time) =>
      BookAppointmentPreservesValid(db, actor, d, date, time);
      BookKeepsTreated(db, actor, d, date, time);
    case Cancel(actor, id) =>
      CancelAppointmentPreservesValid(db, actor, id);
      CancelKeepsTreated(db, actor, id);
    case Complete(actor, id, dg, pr, nt) =>
      CompleteAppointmentPreservesValid(db, actor, id, dg, pr, nt);
      CompleteKeepsTreated(db, actor, id, dg, pr, nt);
    case Publish(actor, date, st, en) =>
      SetAvailabilityPreservesValid(db, actor, date, st, en);
      SetAvailabilityKeepsOneWindowPerDay(db, actor, date, st, en);
    case Toggle(actor, id) =>
      ToggleBlacklistPreservesValid(db, actor, id);
    case NewDoctor(actor, n, u, h, sp, c) =>
      AddDoctorPreservesValid(db, actor, n, u, h, sp, c);
    case NewPatient(auth, n, u, h, dob) =>
      RegisterPreservesValid(db, auth, n, u, h, dob);
  }

  /** Every request keeps the table constraints and references, and keeps
      the invariant when it held before. */
  lemma ApplyKeepsValid(db: Db, req: Request)
    requires db.Valid()
    ensures Apply(db, req).Valid()
    ensures Invariant(db) ==> Invariant(Apply(db, req))
  {
    if Invariant(db) {
      DispatchPreservesInvariant(db, req);
    }
    match req
    case Book(actor, d, date, time) =>
      BookAppointmentPreservesValid(db, actor, d, date, time);
    case Cancel(actor, id) =>
      CancelAppointmentPreservesValid(db, actor, id);
    case Complete(actor, id, dg, pr, nt) =>
      CompleteAppointmentPreservesValid(db, actor, id, dg, pr, nt);
    case Publish(actor, date, st, en) =>
      SetAvailabilityPreservesValid(db, actor, date, st, en);
    case Toggle(actor, id) =>
      ToggleBlacklistPreservesValid(db, actor, id);
    case NewDoctor(actor, n, u, h, sp, c) =>
      AddDoctorPreservesValid(db, actor, n, u, h, sp, c);
    case NewPatient(auth, n, u, h, dob) =>
      RegisterPreservesValid(db, auth, n, u, h, dob);
  }

  /** After any requests the invariant still holds; in particular every
      (doctor, date, time) has at most one appointment of any status, every
      appointment at most one treatment, every (doctor, date) at most one
      window, and usernames stay unique. */
  lemma {:induction false} RunPreservesInvariant(db: Db, reqs: seq<Request>)
    decreases |reqs|
    requires Invariant(db)
    ensures Invariant(Run(db, reqs))
    ensures UniqueSlots(Run(db, reqs).appointments)
    ensures OneWindowPerDay(Run(db, reqs).availability)
  {
    if reqs != [] {
      DispatchPreservesInvariant(db, reqs[0]);
      RunPreservesInvariant(Apply(db, reqs[0]), reqs[1..]);
    }
  }

  // ---------------------------------------------------------------------
  // What happens to stored appointments
  // ---------------------------------------------------------------------

  /** Appointments are never deleted; a stored appointment changes only its
      status, and once it is no longer Booked it never is again. */
  predicate Evolves(before: seq<Appointment>, after: seq<Appointment>)
  {
    && |before| <= |after|
    && (forall i :: 0 <= i < |before| ==> after[i] == before[i].(status := after[i].status))
    && (forall i :: 0 <= i < |before| && before[i].status != Booked ==> after[i].status != Booked)
  }

  lemma EvolvesTransitive(a: seq<Appointment>, b: seq<Appointment>, c: seq<Appointment>)
    requires Evolves(a, b) && Evolves(b, c)
    ensures Evolves(a, c)
  {
    forall i | 0 <= i < |a| ensures c[i] == a[i].(status := c[i].status) {
      assert b[i] == a[i].(status := b[i].status);
      assert c[i] == b[i].(status := c[i].status);
    }
  }

  lemma ApplyEvolves(db: Db, req: Request)
    ensures Evolves(db.appointments, Apply(db, req).appointments)
  {
    var s := Apply(db, req).appointments;
    match req
    case Book(actor, d, date, time) =>
      var r := BookAppointment(db, actor, d, date, time);
      if r.Ok? {
        forall i | 0 <= i < |db.appointments| ensures s[i] == db.appointments[i] {
          assert s[i] == s[..|db.appointments|][i];
        }
      }
    case Cancel(actor, id) =>
    case Complete(actor, id, dg, pr, nt) =>
    case Publish(_, _, _, _) =>
    case Toggle(_, _) =>
    case NewDoctor(_, _, _, _, _, _) =>
    case NewPatient(_, _, _, _, _) =>
  }

  lemma {:induction false} RunEvolves(db: Db, reqs: seq<Request>)
    decreases |reqs|
    ensures Evolves(db.appointments, Run(db, reqs).appointments)
  {
    if reqs == [] {
    } else {
      var next := Apply(db, reqs[0]);
      ApplyEvolves(db, reqs[0]);
      RunEvolves(next, reqs[1..]);
      EvolvesTransitive(db.appointments, next.appointments, Run(next, reqs[1..]).appointments);
    }
  }

  /** Once a (doctor, date, time) has been used by an appointment that is no
      longer Booked (cancelled, say), booking it fails after any later
      requests, and it fails at the store's commit. */
  lemma UsedSlotIsNeverRebookable(db: Db, reqs: seq<Request>, i: nat, actor: Actor)
    requires Invariant(db) && i < |db.appointments| && db.appointments[i].status != Booked
    ensures var a := db.appointments[i];
            var later := Run(db, reqs);
            && BookAppointment(later, actor, Some(a.doctorId), a.date, a.time).Err?
            && (HasRole(actor, Patient) && a.date != "" && a.time != "" ==>
                  BookAppointment(later, actor, Some(a.doctorId), a.date, a.time) == Err(IntegrityError))
  {
    var later := Run(db, reqs);
    RunEvolves(db, reqs);
    RunPreservesInvariant(db, reqs);
    var a := db.appointments[i];
    assert later.appointments[i] == a.(status := later.appointments[i].status);
    assert SlotTaken(later.appointments, a.doctorId, a.date, a.time);
    if HasRole(actor, Patient) && a.date != "" && a.time != "" {
      UsedSlotIsRefusedAtCommit(later, actor, i);
    }
  }

  /** A completed appointment is never changed by a single request. */
  lemma ApplyKeepsCompleted(db: Db, req: Request, i: nat)
    requires Invariant(db) && i < |db.appointments| && db.appointments[i].status == Completed
    ensures i < |Apply(db, req).appointments| && Apply(db, req).appointments[i] == db.appointments[i]
  {
    ApplyEvolves(db, req);
    var a := db.appointments[i];
    match req
    case Cancel(actor, id) =>
      if id == a.id {
        CancelAppointmentExactly(db, actor, i);
      } else {
        var r := CancelAppointment(db, actor, id);
        if r.Ok? {
          var j := FindAppointment(db.appointments, id).value;
          assert j != i;
        }
      }
    case Complete(actor, id, dg, pr, nt) =>
      if id == a.id {
        CompleteAppointmentExactly(db, actor, i, dg, pr, nt);
      } else {
        var r := CompleteAppointment(db, actor, id, dg, pr, nt);
        if r.Ok? {
          var j := FindAppointment(db.appointments, id).value;
          assert j != i;
        }
      }
    case Book(_, _, _, _) =>
    case Publish(_, _, _, _) =>
    case Toggle(_, _) =>
    case NewDoctor(_, _, _, _, _, _) =>
    case NewPatient(_, _, _, _, _) =>
  }

  /** Completed is terminal: a completed appointment stays exactly as it is
      through any later requests. */
  lemma {:induction false} CompletedStaysCompleted(db: Db, reqs: seq<Request>, i: nat)
    decreases |reqs|
    requires Invariant(db) && i < |db.appointments| && db.appointments[i].status == Completed
    ensures i < |Run(db, reqs).appointments| && Run(db, reqs).appointments[i] == db.appointments[i]
  {
    if reqs != [] {
      ApplyKeepsCompleted(db, reqs[0], i);
      DispatchPreservesInvariant(db, reqs[0]);
      CompletedStaysCompleted(Apply(db, reqs[0]), reqs[1..], i);
    }
  }
}
