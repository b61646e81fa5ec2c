/** The record store of the clinic: one datatype per table row, the column
    defaults, and the uniqueness constraints that the storage layer enforces
    at commit time. */
module Models {

  datatype Option<T> = None | Some(value: T)

  /** User.role; the application stores the strings 'Admin', 'Doctor', 'Patient'. */
  datatype Role = Admin | Doctor | Patient

  /** Appointment.status; the application writes only 'Booked', 'Completed', 'Cancelled'. */
  datatype Status = Booked | Completed | Cancelled

  /** Column default of Appointment.status. */
  const DefaultStatus: Status := Booked

  /** Column default of User.is_active (false means blacklisted). */
  const DefaultIsActive: bool := true

  datatype User = User(
    id: int,
    username: string,
    passwordHash: string,
    role: Role,
    name: string,
    contactInfo: Option<string>,
    isActive: bool)

  /** A doctor's profile row; its primary key is the user's id and the
      specialization is a required (non-null) column. */
  datatype DoctorProfile = DoctorProfile(userId: int, specializationId: int)

  datatype PatientProfile = PatientProfile(userId: int, dateOfBirth: Option<string>)

  /** Dates are 'YYYY-MM-DD' strings and times 'HH:MM' strings, as stored. */
  datatype Appointment = Appointment(
    id: int,
    patientId: int,
    doctorId: int,
    date: string,
    time: string,
    status: Status)

  datatype Treatment = Treatment(
    id: int,
    appointmentId: int,
    diagnosis: Option<string>,
    prescription: Option<string>,
    notes: Option<string>)

  datatype Availability = Availability(
    id: int,
    doctorId: int,
    date: string,
    startTime: string,
    endTime: string)

  // ---------------------------------------------------------------------
  // Table constraints
  // ---------------------------------------------------------------------

  /** user.id is the primary key and user.username is UNIQUE. */
  predicate UsersConstraints(users: seq<User>, nextId: int)
  {
    && (forall i :: 0 <= i < |users| ==> users[i].id < nextId)
    && (forall i, j :: 0 <= i < j < |users| ==> users[i].id != users[j].id)
    && (forall i, j :: 0 <= i < j < |users| ==> users[i].username != users[j].username)
  }

  /** doctor.user_id and patient.user_id are primary keys. */
  predicate ProfilesConstraints(doctors: seq<DoctorProfile>, patients: seq<PatientProfile>)
  {
    && (forall i, j :: 0 <= i < j < |doctors| ==> doctors[i].userId != doctors[j].userId)
    && (forall i, j :: 0 <= i < j < |patients| ==> patients[i].userId != patients[j].userId)
  }

  /** appointment.id is the primary key and (doctor_id, date, time) is UNIQUE,
      whatever the status. */
  predicate AppointmentsConstraints(appts: seq<Appointment>, nextId: int)
  {
    && (forall i :: 0 <= i < |appts| ==> appts[i].id < nextId)
    && (forall i, j :: 0 <= i < j < |appts| ==> appts[i].id != appts[j].id)
    && UniqueSlots(appts)
  }

  predicate SameSlot(a: Appointment, b: Appointment)
  {
    a.doctorId == b.doctorId && a.date == b.date && a.time == b.time
  }

  predicate UniqueSlots(appts: seq<Appointment>)
  {
    forall i, j :: 0 <= i < j < |appts| ==> !SameSlot(appts[i], appts[j])
  }

  /** Some appointment carries this id. */
  predicate HasAppointmentId(appts: seq<Appointment>, id: int)
  {
    exists i :: 0 <= i < |appts| && appts[i].id == id
  }

  /** treatment.id is the primary key and treatment.appointment_id is UNIQUE. */
  predicate TreatmentsConstraints(treatments: seq<Treatment>, nextId: int)
  {
    && (forall k :: 0 <= k < |treatments| ==> treatments[k].id < nextId)
    && (forall k, l :: 0 <= k < l < |treatments| ==> treatments[k].id != treatments[l].id)
    && (forall k, l :: 0 <= k < l < |treatments| ==> treatments[k].appointmentId != treatments[l].appointmentId)
  }

  predicate HasUserId(users: seq<User>, id: int)
  {
    exists i :: 0 <= i < |users| && users[i].id == id
  }

  /** doctor_availability.id is the primary key and (doctor_id, date, start_time)
      is UNIQUE. */
  predicate AvailabilityConstraints(windows: seq<Availability>, nextId: int)
  {
    && (forall i :: 0 <= i < |windows| ==> windows[i].id < nextId)
    && (forall i, j :: 0 <= i < j < |windows| ==> windows[i].id != windows[j].id)
    && (forall i, j :: 0 <= i < j < |windows| ==>
          !(windows[i].doctorId == windows[j].doctorId && windows[i].date == windows[j].date
            && windows[i].startTime == windows[j].startTime))
  }

  /** The whole store: every table, plus the next primary key of each table
      that the application inserts into. */
  datatype Db = Db(
    users: seq<User>,
    doctors: seq<DoctorProfile>,
    patients: seq<PatientProfile>,
    appointments: seq<Appointment>,
    treatments: seq<Treatment>,
    availability: seq<Availability>,
    nextUserId: int,
    nextAppointmentId: int,
    nextTreatmentId: int,
    nextAvailabilityId: int)
  {
    /** What the storage layer checks before it accepts a commit: primary
        keys and UNIQUE constraints (NOT NULL columns are non-optional fields). */
    predicate Constraints()
    {
      && UsersConstraints(users, nextUserId)
      && ProfilesConstraints(doctors, patients)
      && AppointmentsConstraints(appointments, nextAppointmentId)
      && TreatmentsConstraints(treatments, nextTreatmentId)
      && AvailabilityConstraints(availability, nextAvailabilityId)
    }

    /** The declared foreign keys of the profile and treatment tables. The
        store does not check them (SQLite leaves foreign keys off unless
        asked); they hold because every handler inserts only references to
        stored rows. */
    predicate References()
    {
      && (forall i :: 0 <= i < |doctors| ==> HasUserId(users, doctors[i].userId))
      && (forall i :: 0 <= i < |patients| ==> HasUserId(users, patients[i].userId))
      && (forall k :: 0 <= k < |treatments| ==> HasAppointmentId(appointments, treatments[k].appointmentId))
    }

    predicate Valid()
    {
      Constraints() && References()
    }
  }

  /** The store right after the tables are created. */
  const EmptyDb: Db := Db([], [], [], [], [], [], 1, 1, 1, 1)

  // ---------------------------------------------------------------------
  // What an insert does to the constraints
  // ---------------------------------------------------------------------

  /** Some stored appointment, whatever its status, already uses this (doctor, date, time). */
  predicate SlotTaken(appts: seq<Appointment>, doctorId: int, date: string, time: string)
  {
    exists i :: 0 <= i < |appts| && appts[i].doctorId == doctorId && appts[i].date == date && appts[i].time == time
  }

  /** Inserting a row with the next appointment id is accepted by the store
      exactly when its (doctor, date, time) is not used yet. */
  lemma AppendAppointmentConstraints(appts: seq<Appointment>, nextId: int, a: Appointment)
    requires AppointmentsConstraints(appts, nextId) && a.id == nextId
    ensures AppointmentsConstraints(appts + [a], nextId + 1)
            <==> !SlotTaken(appts, a.doctorId, a.date, a.time)
  {
    var s := appts + [a];
    if SlotTaken(appts, a.doctorId, a.date, a.time) {
      var i :| 0 <= i < |appts| && appts[i].doctorId == a.doctorId && appts[i].date == a.date && appts[i].time == a.time;
      assert SameSlot(s[i], s[|appts|]);
    } else {
      forall i, j | 0 <= i < j < |s| ensures !SameSlot(s[i], s[j]) {
        if j == |appts| {
          assert s[j] == a;
        }
      }
    }
  }

  /** Changing only the status of a stored appointment leaves its table's
      constraints as they were. */
  lemma SetStatusConstraints(appts: seq<Appointment>, nextId: int, i: nat, st: Status)
    requires i < |appts|
    ensures AppointmentsConstraints(appts[i := appts[i].(status := st)], nextId)
            <==> AppointmentsConstraints(appts, nextId)
  {
    var s := appts[i := appts[i].(status := st)];
    assert forall k :: 0 <= k < |s| ==> s[k].id == appts[k].id;
    assert forall k, l :: 0 <= k < |s| && 0 <= l < |s| ==> (SameSlot(s[k], s[l]) <==> SameSlot(appts[k], appts[l]));
  }

  lemma SetStatusKeepsIds(appts: seq<Appointment>, i: nat, st: Status, id: int)
    requires i < |appts|
    ensures HasAppointmentId(appts[i := appts[i].(status := st)], id) <==> HasAppointmentId(appts, id)
  {
    var s := appts[i := appts[i].(status := st)];
    if HasAppointmentId(appts, id) {
      var k :| 0 <= k < |appts| && appts[k].id == id;
      assert s[k].id == id;
    }
    if HasAppointmentId(s, id) {
      var k :| 0 <= k < |s| && s[k].id == id;
      assert appts[k].id == id;
    }
  }
}
