/** The read-only queries the request handlers run against the store: row
    lookups, the booking pre-check, the dashboard and history lists, and the
    (doctor, date) -> window map shown by the doctor search. */
module Queries {
  import opened Models
  import opened Ordering

  // ---------------------------------------------------------------------
  // Generic selection
  // ---------------------------------------------------------------------

  /** The rows of s that satisfy p (a WHERE clause), each as often as in s. */
  function Filter<T(==,!new)>(s: seq<T>, p: T -> bool): (r: seq<T>)
    ensures forall x :: multiset(r)[x] == if p(x) then multiset(s)[x] else 0
    ensures forall x :: x in r <==> x in s && p(x)
  {
    if s == [] then []
    else
      assert s == [s[0]] + s[1..];
      (if p(s[0]) then [s[0]] else []) + Filter(s[1..], p)
  }

  /** The position of the first row that satisfies p (a query's .first()). */
  function IndexWhere<T>(s: seq<T>, p: T -> bool): (r: Option<nat>)
    ensures r.Some? ==> r.value < |s| && p(s[r.value])
    ensures r.Some? ==> forall j :: 0 <= j < r.value ==> !p(s[j])
    ensures r.None? ==> forall j :: 0 <= j < |s| ==> !p(s[j])
  {
    if s == [] then None
    else if p(s[0]) then Some(0)
    else
      match IndexWhere(s[1..], p)
      case None => None
      case Some(k) => Some(k + 1)
  }

  // ---------------------------------------------------------------------
  // Lookups by key
  // ---------------------------------------------------------------------

  /** Lookup of an appointment by primary key. */
  function FindAppointment(appts: seq<Appointment>, id: int): (r: Option<nat>)
    ensures r.Some? ==> r.value < |appts| && appts[r.value].id == id
    ensures r.None? <==> !HasAppointmentId(appts, id)
  {
    IndexWhere(appts, (a: Appointment) => a.id == id)
  }

  /** With unique ids the lookup finds the one row that has the id. */
  lemma FindAppointmentUnique(appts: seq<Appointment>, i: nat)
    requires i < |appts|
    requires forall k, l :: 0 <= k < l < |appts| ==> appts[k].id != appts[l].id
    ensures FindAppointment(appts, appts[i].id) == Some(i)
  {
    assert HasAppointmentId(appts, appts[i].id);
  }

  /** Lookup of a user by primary key. */
  function FindUser(users: seq<User>, id: int): (r: Option<nat>)
    ensures r.Some? ==> r.value < |users| && users[r.value].id == id
    ensures r.None? <==> forall j :: 0 <= j < |users| ==> users[j].id != id
  {
    IndexWhere(users, (u: User) => u.id == id)
  }

  lemma FindUserUnique(users: seq<User>, i: nat)
    requires i < |users|
    requires forall k, l :: 0 <= k < l < |users| ==> users[k].id != users[l].id
    ensures FindUser(users, users[i].id) == Some(i)
  {
    assert users[i].id == users[i].id;
  }

  /** The first availability window stored for (doctor, date). */
  function FirstWindow(windows: seq<Availability>, doctorId: int, date: string): (r: Option<nat>)
    ensures r.Some? ==> r.value < |windows| && windows[r.value].doctorId == doctorId && windows[r.value].date == date
    ensures r.Some? ==> forall j :: 0 <= j < r.value ==> !(windows[j].doctorId == doctorId && windows[j].date == date)
    ensures r.None? <==> forall j :: 0 <= j < |windows| ==> !(windows[j].doctorId == doctorId && windows[j].date == date)
  {
    IndexWhere(windows, (w: Availability) => w.doctorId == doctorId && w.date == date)
  }

  /** The booking pre-check: a Booked appointment (and only a Booked one)
      at this (doctor, date, time). */
  predicate HasBookedAt(appts: seq<Appointment>, doctorId: int, date: string, time: string)
  {
    exists i :: 0 <= i < |appts| && appts[i].doctorId == doctorId && appts[i].date == date
                && appts[i].time == time && appts[i].status == Booked
  }

  predicate HasTreatment(treatments: seq<Treatment>, appointmentId: int)
  {
    exists k :: 0 <= k < |treatments| && treatments[k].appointmentId == appointmentId
  }

  predicate UsernameTaken(users: seq<User>, username: string)
  {
    exists i :: 0 <= i < |users| && users[i].username == username
  }

  // ---------------------------------------------------------------------
  // Dashboards and histories
  // ---------------------------------------------------------------------

  /** A doctor's dashboard row: theirs, dated from today to the end of the
      week inclusive, and not Cancelled. */
  predicate IsDoctorUpcoming(a: Appointment, doctorId: int, today: string, endOfWeek: string)
  {
    a.doctorId == doctorId && LexLe(today, a.date) && LexLe(a.date, endOfWeek) && a.status != Cancelled
  }

  /** A patient's dashboard row: theirs, Booked, dated today or later. */
  predicate IsPatientUpcoming(a: Appointment, patientId: int, today: string)
  {
    a.patientId == patientId && a.status == Booked && LexLe(today, a.date)
  }

  /** A patient's history row: theirs and Completed. */
  predicate IsPatientHistory(a: Appointment, patientId: int)
  {
    a.patientId == patientId && a.status == Completed
  }

  function DoctorUpcoming(appts: seq<Appointment>, doctorId: int, today: string, endOfWeek: string): (r: seq<Appointment>)
    ensures Sorted(Ascending, r)
    ensures forall a :: multiset(r)[a] == if IsDoctorUpcoming(a, doctorId, today, endOfWeek) then multiset(appts)[a] else 0
  {
    SortBy(Ascending, Filter(appts, (a: Appointment) => IsDoctorUpcoming(a, doctorId, today, endOfWeek)))
  }

  function PatientUpcoming(appts: seq<Appointment>, patientId: int, today: string): (r: seq<Appointment>)
    ensures Sorted(Ascending, r)
    ensures forall a :: multiset(r)[a] == if IsPatientUpcoming(a, patientId, today) then multiset(appts)[a] else 0
  {
    SortBy(Ascending, Filter(appts, (a: Appointment) => IsPatientUpcoming(a, patientId, today)))
  }

  /** Most recent first. */
  function PatientHistory(appts: seq<Appointment>, patientId: int): (r: seq<Appointment>)
    ensures Sorted(Descending, r)
    ensures forall a :: multiset(r)[a] == if IsPatientHistory(a, patientId) then multiset(appts)[a] else 0
  {
    SortBy(Descending, Filter(appts, (a: Appointment) => IsPatientHistory(a, patientId)))
  }

  /** An admin dashboard row: Booked. */
  predicate IsBooked(a: Appointment)
  {
    a.status == Booked
  }

  /** How many rows the admin dashboard lists at most. */
  const AdminUpcomingLimit: nat := 5

  function Min(a: int, b: int): int { if a <= b then a else b }

  /** A prefix of a sorted sequence is sorted, holds no row more often than
      the whole, and each of its rows comes before every row that the prefix
      leaves out. */
  lemma SortedPrefix(dir: Direction, s: seq<Appointment>, k: nat)
    requires Sorted(dir, s) && k <= |s|
    ensures Sorted(dir, s[..k])
    ensures forall a :: multiset(s[..k])[a] <= multiset(s)[a]
    ensures forall x, y :: x in s[..k] && multiset(s[..k])[y] < multiset(s)[y] ==> Precedes(dir, x, y)
  {
    assert s == s[..k] + s[k..];
    assert multiset(s) == multiset(s[..k]) + multiset(s[k..]);
    forall x, y | x in s[..k] && multiset(s[..k])[y] < multiset(s)[y] ensures Precedes(dir, x, y) {
      assert y in multiset(s[k..]);
      var m :| 0 <= m < k && s[m] == x;
      var n :| 0 <= n < |s[k..]| && s[k..][n] == y;
      assert s[k + n] == y;
    }
  }

  /** The admin dashboard: the earliest Booked appointments, at most five,
      in date and time order. No Booked appointment left out of the list
      comes before one in it. */
  function AdminUpcoming(appts: seq<Appointment>): (r: seq<Appointment>)
    ensures Sorted(Ascending, r)
    ensures |r| == Min(AdminUpcomingLimit as int, |Filter(appts, IsBooked)|)
    ensures forall a :: multiset(r)[a] <= if a.status == Booked then multiset(appts)[a] else 0
    ensures forall x, y :: x in r && y in appts && y.status == Booked && multiset(r)[y] < multiset(appts)[y]
              ==> KeyLe(x, y)
  {
    var sorted := SortBy(Ascending, Filter(appts, IsBooked));
    var k := Min(AdminUpcomingLimit as int, |sorted|);
    SortedPrefix(Ascending, sorted, k);
    assert forall a :: multiset(sorted)[a] == if a.status == Booked then multiset(appts)[a] else 0;
    sorted[..k]
  }

  // ---------------------------------------------------------------------
  // The doctor search
  // ---------------------------------------------------------------------

  /** The doctors listed by the search: those of the given specialization,
      or all of them when none is given. */
  function DoctorsInSpecialization(doctors: seq<DoctorProfile>, specializationId: Option<int>): (r: seq<DoctorProfile>)
    ensures forall d :: d in r <==> d in doctors && (specializationId.Some? ==> d.specializationId == specializationId.value)
  {
    match specializationId
    case None => doctors
    case Some(s) => Filter(doctors, (d: DoctorProfile) => d.specializationId == s)
  }

  /** The user ids of the listed doctors, in order. */
  function DoctorIds(doctors: seq<DoctorProfile>): seq<int>
  {
    seq(|doctors|, i requires 0 <= i < |doctors| => doctors[i].userId)
  }

  /** Availability rows of the listed doctors dated between the two dates,
      both included. */
  function WindowsInRange(windows: seq<Availability>, doctorIds: seq<int>, startDate: string, endDate: string): (r: seq<Availability>)
    ensures forall w :: w in r <==> w in windows && w.doctorId in doctorIds && LexLe(startDate, w.date) && LexLe(w.date, endDate)
  {
    Filter(windows, (w: Availability) => w.doctorId in doctorIds && LexLe(startDate, w.date) && LexLe(w.date, endDate))
  }

  /** The text shown for a window: "start - end". */
  function WindowText(w: Availability): string
  {
    w.startTime + " - " + w.endTime
  }

  /** Records one row in the map; a later row for the same (doctor, date)
      overwrites an earlier one. */
  function Put(m: map<int, map<string, string>>, w: Availability): map<int, map<string, string>>
  {
    var inner := if w.doctorId in m then m[w.doctorId] else map[];
    m[w.doctorId := inner[w.date := WindowText(w)]]
  }

  /** The map the search builds from the rows, processing them in order. */
  function WindowMap(records: seq<Availability>): map<int, map<string, string>>
  {
    if records == [] then map[]
    else Put(WindowMap(records[..|records| - 1]), records[|records| - 1])
  }

  predicate IsFor(w: Availability, doctorId: int, date: string)
  {
    w.doctorId == doctorId && w.date == date
  }

  /** A doctor has an inner map exactly when some row is theirs; a (doctor,
      date) has an entry exactly when some row is for it, and the entry is
      the text of the LAST such row. */
  lemma {:induction false} WindowMapLookup(records: seq<Availability>, doctorId: int, date: string)
    ensures doctorId in WindowMap(records) <==> exists i :: 0 <= i < |records| && records[i].doctorId == doctorId
    ensures (doctorId in WindowMap(records) && date in WindowMap(records)[doctorId])
            <==> exists i :: 0 <= i < |records| && IsFor(records[i], doctorId, date)
    ensures doctorId in WindowMap(records) && date in WindowMap(records)[doctorId] ==>
              exists i :: 0 <= i < |records| && IsFor(records[i], doctorId, date)
                          && WindowMap(records)[doctorId][date] == WindowText(records[i])
                          && forall j :: i < j < |records| ==> !IsFor(records[j], doctorId, date)
  {
    if records != [] {
      var n := |records| - 1;
      var front := records[..n];
      var w := records[n];
      WindowMapLookup(front, doctorId, date);
      var m := WindowMap(front);
      assert WindowMap(records) == Put(m, w);
      assert forall i :: 0 <= i < n ==> front[i] == records[i];
      if IsFor(w, doctorId, date) {
        assert WindowMap(records)[doctorId][date] == WindowText(records[n]);
      } else if doctorId in m && date in m[doctorId] {
        var i :| 0 <= i < n && IsFor(front[i], doctorId, date)
                 && m[doctorId][date] == WindowText(front[i])
                 && forall j :: i < j < n ==> !IsFor(front[j], doctorId, date);
        assert WindowMap(records)[doctorId][date] == WindowText(records[i]);
      }
    }
  }

  /** The loop of the doctor search that fills the map row by row. */
  method BuildAvailabilityMap(records: seq<Availability>) returns (m: map<int, map<string, string>>)
    ensures m == WindowMap(records)
  {
    m := map[];
    var i := 0;
    while i < |records|
      invariant 0 <= i <= |records|
      invariant m == WindowMap(records[..i])
    {
      var w := records[i];
      if w.doctorId !in m {
        m := m[w.doctorId := map[]];
      }
      m := m[w.doctorId := m[w.doctorId][w.date := WindowText(w)]];
      assert records[..i + 1][..i] == records[..i];
      i := i + 1;
    }
    assert records[..i] == records;
  }
}
