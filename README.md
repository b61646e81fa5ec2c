# Clinic appointment store — a Dafny model

This project models the record-keeping core of a small clinic web
application with three roles: Admin, Doctor and Patient. It covers
patients booking and cancelling appointments, doctors completing
appointments with a treatment record, doctors publishing a daily
availability window, admins adding doctors and blacklisting accounts,
patients registering, the doctor search's (doctor, date) → window map, and
the dashboard and history listings.

Files and modules:

- `models.dfy` (module `Models`): one datatype per table row (`User`,
  `DoctorProfile`, `PatientProfile`, `Appointment`, `Treatment`,
  `Availability`) and the column defaults. It also defines `Db.Constraints()`,
  the primary keys and UNIQUE constraints the storage layer checks at
  commit. `Db.References()` holds the declared foreign keys, which the
  storage layer does not check.
- `ordering.dfy` (`Ordering`): text comparison of the stored
  `YYYY-MM-DD` / `HH:MM` strings, and ORDER BY as a sort that returns the
  same rows in order.
- `queries.dfy` (`Queries`): lookups by key, the booking pre-check, the
  dashboard and history filters, and the doctor search. It includes the loop
  that builds the availability map.
- `handlers.dfy` (`Handlers`): each state-changing route as a pure function
  from the store to `Ok(new store)` or `Err(reason)`, with lemmas about it.
- `lifecycle.dfy` (`Lifecycle`): the routes over any sequence of requests.
  It proves that the store's invariant is kept, that a cancelled slot can
  never be booked again, and that a completed appointment never changes.
- `store.dfy` (`Clinic`): class `Store`, whose fields are the tables. Its
  methods stage their changes in place. The commit checks
  `Snapshot().Constraints()`, and a failed commit restores the fields the
  method touched. Each method's contract equates its outcome and its new
  state with the handler function applied to the old store.

The current user is an explicit `Actor(id, role)`. The booking and
availability fields that the code screens with `all([...])` are plain
strings, and `""` stands for both an absent and an empty field there (both
are refused); the booking's `doctor_id` is `None` when absent or empty. The
other optional fields are `Option<string>`: absent is `None`, empty is
`Some("")`, and an empty string passes the NOT NULL checks, so `add_doctor`
or `register` with an empty username or name commits. The password arrives already hashed, as
`Option<string>`; `None` stands for the missing password on which hashing
raises. "Today" and "end of week" are parameters.

Behaviour of the code worth noting:

- There is no slot generator. The doctor search shows each window only as
  the text `"start - end"`.
- The booking pre-check looks only for a **Booked** appointment at (doctor,
  date, time). The storage UNIQUE(doctor_id, date, time) ignores status. So
  a cancelled or completed slot passes the pre-check and is then refused at
  commit: it is never bookable again (`Lifecycle.UsedSlotIsNeverRebookable`).
- Cancelling is allowed only for the owning patient, and only from Booked.
  An admin cannot cancel, and the statuses Pending and Rescheduled do not
  occur.
- Completing has no status guard, so a Cancelled appointment can be
  Completed. Completed is terminal (`Lifecycle.CompletedStaysCompleted`);
  Cancelled is not.
- "One window per (doctor, date)" is what the upsert keeps
  (`Lifecycle.Invariant`). The table's own constraint is only UNIQUE(doctor,
  date, start_time). An update that moves the first window onto another
  stored window's start time is refused at commit.

## Model

| member | source | states |
|---|---|---|
| Models.AppendAppointmentConstraints | models.py:48-58 | Inserting an appointment with the next id is accepted by the store exactly when no stored appointment of any status uses its (doctor, date, time) |
| Models.SetStatusConstraints | models.py:50-58 | Changing only an appointment's status neither breaks nor repairs the table's key and UNIQUE constraints |
| Models.SetStatusKeepsIds | models.py:65 | Changing a status keeps every appointment id, so treatment references stay valid |
| Ordering.LexLeTransitive | app.py:149-151 | Text comparison of stored dates and times is transitive |
| Ordering.LexLeAntisymmetric | app.py:149-151 | Two strings ordered both ways are equal |
| Ordering.KeyLeTransitive | app.py:151 | ORDER BY date, time is a transitive order on appointments |
| Ordering.Insert | app.py:151 | Inserting into a sorted list keeps it sorted and adds exactly that row |
| Ordering.SortBy | app.py:151 | ORDER BY returns the same rows (as a multiset) in date-then-time order, ascending or descending |
| Queries.Filter | app.py:146-151 | A WHERE clause keeps each row that satisfies it, as often as it occurs, and nothing else |
| Queries.FindAppointment | app.py:420 | The lookup by id finds an appointment with that id, and finds none exactly when no appointment has it |
| Queries.FindAppointmentUnique | app.py:420 | With unique ids, the lookup of an appointment's id finds that appointment |
| Queries.FindUser | app.py:263 | The lookup finds a user with that id, or none exactly when none has it |
| Queries.FindUserUnique | app.py:263 | With unique ids, the lookup of a user's id finds that user |
| Queries.FirstWindow | app.py:511 | The availability lookup returns the first window for (doctor, date), or none exactly when there is no such window |
| Queries.DoctorUpcoming | app.py:142-151 | The doctor dashboard lists exactly the doctor's non-Cancelled appointments dated from today to the end of the week, each as often as stored, sorted by date and time |
| Queries.PatientUpcoming | app.py:163-167 | The patient dashboard lists exactly the patient's Booked appointments dated today or later, sorted by date and time |
| Queries.PatientHistory | app.py:487-490 | The history lists exactly the patient's Completed appointments, most recent first |
| Queries.SortedPrefix | app.py:127 | A prefix of a sorted list is sorted, and every listed row comes no later than any row the prefix leaves out |
| Queries.AdminUpcoming | app.py:127 | The admin list holds min(5, number of Booked) Booked appointments in date order, and no omitted Booked appointment comes before a listed one |
| Queries.DoctorsInSpecialization | app.py:345-348 | The search lists the doctors of the requested specialization, or all doctors when none is requested |
| Queries.WindowsInRange | app.py:353-356 | The search loads exactly the windows of the listed doctors dated between the two dates, both included |
| Queries.WindowMapLookup | app.py:357-361 | The map has a doctor key exactly when some loaded row is theirs, and a (doctor, date) entry exactly when some row is for it; the entry is the "start - end" text of the last such row |
| Queries.BuildAvailabilityMap | app.py:357-361 | The loop over the loaded rows builds exactly the map the rows determine |
| Handlers.BookAppointment | app.py:375-413 | Booking commits exactly when a patient gives all three fields and no appointment of any status uses the slot. Missing fields are rejected first, then a Booked appointment at the slot (the pre-check), then any other appointment at the slot (at commit). A commit appends exactly one Booked appointment for the acting patient and leaves everything else unchanged |
| Handlers.BookAppointmentPreservesValid | app.py:398-411 | A committed booking keeps every table constraint and reference |
| Handlers.UsedSlotIsRefusedAtCommit | app.py:387-411 | A slot whose appointment is Cancelled or Completed passes the pre-check and is refused at commit |
| Handlers.SecondBookingIsRefused | app.py:387-396 | After a booking commits, any further booking of the same slot is refused, by the pre-check when a patient asks |
| Handlers.CancelAppointment | app.py:420-436 | An unknown id is NotFound. A committed cancel changes exactly one owned, Booked appointment's status to Cancelled |
| Handlers.CancelAppointmentExactly | app.py:420-436 | Cancelling a stored appointment succeeds exactly when its patient asks while it is Booked, and then sets only its status to Cancelled. A Completed or Cancelled one is NotCancellable |
| Handlers.CancelAppointmentPreservesValid | app.py:428-431 | A committed cancel keeps every table constraint and reference |
| Handlers.CompleteAppointment | app.py:445-474 | An unknown id is NotFound, and an appointment with a treatment cannot be completed again. Success sets the assigned doctor's appointment to Completed and appends exactly one treatment for it |
| Handlers.CompleteAppointmentExactly | app.py:445-474 | Completing a stored appointment succeeds exactly when its doctor asks and it has no treatment, whatever its status. Another doctor gets Forbidden |
| Handlers.SecondCompletionIsRefused | app.py:455-472 | A second completion of the same appointment fails and is rolled back |
| Handlers.CompleteAppointmentPreservesValid | app.py:455-468 | A committed completion keeps every constraint, including one treatment per appointment, and every treatment references an appointment |
| Handlers.SetAvailability | app.py:501-532 | Another role gets AccessDenied and a missing field MissingDetails. A doctor's complete request commits exactly unless it would move the first window of (doctor, date) onto the start time of another stored window of that day, which gives IntegrityError. On commit the first window gets only its new start and end, or, when there is none, exactly one window is appended |
| Handlers.SetAvailabilityKeepsOneWindowPerDay | app.py:509-527 | With at most one window per (doctor, date), a doctor's complete request always commits and there is still at most one afterwards |
| Handlers.SetAvailabilityPreservesValid | app.py:509-531 | A committed upsert keeps UNIQUE(doctor, date, start_time) and every other constraint |
| Handlers.ToggleBlacklist | app.py:263-280 | A committed toggle flips the active flag of exactly one non-Admin user |
| Handlers.ToggleBlacklistExactly | app.py:263-280 | Toggling succeeds exactly when an admin asks about a non-Admin account and flips only its flag. An Admin account gives CannotBlacklistAdmin |
| Handlers.ToggleBlacklistTwice | app.py:270 | Toggling the same account twice restores the store |
| Handlers.ToggleBlacklistPreservesValid | app.py:270-273 | A toggle keeps every constraint and reference |
| Handlers.AddDoctor | app.py:187-216 | Adding commits exactly when an admin gives name, username, password and specialization and the username is free. It appends one active Doctor user and its profile, and nothing else changes |
| Handlers.Register | app.py:286-325 | Registering commits exactly when nobody is logged in, name, username and password are given and the username is free. It appends one active Patient user and its profile |
| Handlers.AppendUserValid | models.py:10-16 | Appending a user with the next id and a free username keeps ids and usernames unique and keeps every existing reference |
| Handlers.AddDoctorPreservesValid | app.py:193-211 | A committed add keeps every constraint and reference |
| Handlers.RegisterPreservesValid | app.py:301-317 | A committed registration keeps every constraint and reference |
| Handlers.DoctorViewPatientHistory | app.py:546-554 | A doctor sees a history exactly for the id of a stored Patient account, and gets NotFound for any other id; other roles get AccessDenied. The history holds each of that patient's Completed appointments as often as it is stored and nothing else, most recent first |
| Lifecycle.RoleGateTurnsAway | app.py:33-36 | Every gated route turns away a user of another role with AccessDenied and changes nothing |
| Lifecycle.BookKeepsTreated | app.py:398-408 | A booking never creates an appointment that already has a treatment |
| Lifecycle.CancelKeepsTreated | app.py:428-429 | Cancelling keeps "Completed exactly when treated" |
| Lifecycle.CompleteKeepsTreated | app.py:456-467 | Completing marks exactly the appointment that gets the treatment |
| Lifecycle.DispatchPreservesInvariant | models.py:50-78 | Every route keeps the constraints, the references, one window per (doctor, date) and "Completed exactly when treated" |
| Lifecycle.ApplyKeepsValid | models.py:8-78 | Every request keeps the table constraints and references, and keeps the whole invariant when it held before |
| Lifecycle.RunPreservesInvariant | models.py:58 | After any sequence of requests, each (doctor, date, time) has at most one appointment of any status, and the whole invariant holds |
| Lifecycle.EvolvesTransitive | app.py:375-474 | Growing the appointment table and changing only statuses composes over several steps |
| Lifecycle.ApplyEvolves | app.py:375-474 | No route deletes an appointment or changes anything but its status, and none makes a non-Booked appointment Booked again |
| Lifecycle.RunEvolves | app.py:375-474 | The same holds across any sequence of requests |
| Lifecycle.UsedSlotIsNeverRebookable | app.py:387-411 | Once a slot's appointment is Cancelled or Completed, booking that slot fails after any later requests, and for a patient with complete fields it fails at commit |
| Lifecycle.ApplyKeepsCompleted | app.py:428-467 | No single route changes a Completed appointment |
| Lifecycle.CompletedStaysCompleted | app.py:428-467 | A Completed appointment stays exactly as it is through any later requests |
| Clinic.AppendTreatmentConstraints | models.py:65 | Inserting a treatment is accepted at commit exactly when its appointment has none yet |
| Clinic.MoveWindowConstraints | models.py:78 | Moving a window to a new start time is accepted exactly when no other window of that doctor and date starts then |
| Clinic.StagedCompletion | app.py:455-472 | Staging a completion and committing it gives exactly the handler's result: the staged store when the constraints accept it, IntegrityError otherwise |
| Clinic.Store.constructor | models.py:8-78 | A new store is empty with every next id at 1, and satisfies the invariant |
| Clinic.Store.BookAppointment | app.py:375-413 | The in-place booking, with its commit check and rollback, gives the handler's outcome and state and keeps the invariant |
| Clinic.Store.CancelAppointment | app.py:420-436 | The in-place cancel gives the handler's outcome and state and keeps the invariant |
| Clinic.Store.CompleteAppointment | app.py:445-474 | The in-place completion, whose rollback undoes the status change, gives the handler's outcome and state |
| Clinic.Store.SetAvailability | app.py:501-532 | The in-place upsert, with its commit check and rollback, gives the handler's outcome and state |
| Clinic.Store.ToggleBlacklist | app.py:263-280 | The in-place toggle gives the handler's outcome and state |
| Clinic.Store.AddDoctor | app.py:187-216 | The in-place add gives the handler's outcome and state. Its rollback removes the flushed user when the profile cannot be written |
| Clinic.Store.Register | app.py:286-325 | The in-place registration gives the handler's outcome and state |
| Clinic.Store.FindDoctors | app.py:335-361 | A patient gets the doctors of the specialization and the window map of their windows in the date range; other roles get AccessDenied |
| Clinic.Store.AdminDashboard | app.py:121-127 | An admin gets the three table counts and the first five Booked appointments in (date, time) order: no Booked appointment left out comes before a listed one; other roles get AccessDenied |
| Clinic.Store.DoctorDashboard | app.py:141-151 | A doctor gets exactly their non-Cancelled appointments of the week, sorted |
| Clinic.Store.PatientDashboard | app.py:159-167 | A patient gets exactly their Booked appointments from today on, sorted |
| Clinic.Store.PatientHistory | app.py:485-490 | A patient gets exactly their Completed appointments, most recent first |
| Clinic.Store.DoctorViewPatientHistory | app.py:544-554 | Reading the tables gives the handler's result: a doctor gets a history exactly for a stored Patient account and NotFound otherwise, other roles AccessDenied; the history holds that patient's Completed rows with their multiplicities, most recent first |

## Left out

- HTTP routing, templates, flashed messages, redirects and aborts. Each route's result is an `Outcome` or `Result` value instead.
- The login session and `current_user`. They are replaced by an explicit `Actor`, or by a flag saying whether someone is logged in (for registration).
- Password hashing is a foreign call. The model receives the hash, or `None` where hashing raises on a missing password.
- The database engine and session I/O. The store is in memory, and a commit is a check of the table constraints.
- Concurrency. The check-then-insert race between two bookings is not modelled; requests run one at a time.
- Clock reads and date arithmetic. Today, the end of the week and the search's date range are parameters.
- The secret key and the debug prints. They do not affect behaviour.
- The Specialization table and its foreign keys. It is only read, and specialization ids are plain integers.
- The foreign keys from appointments and windows to patient and doctor profiles. The application never checks them and the storage layer leaves them unenforced.
- The routes outside this core: login, logout, the dashboard redirect, doctor and patient listing and editing, and table creation with the seeded admin. They are CRUD glue with no part in the properties above.
- The date list the search and availability pages render. It is presentation only.
- The GET branch of the completion and availability forms. It only renders a form.
- The failure branch after the cancel and toggle commits. Changing a status or an active flag cannot violate any constraint, so that branch is unreachable and is not modelled.
- The text-to-integer conversion of `doctor_id` and `specialization_id` from the form. The model receives them as integers or `None`.
- Handlers.AddDoctor: an empty `specialization_id` field is not represented. The code stores the empty text `''` in the integer column and commits; the model's `Option<int>` has no such value, and it gives `IntegrityError` only for an absent one.
- Clinic.Store.AddDoctor: the same gap as `Handlers.AddDoctor`, which it follows, for an empty `specialization_id`.
