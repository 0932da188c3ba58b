# Hospital booking core, modelled in Dafny

This project models the appointment-booking core of a small Flask hospital
management system. The core has these handlers:

- a patient books an open availability slot of a doctor;
- a doctor marks an appointment completed or cancelled;
- a patient cancels an appointment;
- a doctor fills in the seven-day availability form;
- a doctor records the clinical history of an appointment;
- anyone lists a patient's history, newest first;
- a patient views a doctor's slots of the coming week, grouped by date;
- an administrator deletes a doctor or a patient, together with the rows that depend on it.

The database is one value, `Store.State`. It holds the users, doctors,
patients, appointments, availability slots and history entries as sequences,
plus the next appointment key and a clock for history timestamps.

Each handler is a transition function, `Op(s, args): (State, Outcome)`. The
handler's flash-and-redirect paths become `Outcome` values.
`Handlers.Hospital` is the mutable object the application holds. Each
handler is a method on it that updates the table fields in place. Each
method is proved equal to its transition function, and to keep
`Store.Good`. `Good` is the conjunction of these invariants:

- the schema's key and uniqueness constraints;
- referential integrity;
- no double booking of a (doctor, date, time);
- at most one booked or completed visit per patient per day;
- at most one slot per doctor per day.

Two handlers have loops in the source: the seven-day form and the doctor
page's grouping. They are loops here too (`Availability.FillWindow` and
`Availability.SlotsByDate`), proved against recursive specifications.

Dates are day numbers and times are minutes since midnight. Users,
doctors and patients are identified by key rather than by user name.

The booking handler checks the patient's same-day visit before it checks the
slot, so a same-day conflict is reported even when the slot is also taken
(`Booking.BookOutcome`). No status or ownership check guards recording
history: a doctor may record history for any existing appointment, of any
status and of any doctor, once (`History.AddHistoryEffect`).

## Model

| member | source | states |
|---|---|---|
| Store.FindAppointment | app.py:384 | the position found holds the requested key and no earlier row does; none is found exactly when no appointment has the key |
| Store.FindIgnoresStatus | app.py:384 | changing a status never changes which appointment a key lookup finds |
| Store.DemoteKeepsNoDoubleBooking | app.py:390-393 | moving an appointment to completed or cancelled never creates a double booking |
| Store.CancelKeepsOneVisitPerDay | app.py:728 | cancelling an appointment never gives a patient two visits on one day |
| Booking.Book | app.py:651-710 | the booking handler as written; its outcomes and new store are stated by `Booking.BookOutcome` and `Booking.BookSuccess` |
| Booking.FindOpenSlot | app.py:665-670 | a found slot is open and matches doctor, date and start time; none is found exactly when no slot matches |
| Booking.BookOutcome | app.py:652-693 | unknown patient or doctor gives NotFound; an existing booked or completed visit that day gives SameDayConflict, whatever the slot; no open slot or a booked one gives SlotUnavailable; every rejection leaves the store unchanged |
| Booking.BookSuccess | app.py:695-707 | a successful booking appends exactly one booked appointment for the requested doctor, date and time under the next key, closes exactly the matched open slot, and touches nothing else |
| Booking.BookKeepsNoDoubleBooking | app.py:672-693 | after a booking no two booked appointments share doctor, date and time, even if a doctor reopened a booked slot |
| Booking.BookKeepsOneVisitPerDay | app.py:680-688 | after a booking a patient holds at most one booked or completed appointment per date |
| Booking.BookKeepsStore | app.py:651-710 | booking keeps every store invariant |
| Booking.BookedKeepsKeys | app.py:695-707 | a successful booking keeps the schema constraints, referential integrity and one slot per doctor per day |
| Booking.BookedKeepsValid | models.py:64 | an appended appointment under the next key keeps appointment keys unique and below the next key |
| Booking.BookedKeepsLinked | app.py:696-706 | appending an appointment of an existing patient and doctor and closing a slot keeps referential integrity |
| Booking.ClosingKeepsOneSlotPerDay | app.py:706 | closing a slot keeps one slot per doctor per day |
| StatusChange.ActionTarget | app.py:390-396 | "complete" asks for completed; "cancel" and "cancelled" ask for cancelled; any other action is unknown |
| StatusChange.DoctorUpdate | app.py:372-400 | the doctor's status handler as written; its outcomes and new store are stated by `StatusChange.DoctorUpdateEffect` |
| StatusChange.PatientCancel | app.py:716-731 | the patient's cancel handler as written; its outcomes and new store are stated by `StatusChange.PatientCancelEffect` |
| StatusChange.DoctorUpdateEffect | app.py:372-400 | the doctor's update succeeds exactly for the owning doctor of an existing appointment with a known action; it then changes only that appointment's status and reopens no slot; a non-owner gets NotAuthorized; every failure leaves the store unchanged |
| StatusChange.PatientCancelEffect | app.py:716-731 | the patient's cancel succeeds exactly for the owning patient of an existing appointment, then sets only that appointment to cancelled; otherwise NotFound or NotAuthorized and no change |
| StatusChange.UpdatesIgnorePriorStatus | app.py:384-393 | neither status handler reads the prior status: two stores that differ only in it get the same outcome and the same result |
| StatusChange.UpdatesKeepNoDoubleBooking | app.py:390-393 | neither status handler creates a double booking |
| StatusChange.PatientCancelKeepsOneVisitPerDay | app.py:723-729 | a patient's cancel keeps one visit per patient per day |
| StatusChange.UpdatesKeepStore | app.py:390-398 | both status handlers keep the schema constraints and referential integrity, and leave the slots alone |
| StatusChange.DoctorUpdateKeepsStore | app.py:390-398 | the doctor's update keeps the schema constraints and referential integrity, and leaves the slots alone |
| StatusChange.PatientCancelKeepsStore | app.py:728-729 | the patient's cancel keeps the schema constraints and referential integrity, and leaves the slots alone |
| StatusChange.StatusChangesKeepGood | app.py:372-400 | the guarded doctor update and the patient cancel keep every store invariant |
| StatusChange.StatusChangeKeepsStore | app.py:390-393 | changing one status keeps the schema constraints and referential integrity |
| StatusChange.StatusChangeKeepsValid | app.py:390-393 | changing one status keeps the appointment keys |
| StatusChange.StatusChangeKeepsLinked | app.py:390-393 | changing one status keeps every foreign key resolving |
| StatusChange.CompleteAfterCancelBreaksOneVisitPerDay | app.py:386-393 | book with doctor 1, cancel, book doctor 2 the same day, then doctor 1 completes the cancelled appointment: all four succeed and one visit per day, true at the start, fails |
| StatusChange.BookFirst | app.py:686-707 | the scenario's first booking succeeds with the stated result |
| StatusChange.CancelFirst | app.py:723-729 | the scenario's cancel succeeds with the stated result |
| StatusChange.BookSecond | app.py:680-707 | the scenario's second booking passes the same-day check, because the first visit is cancelled |
| StatusChange.CompleteFirst | app.py:384-398 | the doctor completes the cancelled appointment with the stated result |
| StatusChange.GuardedDoctorUpdateKeepsOneVisitPerDay | app.py:384-398 | with the status guard, a completed or cancelled appointment never changes again; the update agrees with the as-written handler whenever it is not refused; and one visit per patient per day is kept |
| StatusChange.GuardedDoctorUpdate | app.py:384-398 | the doctor's handler with a status guard; its meaning is stated by `StatusChange.GuardedDoctorUpdateKeepsOneVisitPerDay` |
| StatusChange.CancelAfterCompleteSucceeds | app.py:723-729 | a patient cancels a completed visit: the request succeeds and the visit becomes cancelled |
| StatusChange.GuardedPatientCancel | app.py:716-731 | the patient's cancel with a status guard; its meaning is stated by `StatusChange.GuardedPatientCancelKeepsTerminal` |
| StatusChange.GuardedPatientCancelKeepsTerminal | app.py:723-729 | with the status guard, a patient's cancel never changes a completed or cancelled appointment; it is refused as InvalidState exactly for the owner of such an appointment, and otherwise agrees with the as-written handler |
| Availability.FirstSlotOn | app.py:527 | the position found holds a slot of the doctor on that day; none is found exactly when the doctor has no slot that day |
| Availability.Upsert | app.py:527-540 | one form day's create-or-overwrite; its effect is stated by `Availability.UpsertEffect` |
| Availability.FillDays | app.py:517-540 | the first k days of the form, as a recursive function; their effect is stated by `Availability.FillDaysEffect` |
| Availability.UpsertEffect | app.py:527-540 | one form day overwrites the doctor's existing slot of that day or appends a new one, leaves every other slot alone, and keeps one slot per doctor per day |
| Availability.FillDaysEffect | app.py:517-540 | after the first k form days, slots outside them are untouched; only entered slots are added; every day with both times has its entered slot; one slot per doctor per day holds and every covered slot carries the entered values |
| Availability.FillUpsertStep | app.py:523-540 | a day with both times extends the first k-1 days' effect to k days |
| Availability.FillSkipStep | app.py:522-523 | a day missing a time leaves the slots as they were and still satisfies the k-day effect |
| Availability.SetAvailabilityEffect | app.py:502-544 | the form succeeds exactly for an existing doctor and changes only the slots: every entered day of the seven has its slot; every other slot is untouched; the only slots added are entered ones for days without a slot; with one slot per doctor per day, an entered day's existing slot is overwritten in place with the entered values; an unknown doctor changes nothing |
| Availability.SetAvailability | app.py:502-544 | the availability handler; its outcome and new store are stated by `Availability.SetAvailabilityEffect` |
| Availability.SetAvailabilityKeepsStore | app.py:502-544 | the availability form keeps every store invariant, including one slot per doctor per day |
| Availability.NewSlotsKeepLinks | app.py:527-536 | slots that are old or belong to an existing doctor keep referential integrity |
| Availability.FillWindow | app.py:517-540 | the seven-day loop leaves exactly the slots the form's days describe |
| Availability.SlotsOnWeek | app.py:635-637 | selecting one day from the week's slots gives that day's slots, or nothing for a day outside the week |
| Availability.SlotsByDate | app.py:639-641 | a date is a key exactly when it lies in the seven days and the doctor has a slot that day; each key maps to all of that day's slots in store order |
| Availability.GroupStep | app.py:640-641 | appending one slot to the grouping adds it to its own date and leaves other dates alone |
| Availability.GroupedWeek | app.py:632-641 | grouping the week's slots groups the doctor's slots of the seven days |
| History.AddHistoryEffect | app.py:418-449 | recording succeeds exactly when the appointment and doctor exist and no entry records the appointment yet, whatever its status or doctor; it appends one entry for the appointment's patient and the requesting doctor, stamped with the clock; a failure changes nothing |
| History.AddHistory | app.py:418-449 | the history handler; its outcomes and new store are stated by `History.AddHistoryEffect` |
| History.AddHistoryTwice | models.py:83 | a second recording for the same appointment, by any doctor, is refused as a duplicate and changes nothing |
| History.AddHistoryKeepsStore | app.py:435-446 | recording keeps every store invariant |
| History.AppendEntryKeepsValid | models.py:83-95 | a new entry for an unrecorded appointment, stamped now, keeps appointment_id unique and creation order |
| History.AppendEntryKeepsLinked | app.py:435-438 | a new entry whose patient, doctor and appointment exist keeps referential integrity |
| History.PatientHistory | app.py:473-477 | the listing holds exactly the patient's entries |
| History.PatientHistoryNewestFirst | app.py:476 | when entries are stored in creation order, the listing is strictly newest first |
| Deletion.DeleteDoctorEffect | app.py:181-206 | an unknown doctor changes nothing; a known one loses exactly the history entries it wrote, its appointments, its slots, its doctor row and its user row; every other row stays and patients are untouched |
| Deletion.DeletePatientEffect | app.py:290-314 | an unknown patient changes nothing; a known one loses exactly its history entries, appointments, patient row and user row; slots and doctors are untouched |
| Deletion.DeleteDoctor | app.py:181-206 | the doctor delete as written; its effect is stated by `Deletion.DeleteDoctorEffect` |
| Deletion.DeletePatient | app.py:290-314 | the patient delete; its effect is stated by `Deletion.DeletePatientEffect` |
| Deletion.DeleteDoctorCascade | app.py:189-203 | the doctor delete that also removes history recording the doctor's appointments; its meaning is stated by `Deletion.DeleteDoctorCascadeKeepsStore` |
| Deletion.FilteredKeepsBookingInvariants | app.py:190-192 | removing rows keeps no double booking, one visit per day and one slot per day |
| Deletion.FilteredKeepsKeys | app.py:189-200 | removing rows keeps every key, uniqueness and ordering constraint |
| Deletion.DeletePatientKeepsStore | app.py:290-314 | deleting a patient keeps every store invariant; no row is left pointing at the patient |
| Deletion.DeletePatientKeepsProfiles | app.py:303-308 | every remaining doctor and patient still has its user row |
| Deletion.DeletePatientKeepsLinks | app.py:298-300 | every remaining appointment and history entry still points at existing rows |
| Deletion.DeleteDoctorKeepsStore | app.py:181-206 | the as-written doctor delete keeps the schema constraints and the booking invariants |
| Deletion.DeleteDoctorKeepsProfiles | app.py:195-200 | every remaining doctor and patient still has its user row |
| Deletion.DeleteDoctorLeavesOrphanHistory | app.py:190-191 | doctor 2 records history for doctor 1's appointment; deleting doctor 1 succeeds and leaves that entry pointing at a removed appointment, breaking referential integrity that held before |
| Deletion.DeleteDoctorCascadeKeepsStore | app.py:189-203 | the corrected delete keeps every store invariant, referential integrity included; no kept entry records one of the doctor's appointments; it differs from the as-written delete only in the history entries |
| Deletion.CascadeKeepsLinks | app.py:190-192 | after the corrected delete every remaining row points at existing rows |
| Handlers.Hospital.constructor | models.py:8-112 | an empty store satisfies the invariant |
| Handlers.Hospital.BookAppointment | app.py:651-710 | the in-place booking does what `Book` does and keeps the invariant |
| Handlers.Hospital.UpdateAppointmentStatus | app.py:372-400 | the in-place doctor update does what the guarded update does and keeps the invariant |
| Handlers.Hospital.PatientCancelAppointment | app.py:716-731 | the in-place cancel does what the guarded cancel does and keeps the invariant |
| Handlers.Hospital.ManageAvailability | app.py:502-544 | the in-place form handler does what `SetAvailability` does and keeps the invariant |
| Handlers.Hospital.AddHistory | app.py:418-449 | the in-place recording does what `History.AddHistory` does and keeps the invariant |
| Handlers.Hospital.AppendHistory | app.py:445-446 | one history row is inserted with the clock's stamp, the clock advances, and nothing else changes |
| Handlers.Hospital.DeleteDoctor | app.py:181-206 | the in-place delete does what the corrected cascade does and keeps the invariant |
| Handlers.Hospital.RemoveDoctorRows | app.py:189-200 | the doctor's dependent rows, doctor row and user row are removed and nothing else changes |
| Handlers.Hospital.DeletePatient | app.py:290-314 | the in-place delete does what `DeletePatient` does and keeps the invariant |
| Handlers.Hospital.RemovePatientRows | app.py:298-308 | the patient's dependent rows, patient row and user row are removed and nothing else changes |
| Handlers.Hospital.ViewPatientHistory | app.py:458-478 | an existing patient gets exactly their entries, strictly newest first; an unknown one gets NotFound and nothing |
| Handlers.Hospital.DoctorView | app.py:629-646 | an existing doctor's page maps each of the seven days with slots to all of that day's slots; an unknown doctor gets NotFound and no map |

## Left out

- Request parsing, password checks, sessions, flash messages, templates and redirects. Each handler's result is an `Outcome`.
- Lookup by user name and role. Users, doctors and patients are identified by key. A user row without its profile row is reported as `NotFound`. The source differs by handler:
  - the doctor's status update reports "Doctor profile not found" itself;
  - the booking, patient cancel and history handlers fail with an attribute error on the missing profile;
  - the availability form reads the doctor's key only for a day with both times, so a form with no complete day commits nothing and reports success, where `Availability.SetAvailability` returns `NotFound`.
- The viewer check of the history page (the requesting user's name and role must exist). `History.PatientHistory` only needs the patient.
- Date and time parsing and `date.today()`. Days and minutes are integers, and `today` is a parameter.
- Wall-clock timestamps. `created_at` of history entries is a monotone counter `clock`, so ties are not modelled. The `created_at` of users and appointments is left out.
- The history columns `doctor_name` and `department`, which the handler never fills. The `id` of history rows and slots is not modelled either.
- The display of existing availability on the form page, which is a read of the same slots.
- Transactions, concurrent requests and the check-then-act race between two bookings. Each handler is one atomic step.
- Database constraints other than the ones listed in `Store.Valid`. Foreign keys are not enforced by the store, as with SQLite's default.
- Key allocation. SQLite gives a new appointment the key max(id) + 1, so the key of a deleted top row is handed out again. The model's `nextId` only grows and never reuses a key. Reuse matters only together with the orphan history entries of the as-written doctor delete (see Findings).
- History.AddHistory: a second entry for the same appointment is reported as `DuplicateHistory` with the store unchanged. The source has no such check: the insert fails at commit on the unique `appointment_id`, an uncaught database error that the user sees as a server error.
- Ordering of the doctor page's slots. The source sorts them by date only; within a date the database order is unspecified and the model keeps store order.
- Dashboards, search, registration, profile editing, blacklisting, department pages, doctor creation and editing, and database seeding. These are outside the booking core.
- Handlers.Hospital.UpdateAppointmentStatus: implements the corrected, guarded handler rather than the as-written one. The as-written one is `StatusChange.DoctorUpdate`, described under Findings.
- Handlers.Hospital.PatientCancelAppointment: implements the corrected, guarded cancel rather than the as-written one. The as-written one is `StatusChange.PatientCancel`, which lets a patient cancel a completed appointment, described under Findings.
- Handlers.Hospital.DeleteDoctor: implements the corrected cascading delete rather than the as-written one. The as-written one is `Deletion.DeleteDoctor`, described under Findings.
- Deletion.DeleteDoctorKeepsStore: does not claim referential integrity for the as-written delete, because that delete breaks it (see Findings).

## Findings

| source | as written | input that shows it | evidently intended | confidence | as-written member | corrected member |
|---|---|---|---|---|---|---|
| app.py:390-393 | the doctor's status update sets `completed` or `cancelled` whatever the current status, so a cancelled appointment can be completed | a patient books doctor 1 on day 10 and cancels, then books doctor 2 on day 10; doctor 1, on a page loaded earlier, completes the cancelled appointment; the patient now holds two visits on day 10 | only a `booked` appointment may be completed or cancelled, which keeps one visit per patient per day | not executed | StatusChange.CompleteAfterCancelBreaksOneVisitPerDay | StatusChange.GuardedDoctorUpdateKeepsOneVisitPerDay |
| app.py:190-191 | the doctor delete removes history rows written by the doctor, not rows that record the doctor's appointments | doctor 2 records history for doctor 1's appointment 0; deleting doctor 1 removes appointment 0 but keeps the entry, which now points at a missing appointment; since SQLite reuses the key of a deleted top row, the next booking can receive the removed appointment's key and then shows the other patient's entry as its history, and recording history for it fails on the unique `appointment_id` | every history row that records a removed appointment is removed as well | not executed | Deletion.DeleteDoctorLeavesOrphanHistory | Deletion.DeleteDoctorCascadeKeepsStore |
| app.py:728 | the patient's cancel sets `cancelled` whatever the current status, so a completed appointment can be cancelled | a patient whose visit with doctor 1 is completed cancels it; the request succeeds and the visit is no longer completed | completed and cancelled are final; only a `booked` appointment may be cancelled | not executed | StatusChange.CancelAfterCompleteSucceeds | StatusChange.GuardedPatientCancelKeepsTerminal |
