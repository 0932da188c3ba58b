/**
 * The hospital store as the application holds it: one object whose table
 * fields the request handlers update in place. Each handler is proved
 * against its transition function and keeps the store invariant.
 */
module Handlers {
  import opened Wrappers
  import opened Seqs
  import opened Records
  import opened Store
  import opened Booking
  import opened StatusChange
  import opened Availability
  import opened History
  import opened Deletion

  class Hospital {
    var users: seq<User>
    var doctors: seq<Doctor>
    var patients: seq<Patient>
    var appointments: seq<Appointment>
    var slots: seq<Slot>
    var histories: seq<HistoryEntry>
    var nextId: int
    var clock: nat

    /** The tables as one value. */
    function Snapshot(): State
      reads this
    {
      State(users, doctors, patients, appointments, slots, histories, nextId, clock)
    }

    /**
     * The schema constraints, referential integrity, no double booking,
     * one visit per patient per day and one slot per doctor per day.
     */
    ghost predicate Invariant()
      reads this
    {
      Good(Snapshot())
    }

    /** An empty store. */
    constructor ()
      ensures Snapshot() == State([], [], [], [], [], [], 0, 0)
      ensures Invariant()
    {
      users, doctors, patients := [], [], [];
      appointments, slots, histories := [], [], [];
      nextId, clock := 0, 0;
    }

    /** Book the open slot (doctor, date, time) for a patient. */
    method BookAppointment(patient: int, doctor: int, date: int, time: int) returns (o: Outcome)
      requires Invariant()
      modifies this
      ensures (Snapshot(), o) == Book(old(Snapshot()), patient, doctor, date, time)
      ensures Invariant()
    {
      ghost var s0 := Snapshot();
      BookKeepsStore(s0, patient, doctor, date, time);
      if !IsPatient(Snapshot(), patient) || !IsDoctor(Snapshot(), doctor) {
        return NotFound;
      }
      var slot := FindOpenSlot(slots, doctor, date, time);
      var taken := BookedAt(appointments, doctor, date, time);
      var sameDay := HasVisitOn(appointments, patient, date);
      if sameDay {
        return SameDayConflict;
      }
      if slot.None? || taken {
        return SlotUnavailable;
      }
      var i := slot.value;
      appointments := appointments + [Appointment(nextId, patient, doctor, slots[i].date, slots[i].start, Booked)];
      nextId := nextId + 1;
      slots := slots[i := slots[i].(available := false)];
      o := Ok;
    }

    /** A doctor completes or cancels one of their booked appointments. */
    method UpdateAppointmentStatus(doctor: int, id: int, action: string) returns (o: Outcome)
      requires Invariant()
      modifies this
      ensures (Snapshot(), o) == GuardedDoctorUpdate(old(Snapshot()), doctor, id, action)
      ensures Invariant()
    {
      ghost var s0 := Snapshot();
      StatusChangesKeepGood(s0, doctor, 0, id, action);
      if !IsDoctor(Snapshot(), doctor) {
        return NotFound;
      }
      var found := FindAppointment(appointments, id);
      if found.None? {
        return NotFound;
      }
      var i := found.value;
      if appointments[i].doctor != doctor {
        return NotAuthorized;
      }
      if appointments[i].status != Booked {
        return InvalidState;
      }
      var target := ActionTarget(action);
      if target.None? {
        return UnknownAction;
      }
      appointments := SetStatus(appointments, i, target.value);
      o := Ok;
    }

    /** A patient cancels one of their booked appointments. */
    method PatientCancelAppointment(patient: int, id: int) returns (o: Outcome)
      requires Invariant()
      modifies this
      ensures (Snapshot(), o) == GuardedPatientCancel(old(Snapshot()), patient, id)
      ensures Invariant()
    {
      ghost var s0 := Snapshot();
      StatusChangesKeepGood(s0, 0, patient, id, "");
      if !IsPatient(Snapshot(), patient) {
        return NotFound;
      }
      var found := FindAppointment(appointments, id);
      if found.None? {
        return NotFound;
      }
      var i := found.value;
      if appointments[i].patient != patient {
        return NotAuthorized;
      }
      if appointments[i].status != Booked {
        return InvalidState;
      }
      appointments := SetStatus(appointments, i, Cancelled);
      o := Ok;
    }

    /**
     * A doctor submits the seven-day availability form: each day with both
     * a start and an end time creates or overwrites that day's slot.
     */
    method ManageAvailability(doctor: int, today: int, starts: map<int, int>, ends: map<int, int>, avail: set<int>)
      returns (o: Outcome)
      requires Invariant()
      modifies this
      ensures (Snapshot(), o) == SetAvailability(old(Snapshot()), doctor, today, starts, ends, avail)
      ensures Invariant()
    {
      SetAvailabilityKeepsStore(Snapshot(), doctor, today, starts, ends, avail);
      if !IsDoctor(Snapshot(), doctor) {
        return NotFound;
      }
      slots := FillWindow(slots, doctor, today, starts, ends, avail);
      o := Ok;
    }

    /** A doctor records the clinical history of an appointment. */
    method AddHistory(doctor: int, id: int, notes: Notes) returns (o: Outcome)
      requires Invariant()
      modifies this
      ensures (Snapshot(), o) == History.AddHistory(old(Snapshot()), doctor, id, notes)
      ensures Invariant()
    {
      ghost var s0 := Snapshot();
      AddHistoryKeepsStore(s0, doctor, id, notes);
      var found := FindAppointment(appointments, id);
      if found.None? || !IsDoctor(Snapshot(), doctor) {
        return NotFound;
      }
      if HasEntryFor(histories, id) {
        return DuplicateHistory;
      }
      AppendHistory(HistoryEntry(appointments[found.value].patient, id, doctor, notes, clock));
      o := Ok;
      assert Snapshot() == History.AddHistory(s0, doctor, id, notes).0;
    }

    /** Insert one history row, stamped by the clock, and advance the clock. */
    method AppendHistory(e: HistoryEntry)
      modifies this
      ensures Snapshot() == old(Snapshot()).(histories := old(histories) + [e], clock := old(clock) + 1)
    {
      histories := histories + [e];
      clock := clock + 1;
    }

    /** Remove a doctor with its history entries, appointments, slots and user row. */
    method DeleteDoctor(d: int) returns (o: Outcome)
      requires Invariant()
      modifies this
      ensures (Snapshot(), o) == DeleteDoctorCascade(old(Snapshot()), d)
      ensures Invariant()
    {
      DeleteDoctorCascadeKeepsStore(Snapshot(), d);
      if !IsDoctor(Snapshot(), d) {
        return NotFound;
      }
      RemoveDoctorRows(d);
      o := Ok;
    }

    /** The deletes the doctor handler issues, history entries first. */
    method RemoveDoctorRows(d: int)
      modifies this
      ensures Snapshot() == old(Snapshot()).(
        histories := Filter(old(histories), HistoryUnrelatedTo(old(appointments), d)),
        appointments := Filter(old(appointments), AppointmentNotWith(d)),
        slots := Filter(old(slots), SlotNotOf(d)),
        doctors := Filter(old(doctors), DoctorOtherThan(d)),
        users := Filter(old(users), UserOtherThan(d)))
    {
      histories := Filter(histories, HistoryUnrelatedTo(appointments, d));
      appointments := Filter(appointments, AppointmentNotWith(d));
      slots := Filter(slots, SlotNotOf(d));
      doctors := Filter(doctors, DoctorOtherThan(d));
      users := Filter(users, UserOtherThan(d));
    }

    /** Remove a patient with its history entries, appointments and user row. */
    method DeletePatient(p: int) returns (o: Outcome)
      requires Invariant()
      modifies this
      ensures (Snapshot(), o) == Deletion.DeletePatient(old(Snapshot()), p)
      ensures Invariant()
    {
      DeletePatientKeepsStore(Snapshot(), p);
      if !IsPatient(Snapshot(), p) {
        return NotFound;
      }
      RemovePatientRows(p);
      o := Ok;
    }

    /** The deletes the patient handler issues, history entries first. */
    method RemovePatientRows(p: int)
      modifies this
      ensures Snapshot() == old(Snapshot()).(
        histories := Filter(old(histories), HistoryNotOf(p)),
        appointments := Filter(old(appointments), AppointmentNotOf(p)),
        patients := Filter(old(patients), PatientOtherThan(p)),
        users := Filter(old(users), UserOtherThan(p)))
    {
      histories := Filter(histories, HistoryNotOf(p));
      appointments := Filter(appointments, AppointmentNotOf(p));
      patients := Filter(patients, PatientOtherThan(p));
      users := Filter(users, UserOtherThan(p));
    }

    /** A patient's history page: the entries of an existing patient, newest first. */
    method ViewPatientHistory(patient: int) returns (o: Outcome, entries: seq<HistoryEntry>)
      requires Invariant()
      ensures o == Ok <==> IsPatient(Snapshot(), patient)
      ensures forall h :: h in entries <==> o == Ok && h in histories && h.patient == patient
      ensures Pairwise(entries, NewerThan)
    {
      if !IsPatient(Snapshot(), patient) {
        return NotFound, [];
      }
      PatientHistoryNewestFirst(histories, patient);
      o, entries := Ok, PatientHistory(histories, patient);
    }

    /** The doctor page: an existing doctor's slots of the next seven days, by date. */
    method DoctorView(doctor: int, today: int) returns (o: Outcome, byDate: map<int, seq<Slot>>)
      ensures o == Ok <==> IsDoctor(Snapshot(), doctor)
      ensures o == Ok ==> forall d :: d in byDate <==> today <= d < today + WindowDays && SlotsOn(slots, doctor, d) != []
      ensures o != Ok ==> byDate == map[]
      ensures forall d :: d in byDate ==> byDate[d] == SlotsOn(slots, doctor, d)
    {
      if !IsDoctor(Snapshot(), doctor) {
        return NotFound, map[];
      }
      byDate := SlotsByDate(slots, doctor, today);
      o := Ok;
    }
  }
}
