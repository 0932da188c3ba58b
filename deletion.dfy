/**
 * Cascading deletes: removing a doctor or a patient first removes the rows
 * that depend on it, then the profile row and its user row.
 */
module Deletion {
  import opened Wrappers
  import opened Seqs
  import opened Records
  import opened Store
  import opened History

  // The row conditions of the deletes, as query filters.

  function HistoryNotBy(d: int): HistoryEntry -> bool { (h: HistoryEntry) => h.doctor != d }
  function HistoryNotOf(p: int): HistoryEntry -> bool { (h: HistoryEntry) => h.patient != p }
  function AppointmentNotWith(d: int): Appointment -> bool { (a: Appointment) => a.doctor != d }
  function AppointmentNotOf(p: int): Appointment -> bool { (a: Appointment) => a.patient != p }
  function SlotNotOf(d: int): Slot -> bool { (sl: Slot) => sl.doctor != d }
  function DoctorOtherThan(d: int): Doctor -> bool { (x: Doctor) => x.id != d }
  function PatientOtherThan(p: int): Patient -> bool { (x: Patient) => x.id != p }
  function UserOtherThan(id: int): User -> bool { (u: User) => u.id != id }

  /** The doctor-delete handler, as written. */
  function DeleteDoctor(s: State, d: int): (State, Outcome)
  {
    if !IsDoctor(s, d) then (s, NotFound)
    else
      (s.(histories := Filter(s.histories, HistoryNotBy(d)),
          appointments := Filter(s.appointments, AppointmentNotWith(d)),
          slots := Filter(s.slots, SlotNotOf(d)),
          doctors := Filter(s.doctors, DoctorOtherThan(d)),
          users := Filter(s.users, UserOtherThan(d))),
       Ok)
  }

  /** The patient-delete handler. */
  function DeletePatient(s: State, p: int): (State, Outcome)
  {
    if !IsPatient(s, p) then (s, NotFound)
    else
      (s.(histories := Filter(s.histories, HistoryNotOf(p)),
          appointments := Filter(s.appointments, AppointmentNotOf(p)),
          patients := Filter(s.patients, PatientOtherThan(p)),
          users := Filter(s.users, UserOtherThan(p))),
       Ok)
  }

  /**
   * Deleting an unknown doctor changes nothing. Deleting a known one
   * removes exactly its history entries, appointments, slots, doctor row and
   * user row, keeps every other row, and leaves the patients alone.
   */
  lemma DeleteDoctorEffect(s: State, d: int)
    ensures var (t, o) := DeleteDoctor(s, d);
      && (o == Ok <==> IsDoctor(s, d))
      && (o != Ok ==> t == s)
      && (o == Ok ==>
            && (forall h :: h in t.histories <==> h in s.histories && h.doctor != d)
            && (forall a :: a in t.appointments <==> a in s.appointments && a.doctor != d)
            && (forall sl :: sl in t.slots <==> sl in s.slots && sl.doctor != d)
            && (forall x :: x in t.doctors <==> x in s.doctors && x.id != d)
            && (forall u :: u in t.users <==> u in s.users && u.id != d)
            && !IsDoctor(t, d) && !HasUser(t.users, d)
            && t.patients == s.patients && t.nextId == s.nextId && t.clock == s.clock)
  {
  }

  /**
   * Deleting an unknown patient changes nothing. Deleting a known one
   * removes exactly its history entries, appointments, patient row and user
   * row, keeps every other row, and leaves slots and doctors alone.
   */
  lemma DeletePatientEffect(s: State, p: int)
    ensures var (t, o) := DeletePatient(s, p);
      && (o == Ok <==> IsPatient(s, p))
      && (o != Ok ==> t == s)
      && (o == Ok ==>
            && (forall h :: h in t.histories <==> h in s.histories && h.patient != p)
            && (forall a :: a in t.appointments <==> a in s.appointments && a.patient != p)
            && (forall x :: x in t.patients <==> x in s.patients && x.id != p)
            && (forall u :: u in t.users <==> u in s.users && u.id != p)
            && !IsPatient(t, p) && !HasUser(t.users, p)
            && t.slots == s.slots && t.doctors == s.doctors
            && t.nextId == s.nextId && t.clock == s.clock)
  {
  }

  /** Removing rows keeps every pairwise constraint of the appointments and slots. */
  lemma FilteredKeepsBookingInvariants(s: State, t: State, keepA: Appointment -> bool, keepS: Slot -> bool)
    requires t.appointments == Filter(s.appointments, keepA)
    requires t.slots == Filter(s.slots, keepS)
    requires NoDoubleBooking(s.appointments) && OneVisitPerDay(s.appointments) && OneSlotPerDay(s.slots)
    ensures NoDoubleBooking(t.appointments) && OneVisitPerDay(t.appointments) && OneSlotPerDay(t.slots)
  {
    FilterKeepsPairwise(s.appointments, keepA, NoClash);
    FilterKeepsPairwise(s.appointments, keepA, NotSameDay);
    FilterKeepsPairwise(s.slots, keepS, DistinctDays);
  }

  /** Removing rows keeps every key and ordering constraint of the schema. */
  lemma FilteredKeepsKeys(s: State, t: State, keepA: Appointment -> bool, keepH: HistoryEntry -> bool,
                          keepU: User -> bool, keepD: Doctor -> bool, keepP: Patient -> bool)
    requires Valid(s)
    requires t.appointments == Filter(s.appointments, keepA) && t.histories == Filter(s.histories, keepH)
    requires t.users == Filter(s.users, keepU) && t.doctors == Filter(s.doctors, keepD)
    requires t.patients == Filter(s.patients, keepP)
    requires t.nextId == s.nextId && t.clock == s.clock
    ensures Pairwise(t.appointments, DistinctIds) && (forall a :: a in t.appointments ==> a.id < t.nextId)
    ensures Pairwise(t.histories, DistinctVisits) && Pairwise(t.histories, CreatedInOrder)
    ensures forall h :: h in t.histories ==> h.created < t.clock
    ensures Pairwise(t.users, DistinctUserIds) && Pairwise(t.users, DistinctEmails)
    ensures Pairwise(t.doctors, DistinctDoctorIds) && Pairwise(t.patients, DistinctPatientIds)
    ensures forall d, p :: d in t.doctors && p in t.patients ==> d.id != p.id
  {
    FilterKeepsPairwise(s.appointments, keepA, DistinctIds);
    FilterKeepsPairwise(s.histories, keepH, DistinctVisits);
    FilterKeepsPairwise(s.histories, keepH, CreatedInOrder);
    FilterKeepsPairwise(s.users, keepU, DistinctUserIds);
    FilterKeepsPairwise(s.users, keepU, DistinctEmails);
    FilterKeepsPairwise(s.doctors, keepD, DistinctDoctorIds);
    FilterKeepsPairwise(s.patients, keepP, DistinctPatientIds);
  }

  /**
   * Deleting a patient keeps the schema constraints, referential integrity
   * (no row is left pointing at the removed patient) and the booking
   * invariants.
   */
  lemma DeletePatientKeepsStore(s: State, p: int)
    requires Good(s)
    ensures Good(DeletePatient(s, p).0)
  {
    if IsPatient(s, p) {
      var t := DeletePatient(s, p).0;
      assert t.appointments == Filter(s.appointments, AppointmentNotOf(p));
      assert t.slots == Filter(s.slots, (sl: Slot) => true) by {
        FilterAll(s.slots);
      }
      assert t.doctors == Filter(s.doctors, (x: Doctor) => true) by {
        FilterAll(s.doctors);
      }
      FilteredKeepsBookingInvariants(s, t, AppointmentNotOf(p), (sl: Slot) => true);
      FilteredKeepsKeys(s, t, AppointmentNotOf(p), HistoryNotOf(p), UserOtherThan(p),
                        (x: Doctor) => true, PatientOtherThan(p));
      DeletePatientKeepsProfiles(s, p);
      DeletePatientKeepsLinks(s, p);
    }
  }

  lemma DeletePatientKeepsProfiles(s: State, p: int)
    requires Valid(s) && IsPatient(s, p)
    ensures var t := DeletePatient(s, p).0;
      && (forall x :: x in t.doctors ==> HasUser(t.users, x.id))
      && (forall x :: x in t.patients ==> HasUser(t.users, x.id))
  {
    var t := DeletePatient(s, p).0;
    var q :| q in s.patients && q.id == p;
    forall x | x in t.doctors ensures HasUser(t.users, x.id) {
      var u :| u in s.users && u.id == x.id;
      assert u in t.users;
    }
    forall x | x in t.patients ensures HasUser(t.users, x.id) {
      var u :| u in s.users && u.id == x.id;
      assert u in t.users;
    }
  }

  lemma DeletePatientKeepsLinks(s: State, p: int)
    requires Linked(s) && IsPatient(s, p)
    ensures Linked(DeletePatient(s, p).0)
  {
    var t := DeletePatient(s, p).0;
    forall a | a in t.appointments ensures IsPatient(t, a.patient) && IsDoctor(t, a.doctor) {
      var x :| x in s.patients && x.id == a.patient;
      assert x in t.patients;
    }
    forall h | h in t.histories
      ensures IsPatient(t, h.patient) && IsDoctor(t, h.doctor) && RecordsVisit(t.appointments, h)
    {
      var x :| x in s.patients && x.id == h.patient;
      assert x in t.patients;
      var a :| a in s.appointments && a.id == h.appointment && a.patient == h.patient;
      assert a in t.appointments;
    }
  }

  /** Filtering with a condition that always holds keeps everything. */
  lemma {:induction false} FilterAll<T(!new)>(s: seq<T>)
    ensures Filter(s, (x: T) => true) == s
    decreases |s|
  {
    if s != [] {
      FilterAll(s[..|s| - 1]);
      assert s == s[..|s| - 1] + [s[|s| - 1]];
    }
  }

  /**
   * Deleting a doctor keeps the schema constraints and the booking
   * invariants. Which rows go is stated by `DeleteDoctorEffect`.
   */
  lemma DeleteDoctorKeepsStore(s: State, d: int)
    requires Valid(s)
    requires NoDoubleBooking(s.appointments) && OneVisitPerDay(s.appointments) && OneSlotPerDay(s.slots)
    ensures Valid(DeleteDoctor(s, d).0)
    ensures NoDoubleBooking(DeleteDoctor(s, d).0.appointments)
    ensures OneVisitPerDay(DeleteDoctor(s, d).0.appointments)
    ensures OneSlotPerDay(DeleteDoctor(s, d).0.slots)
  {
    if IsDoctor(s, d) {
      var t := DeleteDoctor(s, d).0;
      assert t.patients == Filter(s.patients, (x: Patient) => true) by {
        FilterAll(s.patients);
      }
      FilteredKeepsBookingInvariants(s, t, AppointmentNotWith(d), SlotNotOf(d));
      FilteredKeepsKeys(s, t, AppointmentNotWith(d), HistoryNotBy(d), UserOtherThan(d),
                        DoctorOtherThan(d), (x: Patient) => true);
      DeleteDoctorKeepsProfiles(s, d, t);
    }
  }

  /** Removing a doctor's profile and user row leaves every other profile with its user row. */
  lemma DeleteDoctorKeepsProfiles(s: State, d: int, t: State)
    requires Valid(s) && IsDoctor(s, d)
    requires t.users == Filter(s.users, UserOtherThan(d))
    requires t.doctors == Filter(s.doctors, DoctorOtherThan(d))
    requires t.patients == s.patients
    ensures forall x :: x in t.doctors ==> HasUser(t.users, x.id)
    ensures forall x :: x in t.patients ==> HasUser(t.users, x.id)
  {
    var y :| y in s.doctors && y.id == d;
    forall x | x in t.doctors ensures HasUser(t.users, x.id) {
      var u :| u in s.users && u.id == x.id;
      assert u in t.users;
    }
    forall x | x in t.patients ensures HasUser(t.users, x.id) {
      var u :| u in s.users && u.id == x.id;
      assert u in t.users;
    }
  }

  // ---------------------------------------------------------------------
  // The doctor delete removes history entries by the doctor who wrote
  // them, not by the appointment they record. The history handler lets any
  // doctor write the entry of any appointment, so an entry written by
  // another doctor for one of the removed doctor's appointments survives,
  // pointing at an appointment that no longer exists.

  /**
   * Doctor 2 records history for doctor 1's appointment; deleting doctor 1
   * removes the appointment but keeps the entry, breaking referential
   * integrity that held before.
   */
  lemma DeleteDoctorLeavesOrphanHistory()
    ensures var notes := Notes("first", "none", "flu", "rest", "none");
      var s0 := State(
        [User(1, "d1", "d1@h", "doctor"), User(2, "d2", "d2@h", "doctor"), User(3, "p", "p@h", "patient")],
        [Doctor(1, 1, 5), Doctor(2, 1, 5)],
        [Patient(3, "p")],
        [Appointment(0, 3, 1, 10, 540, Completed)],
        [], [], 1, 0);
      && AddHistory(s0, 2, 0, notes).1 == Ok
      && Linked(AddHistory(s0, 2, 0, notes).0)
      && DeleteDoctor(AddHistory(s0, 2, 0, notes).0, 1).1 == Ok
      && !Linked(DeleteDoctor(AddHistory(s0, 2, 0, notes).0, 1).0)
  {
    var notes := Notes("first", "none", "flu", "rest", "none");
    var users := [User(1, "d1", "d1@h", "doctor"), User(2, "d2", "d2@h", "doctor"), User(3, "p", "p@h", "patient")];
    var doctors := [Doctor(1, 1, 5), Doctor(2, 1, 5)];
    var patients := [Patient(3, "p")];
    var visit := Appointment(0, 3, 1, 10, 540, Completed);
    var s0 := State(users, doctors, patients, [visit], [], [], 1, 0);
    assert doctors[0] in doctors && doctors[1] in doctors && patients[0] in patients;
    var e := HistoryEntry(3, 0, 2, notes, 0);
    var s1 := s0.(histories := [e], clock := 1);
    assert !HasEntryFor(s0.histories, 0);
    assert FindAppointment(s0.appointments, 0) == Some(0);
    assert IsDoctor(s0, 2);
    assert s0.appointments[0].patient == 3;
    assert s0.histories + [e] == [e];
    assert AddHistory(s0, 2, 0, notes) == (s1, Ok);
    assert RecordsVisit(s1.appointments, e) by {
      assert visit in s1.appointments;
    }
    assert Linked(s1);
    var t := DeleteDoctor(s1, 1).0;
    assert DeleteDoctor(s1, 1).1 == Ok;
    assert t.appointments == [] by {
      assert Filter([visit], AppointmentNotWith(1)) == [];
    }
    assert t.histories == [e] by {
      assert HistoryNotBy(1)(e);
      FilterSnoc([], e, HistoryNotBy(1));
      assert [e] == [] + [e];
    }
    assert !RecordsVisit(t.appointments, e);
  }

  /** Some appointment with key `id` belongs to doctor `d`. */
  predicate VisitWith(appts: seq<Appointment>, d: int, id: int)
  {
    exists a :: a in appts && a.id == id && a.doctor == d
  }

  /** The entries to keep: neither written by `d` nor recording one of `d`'s appointments. */
  function HistoryUnrelatedTo(appts: seq<Appointment>, d: int): HistoryEntry -> bool
  {
    (h: HistoryEntry) => h.doctor != d && !VisitWith(appts, d, h.appointment)
  }

  /** The doctor delete with the missing cascade: it also removes every entry recording one of the doctor's appointments. */
  function DeleteDoctorCascade(s: State, d: int): (State, Outcome)
  {
    if !IsDoctor(s, d) then (s, NotFound)
    else
      (s.(histories := Filter(s.histories, HistoryUnrelatedTo(s.appointments, d)),
          appointments := Filter(s.appointments, AppointmentNotWith(d)),
          slots := Filter(s.slots, SlotNotOf(d)),
          doctors := Filter(s.doctors, DoctorOtherThan(d)),
          users := Filter(s.users, UserOtherThan(d))),
       Ok)
  }

  /**
   * With the cascade, deleting a doctor keeps referential integrity as well
   * as the schema constraints and booking invariants; it differs from the
   * as-written delete only in the history entries it removes, and none of
   * the entries it keeps records one of the doctor's appointments.
   */
  lemma DeleteDoctorCascadeKeepsStore(s: State, d: int)
    requires Good(s)
    ensures Good(DeleteDoctorCascade(s, d).0)
    ensures forall h :: h in DeleteDoctorCascade(s, d).0.histories ==>
              h.doctor != d && !VisitWith(s.appointments, d, h.appointment)
    ensures IsDoctor(s, d) ==> forall h :: h in DeleteDoctorCascade(s, d).0.histories <==>
              h in s.histories && h.doctor != d && !VisitWith(s.appointments, d, h.appointment)
    ensures DeleteDoctorCascade(s, d).0.(histories := DeleteDoctor(s, d).0.histories) == DeleteDoctor(s, d).0
  {
    if IsDoctor(s, d) {
      var t := DeleteDoctorCascade(s, d).0;
      assert t.patients == Filter(s.patients, (x: Patient) => true) by {
        FilterAll(s.patients);
      }
      FilteredKeepsBookingInvariants(s, t, AppointmentNotWith(d), SlotNotOf(d));
      FilteredKeepsKeys(s, t, AppointmentNotWith(d), HistoryUnrelatedTo(s.appointments, d), UserOtherThan(d),
                        DoctorOtherThan(d), (x: Patient) => true);
      DeleteDoctorKeepsProfiles(s, d, t);
      CascadeKeepsLinks(s, d);
    }
  }

  lemma CascadeKeepsLinks(s: State, d: int)
    requires Linked(s) && IsDoctor(s, d)
    ensures Linked(DeleteDoctorCascade(s, d).0)
  {
    var t := DeleteDoctorCascade(s, d).0;
    forall a | a in t.appointments ensures IsPatient(t, a.patient) && IsDoctor(t, a.doctor) {
      var x :| x in s.doctors && x.id == a.doctor;
      assert x in t.doctors;
    }
    forall sl | sl in t.slots ensures IsDoctor(t, sl.doctor) {
      var x :| x in s.doctors && x.id == sl.doctor;
      assert x in t.doctors;
    }
    forall h | h in t.histories
      ensures IsPatient(t, h.patient) && IsDoctor(t, h.doctor) && RecordsVisit(t.appointments, h)
    {
      var x :| x in s.doctors && x.id == h.doctor;
      assert x in t.doctors;
      var a :| a in s.appointments && a.id == h.appointment && a.patient == h.patient;
      assert a.doctor != d;
      assert a in t.appointments;
    }
  }
}
