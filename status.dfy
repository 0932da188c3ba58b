/**
 * Status changes: the doctor marks an appointment completed or cancelled,
 * the patient cancels one. As written, both check ownership only; neither
 * looks at the status the appointment had, and neither reopens its slot.
 * The guarded handlers below refuse to change a completed or cancelled
 * appointment.
 */
module StatusChange {
  import opened Wrappers
  import opened Seqs
  import opened Records
  import opened Store
  import opened Booking

  /** The status a doctor's action string asks for, if it is a known action. */
  function ActionTarget(action: string): (r: Option<Status>)
    ensures r.Some? <==> action == "complete" || action == "cancel" || action == "cancelled"
    ensures r == Some(Completed) <==> action == "complete"
    ensures r == Some(Cancelled) <==> action == "cancel" || action == "cancelled"
  {
    if action == "complete" then Some(Completed)
    else if action == "cancel" || action == "cancelled" then Some(Cancelled)
    else None
  }

  /** The doctor-side status handler, as written. */
  function DoctorUpdate(s: State, doctor: int, id: int, action: string): (State, Outcome)
  {
    if !IsDoctor(s, doctor) then (s, NotFound)
    else match FindAppointment(s.appointments, id)
      case None => (s, NotFound)
      case Some(i) =>
        if s.appointments[i].doctor != doctor then (s, NotAuthorized)
        else match ActionTarget(action)
          case None => (s, UnknownAction)
          case Some(st) => (s.(appointments := SetStatus(s.appointments, i, st)), Ok)
  }

  /** The patient-side cancel handler. */
  function PatientCancel(s: State, patient: int, id: int): (State, Outcome)
  {
    if !IsPatient(s, patient) then (s, NotFound)
    else match FindAppointment(s.appointments, id)
      case None => (s, NotFound)
      case Some(i) =>
        if s.appointments[i].patient != patient then (s, NotAuthorized)
        else (s.(appointments := SetStatus(s.appointments, i, Cancelled)), Ok)
  }

  /**
   * A doctor's update succeeds exactly for the owner of an existing
   * appointment with a known action, and then changes that appointment's
   * status and nothing else (no slot is reopened); every other request
   * leaves the store unchanged.
   */
  lemma DoctorUpdateEffect(s: State, doctor: int, id: int, action: string)
    ensures var (t, o) := DoctorUpdate(s, doctor, id, action);
      && (o == NotAuthorized <==>
            IsDoctor(s, doctor) && (exists a :: a in s.appointments && a.id == id) &&
            s.appointments[FindAppointment(s.appointments, id).value].doctor != doctor)
      && (o == Ok <==>
            IsDoctor(s, doctor) && FindAppointment(s.appointments, id).Some? &&
            s.appointments[FindAppointment(s.appointments, id).value].doctor == doctor &&
            ActionTarget(action).Some?)
      && (o == NotFound <==> !IsDoctor(s, doctor) || FindAppointment(s.appointments, id).None?)
      && (o == UnknownAction <==>
            IsDoctor(s, doctor) && FindAppointment(s.appointments, id).Some? &&
            s.appointments[FindAppointment(s.appointments, id).value].doctor == doctor &&
            ActionTarget(action).None?)
      && (o != Ok ==> t == s)
      && (o == Ok ==>
            var i := FindAppointment(s.appointments, id).value;
            && t.appointments == s.appointments[i := s.appointments[i].(status := ActionTarget(action).value)]
            && t.slots == s.slots && t.histories == s.histories
            && t.users == s.users && t.doctors == s.doctors && t.patients == s.patients
            && t.nextId == s.nextId && t.clock == s.clock)
  {
    var f := FindAppointment(s.appointments, id);
    if f.None? {
      assert !exists a :: a in s.appointments && a.id == id;
    }
  }

  /**
   * A patient's cancel succeeds exactly for the owner of an existing
   * appointment, then sets only that appointment to `cancelled`; anything
   * else leaves the store unchanged.
   */
  lemma PatientCancelEffect(s: State, patient: int, id: int)
    ensures var (t, o) := PatientCancel(s, patient, id);
      && (o == Ok || o == NotFound || o == NotAuthorized)
      && (o == NotFound <==> !IsPatient(s, patient) || FindAppointment(s.appointments, id).None?)
      && (o == NotAuthorized <==>
            IsPatient(s, patient) && FindAppointment(s.appointments, id).Some? &&
            s.appointments[FindAppointment(s.appointments, id).value].patient != patient)
      && (o == Ok <==>
            IsPatient(s, patient) && FindAppointment(s.appointments, id).Some? &&
            s.appointments[FindAppointment(s.appointments, id).value].patient == patient)
      && (o != Ok ==> t == s)
      && (o == Ok ==>
            var i := FindAppointment(s.appointments, id).value;
            t == s.(appointments := s.appointments[i := s.appointments[i].(status := Cancelled)]))
  {
  }

  /**
   * Neither handler reads the prior status: two stores that differ only in
   * the status of the target appointment get the same outcome and, on
   * success, the same resulting store.
   */
  lemma UpdatesIgnorePriorStatus(s: State, i: nat, st: Status, doctor: int, patient: int, id: int, action: string)
    requires FindAppointment(s.appointments, id) == Some(i)
    ensures var s' := s.(appointments := SetStatus(s.appointments, i, st));
      && DoctorUpdate(s', doctor, id, action).1 == DoctorUpdate(s, doctor, id, action).1
      && (DoctorUpdate(s, doctor, id, action).1 == Ok ==>
            DoctorUpdate(s', doctor, id, action).0 == DoctorUpdate(s, doctor, id, action).0)
      && PatientCancel(s', patient, id).1 == PatientCancel(s, patient, id).1
      && (PatientCancel(s, patient, id).1 == Ok ==>
            PatientCancel(s', patient, id).0 == PatientCancel(s, patient, id).0)
  {
    var s' := s.(appointments := SetStatus(s.appointments, i, st));
    FindIgnoresStatus(s.appointments, i, st, id);
    assert IsDoctor(s', doctor) == IsDoctor(s, doctor);
    assert IsPatient(s', patient) == IsPatient(s, patient);
    match ActionTarget(action)
    case None =>
    case Some(target) =>
      assert SetStatus(s'.appointments, i, target) == SetStatus(s.appointments, i, target);
    assert SetStatus(s'.appointments, i, Cancelled) == SetStatus(s.appointments, i, Cancelled);
  }

  /** Status changes never create a double booking: they only ever move away from `booked`. */
  lemma UpdatesKeepNoDoubleBooking(s: State, doctor: int, patient: int, id: int, action: string)
    requires NoDoubleBooking(s.appointments)
    ensures NoDoubleBooking(DoctorUpdate(s, doctor, id, action).0.appointments)
    ensures NoDoubleBooking(PatientCancel(s, patient, id).0.appointments)
  {
    var f := FindAppointment(s.appointments, id);
    if f.Some? {
      DemoteKeepsNoDoubleBooking(s.appointments, f.value, Cancelled);
      DemoteKeepsNoDoubleBooking(s.appointments, f.value, Completed);
    }
  }

  /** A patient's cancel never gives the patient a second visit on a day. */
  lemma PatientCancelKeepsOneVisitPerDay(s: State, patient: int, id: int)
    requires OneVisitPerDay(s.appointments)
    ensures OneVisitPerDay(PatientCancel(s, patient, id).0.appointments)
  {
    var f := FindAppointment(s.appointments, id);
    if f.Some? {
      CancelKeepsOneVisitPerDay(s.appointments, f.value);
    }
  }

  /** Status changes keep the schema constraints, referential integrity and the slots. */
  lemma UpdatesKeepStore(s: State, doctor: int, patient: int, id: int, action: string)
    requires Valid(s) && Linked(s)
    ensures var t := DoctorUpdate(s, doctor, id, action).0; Valid(t) && Linked(t) && t.slots == s.slots
    ensures var t := PatientCancel(s, patient, id).0; Valid(t) && Linked(t) && t.slots == s.slots
  {
    DoctorUpdateKeepsStore(s, doctor, id, action);
    PatientCancelKeepsStore(s, patient, id);
  }

  lemma DoctorUpdateKeepsStore(s: State, doctor: int, id: int, action: string)
    requires Valid(s) && Linked(s)
    ensures var t := DoctorUpdate(s, doctor, id, action).0; Valid(t) && Linked(t) && t.slots == s.slots
  {
    if DoctorUpdate(s, doctor, id, action).1 == Ok {
      var i := FindAppointment(s.appointments, id).value;
      var st := ActionTarget(action).value;
      assert DoctorUpdate(s, doctor, id, action).0 == s.(appointments := SetStatus(s.appointments, i, st));
      StatusChangeKeepsStore(s, i, st);
    } else {
      assert DoctorUpdate(s, doctor, id, action).0 == s;
    }
  }

  lemma PatientCancelKeepsStore(s: State, patient: int, id: int)
    requires Valid(s) && Linked(s)
    ensures var t := PatientCancel(s, patient, id).0; Valid(t) && Linked(t) && t.slots == s.slots
  {
    if PatientCancel(s, patient, id).1 == Ok {
      var i := FindAppointment(s.appointments, id).value;
      assert PatientCancel(s, patient, id).0 == s.(appointments := SetStatus(s.appointments, i, Cancelled));
      StatusChangeKeepsStore(s, i, Cancelled);
    } else {
      assert PatientCancel(s, patient, id).0 == s;
    }
  }

  /**
   * The guarded doctor update and the patient cancel keep everything the
   * store is meant to keep, one visit per patient per day included.
   */
  lemma StatusChangesKeepGood(s: State, doctor: int, patient: int, id: int, action: string)
    requires Good(s)
    ensures Good(GuardedDoctorUpdate(s, doctor, id, action).0)
    ensures Good(PatientCancel(s, patient, id).0)
    ensures Good(GuardedPatientCancel(s, patient, id).0)
  {
    GuardedPatientCancelKeepsTerminal(s, patient, id);
    GuardedDoctorUpdateKeepsOneVisitPerDay(s, doctor, id, action);
    PatientCancelKeepsOneVisitPerDay(s, patient, id);
    UpdatesKeepNoDoubleBooking(s, doctor, patient, id, action);
    UpdatesKeepStore(s, doctor, patient, id, action);
  }

  lemma StatusChangeKeepsStore(s: State, i: nat, st: Status)
    requires i < |s.appointments|
    requires Valid(s) && Linked(s)
    ensures var t := s.(appointments := SetStatus(s.appointments, i, st)); Valid(t) && Linked(t)
  {
    StatusChangeKeepsValid(s, i, st);
    StatusChangeKeepsLinked(s, i, st);
  }

  lemma StatusChangeKeepsValid(s: State, i: nat, st: Status)
    requires i < |s.appointments|
    requires Valid(s)
    ensures Valid(s.(appointments := SetStatus(s.appointments, i, st)))
  {
    var t := s.(appointments := SetStatus(s.appointments, i, st));
    forall p, q | 0 <= p < q < |t.appointments| ensures DistinctIds(t.appointments[p], t.appointments[q]) {
      assert DistinctIds(s.appointments[p], s.appointments[q]);
    }
    forall a | a in t.appointments ensures a.id < t.nextId {
      var k :| 0 <= k < |t.appointments| && t.appointments[k] == a;
      assert s.appointments[k] in s.appointments;
    }
  }

  lemma StatusChangeKeepsLinked(s: State, i: nat, st: Status)
    requires i < |s.appointments|
    requires Linked(s)
    ensures Linked(s.(appointments := SetStatus(s.appointments, i, st)))
  {
    var t := s.(appointments := SetStatus(s.appointments, i, st));
    forall a | a in t.appointments ensures IsPatient(t, a.patient) && IsDoctor(t, a.doctor) {
      var k :| 0 <= k < |t.appointments| && t.appointments[k] == a;
      assert s.appointments[k] in s.appointments;
    }
    forall h | h in t.histories ensures RecordsVisit(t.appointments, h) {
      var b :| b in s.appointments && b.id == h.appointment && b.patient == h.patient;
      var k :| 0 <= k < |s.appointments| && s.appointments[k] == b;
      assert t.appointments[k] in t.appointments;
    }
  }

  // ---------------------------------------------------------------------
  // The doctor's handler does not look at the prior status, so a doctor
  // working from a page loaded before the patient cancelled can mark the
  // cancelled appointment `completed` after the patient has rebooked that
  // day elsewhere: the patient then holds two visits on one date.

  /** Two doctors with one open slot each on day 10, one patient, no appointments. */
  const Clinic := State(
    [User(1, "d1", "d1@h", "doctor"), User(2, "d2", "d2@h", "doctor"), User(3, "p", "p@h", "patient")],
    [Doctor(1, 1, 5), Doctor(2, 1, 5)],
    [Patient(3, "p")],
    [],
    [Slot(1, 10, 540, 570, true), Slot(2, 10, 600, 630, true)],
    [], 0, 0)

  /** The patient's visit with doctor 1. */
  const FirstVisit := Appointment(0, 3, 1, 10, 540, Booked)
  /** The patient's visit with doctor 2, the same day. */
  const SecondVisit := Appointment(1, 3, 2, 10, 600, Booked)

  const Booked1 := Clinic.(appointments := [FirstVisit],
                           slots := [Slot(1, 10, 540, 570, false), Slot(2, 10, 600, 630, true)], nextId := 1)
  const Cancelled1 := Booked1.(appointments := [FirstVisit.(status := Cancelled)])
  const Booked2 := Cancelled1.(appointments := [FirstVisit.(status := Cancelled), SecondVisit],
                               slots := [Slot(1, 10, 540, 570, false), Slot(2, 10, 600, 630, false)], nextId := 2)
  const Completed1 := Booked2.(appointments := [FirstVisit.(status := Completed), SecondVisit])

  /**
   * Book with doctor 1, cancel, book with doctor 2 on the same day, then
   * doctor 1 completes the cancelled appointment: every step succeeds and
   * the one-visit-per-day invariant, true at the start, is broken.
   */
  lemma CompleteAfterCancelBreaksOneVisitPerDay()
    ensures Book(Clinic, 3, 1, 10, 540) == (Booked1, Ok)
    ensures PatientCancel(Booked1, 3, 0) == (Cancelled1, Ok)
    ensures Book(Cancelled1, 3, 2, 10, 600) == (Booked2, Ok)
    ensures DoctorUpdate(Booked2, 1, 0, "complete") == (Completed1, Ok)
    ensures OneVisitPerDay(Clinic.appointments) && !OneVisitPerDay(Completed1.appointments)
  {
    BookFirst();
    CancelFirst();
    BookSecond();
    CompleteFirst();
    assert !NotSameDay(Completed1.appointments[0], Completed1.appointments[1]);
  }

  lemma BookFirst()
    ensures Book(Clinic, 3, 1, 10, 540) == (Booked1, Ok)
  {
    var s := Clinic;
    assert IsPatient(s, 3) && IsDoctor(s, 1) by {
      assert s.patients[0] in s.patients && s.doctors[0] in s.doctors;
    }
    assert FindOpenSlot(s.slots, 1, 10, 540) == Some(0);
    assert s.appointments + [FirstVisit] == Booked1.appointments;
    assert s.slots[0 := s.slots[0].(available := false)] == Booked1.slots;
  }

  lemma CancelFirst()
    ensures PatientCancel(Booked1, 3, 0) == (Cancelled1, Ok)
  {
    var s := Booked1;
    assert IsPatient(s, 3) by { assert s.patients[0] in s.patients; }
    assert FindAppointment(s.appointments, 0) == Some(0);
    assert SetStatus(s.appointments, 0, Cancelled) == Cancelled1.appointments;
  }

  lemma BookSecond()
    ensures Book(Cancelled1, 3, 2, 10, 600) == (Booked2, Ok)
  {
    var s := Cancelled1;
    assert IsPatient(s, 3) && IsDoctor(s, 2) by {
      assert s.patients[0] in s.patients && s.doctors[1] in s.doctors;
    }
    assert !HasVisitOn(s.appointments, 3, 10) && !BookedAt(s.appointments, 2, 10, 600);
    assert FindOpenSlot(s.slots, 2, 10, 600) == Some(1);
    assert s.appointments + [SecondVisit] == Booked2.appointments;
    assert s.slots[1 := s.slots[1].(available := false)] == Booked2.slots;
  }

  lemma CompleteFirst()
    ensures DoctorUpdate(Booked2, 1, 0, "complete") == (Completed1, Ok)
  {
    var s := Booked2;
    assert IsDoctor(s, 1) by { assert s.doctors[0] in s.doctors; }
    assert FindAppointment(s.appointments, 0) == Some(0);
    assert ActionTarget("complete") == Some(Completed);
    assert SetStatus(s.appointments, 0, Completed) == Completed1.appointments;
  }

  /**
   * The doctor's handler with the missing guard: only a `booked`
   * appointment may be completed or cancelled; a completed or cancelled one
   * is final and the request is refused with `InvalidState`.
   */
  function GuardedDoctorUpdate(s: State, doctor: int, id: int, action: string): (State, Outcome)
  {
    if !IsDoctor(s, doctor) then (s, NotFound)
    else match FindAppointment(s.appointments, id)
      case None => (s, NotFound)
      case Some(i) =>
        if s.appointments[i].doctor != doctor then (s, NotAuthorized)
        else if s.appointments[i].status != Booked then (s, InvalidState)
        else match ActionTarget(action)
          case None => (s, UnknownAction)
          case Some(st) => (s.(appointments := SetStatus(s.appointments, i, st)), Ok)
  }

  // ---------------------------------------------------------------------
  // The patient's handler does not look at the prior status either: a
  // completed visit can be cancelled afterwards.

  /** The scenario's patient after the visit with doctor 1 took place. */
  const Visited := Booked1.(appointments := [FirstVisit.(status := Completed)])

  /** The patient cancels the completed visit: the request succeeds and the visit is no longer completed. */
  lemma CancelAfterCompleteSucceeds()
    ensures Visited.appointments[0].status == Completed
    ensures PatientCancel(Visited, 3, 0) == (Visited.(appointments := [FirstVisit.(status := Cancelled)]), Ok)
  {
    var s := Visited;
    assert IsPatient(s, 3) by { assert s.patients[0] in s.patients; }
    assert FindAppointment(s.appointments, 0) == Some(0);
    assert SetStatus(s.appointments, 0, Cancelled) == [FirstVisit.(status := Cancelled)];
  }

  /**
   * The patient's handler with the missing guard: only a `booked`
   * appointment may be cancelled; a completed or cancelled one is final and
   * the request is refused with `InvalidState`.
   */
  function GuardedPatientCancel(s: State, patient: int, id: int): (State, Outcome)
  {
    if !IsPatient(s, patient) then (s, NotFound)
    else match FindAppointment(s.appointments, id)
      case None => (s, NotFound)
      case Some(i) =>
        if s.appointments[i].patient != patient then (s, NotAuthorized)
        else if s.appointments[i].status != Booked then (s, InvalidState)
        else (s.(appointments := SetStatus(s.appointments, i, Cancelled)), Ok)
  }

  /**
   * With the guard, a patient's cancel never changes a completed or
   * cancelled appointment, is refused exactly for the owner of such an
   * appointment, and otherwise agrees with the unguarded handler.
   */
  lemma GuardedPatientCancelKeepsTerminal(s: State, patient: int, id: int)
    requires Pairwise(s.appointments, DistinctIds)
    ensures var (t, o) := GuardedPatientCancel(s, patient, id);
      && (forall a :: a in s.appointments && a.id == id && a.status != Booked ==> t == s)
      && (o == InvalidState <==>
            IsPatient(s, patient) && FindAppointment(s.appointments, id).Some? &&
            s.appointments[FindAppointment(s.appointments, id).value].patient == patient &&
            s.appointments[FindAppointment(s.appointments, id).value].status != Booked)
      && (o != InvalidState ==> (t, o) == PatientCancel(s, patient, id))
      && (o == InvalidState ==> t == s)
  {
    var f := FindAppointment(s.appointments, id);
    if f.Some? {
      forall k | 0 <= k < |s.appointments| && k != f.value ensures s.appointments[k].id != id {
        if k > f.value {
          assert DistinctIds(s.appointments[f.value], s.appointments[k]);
        }
      }
    }
  }

  /**
   * With the guard, a completed or cancelled appointment never changes
   * again, the handler agrees with the unguarded one on `booked`
   * appointments, and one visit per patient per day is kept.
   */
  lemma GuardedDoctorUpdateKeepsOneVisitPerDay(s: State, doctor: int, id: int, action: string)
    requires Pairwise(s.appointments, DistinctIds)
    requires OneVisitPerDay(s.appointments)
    ensures var (t, o) := GuardedDoctorUpdate(s, doctor, id, action);
      && OneVisitPerDay(t.appointments)
      && (forall a :: a in s.appointments && a.id == id && a.status != Booked ==> t == s)
      && (o == InvalidState <==>
            IsDoctor(s, doctor) && FindAppointment(s.appointments, id).Some? &&
            s.appointments[FindAppointment(s.appointments, id).value].doctor == doctor &&
            s.appointments[FindAppointment(s.appointments, id).value].status != Booked)
      && (o != InvalidState ==> (t, o) == DoctorUpdate(s, doctor, id, action))
      && (o == InvalidState ==> t == s)
  {
    var f := FindAppointment(s.appointments, id);
    if f.Some? {
      forall k | 0 <= k < |s.appointments| && k != f.value ensures s.appointments[k].id != id {
        if k > f.value {
          assert DistinctIds(s.appointments[f.value], s.appointments[k]);
        }
      }
    }
    if f.Some? && s.appointments[f.value].status == Booked {
      var i := f.value;
      var appts := s.appointments;
      match ActionTarget(action)
      case None =>
      case Some(st) =>
        var t := SetStatus(appts, i, st);
        forall p, q | 0 <= p < q < |t| ensures NotSameDay(t[p], t[q]) {
          assert NotSameDay(appts[p], appts[q]);
        }
    }
  }
}
