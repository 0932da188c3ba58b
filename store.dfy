/**
 * The in-memory store the request handlers work on, the outcomes they
 * report in place of flash messages and redirects, and the invariants the
 * store is meant to keep.
 */
module Store {
  import opened Wrappers
  import opened Seqs
  import opened Records

  /**
   * All rows of the tables the booking core touches. `nextId` is the key
   * the next appointment receives: it only grows, so a key is never handed
   * out twice (SQLite would give max(id) + 1, reusing the key of a deleted
   * top row). `clock` stands for the timestamp given to a new history entry.
   */
  datatype State = State(
    users: seq<User>,
    doctors: seq<Doctor>,
    patients: seq<Patient>,
    appointments: seq<Appointment>,
    slots: seq<Slot>,
    histories: seq<HistoryEntry>,
    nextId: int,
    clock: nat)

  /** What a handler reports back to the page that called it. */
  datatype Outcome =
    | Ok
    | NotFound
    | SameDayConflict
    | SlotUnavailable
    | NotAuthorized
    | UnknownAction
    | DuplicateHistory
    | InvalidState

  predicate IsDoctor(s: State, id: int)
  {
    exists d :: d in s.doctors && d.id == id
  }

  predicate IsPatient(s: State, id: int)
  {
    exists p :: p in s.patients && p.id == id
  }

  predicate HasUser(users: seq<User>, id: int)
  {
    exists u :: u in users && u.id == id
  }

  /** The position of the first appointment with key `id`, if any. */
  function FindAppointment(appts: seq<Appointment>, id: int): (r: Option<nat>)
    ensures r.Some? ==> r.value < |appts| && appts[r.value].id == id
    ensures r.Some? ==> forall k :: 0 <= k < r.value ==> appts[k].id != id
    ensures r.None? <==> forall a :: a in appts ==> a.id != id
  {
    if appts == [] then None
    else if appts[0].id == id then Some(0)
    else match FindAppointment(appts[1..], id)
      case None => None
      case Some(k) => Some(k + 1)
  }

  /**
   * Key constraints. From the schema: primary keys, the unique email and
   * the unique history `appointment_id`. From the application: fresh
   * appointment keys and history timestamps, every doctor and patient
   * profile sharing its key with a user row, and no key being both a
   * doctor's and a patient's, since registration and doctor creation make
   * exactly one profile for each new user.
   */
  predicate Valid(s: State)
  {
    && Pairwise(s.appointments, DistinctIds)
    && (forall a :: a in s.appointments ==> a.id < s.nextId)
    && Pairwise(s.histories, DistinctVisits)
    && Pairwise(s.histories, CreatedInOrder)
    && (forall h :: h in s.histories ==> h.created < s.clock)
    && Pairwise(s.users, DistinctUserIds)
    && Pairwise(s.users, DistinctEmails)
    && Pairwise(s.doctors, DistinctDoctorIds)
    && Pairwise(s.patients, DistinctPatientIds)
    && (forall d :: d in s.doctors ==> HasUser(s.users, d.id))
    && (forall p :: p in s.patients ==> HasUser(s.users, p.id))
    && (forall d, p :: d in s.doctors && p in s.patients ==> d.id != p.id)
  }

  /** The history entry `h` records a visit of its own patient. */
  predicate RecordsVisit(appts: seq<Appointment>, h: HistoryEntry)
  {
    exists a :: a in appts && a.id == h.appointment && a.patient == h.patient
  }

  /** Referential integrity: every foreign key points at an existing row. */
  predicate Linked(s: State)
  {
    && (forall a :: a in s.appointments ==> IsPatient(s, a.patient) && IsDoctor(s, a.doctor))
    && (forall sl :: sl in s.slots ==> IsDoctor(s, sl.doctor))
    && (forall h :: h in s.histories ==>
          IsPatient(s, h.patient) && IsDoctor(s, h.doctor) && RecordsVisit(s.appointments, h))
  }

  /** Two different bookings of the same doctor, date and time. */
  predicate Clash(x: Appointment, y: Appointment)
  {
    x.status == Booked && y.status == Booked &&
    x.doctor == y.doctor && x.date == y.date && x.time == y.time
  }

  predicate NoClash(x: Appointment, y: Appointment) { !Clash(x, y) }

  /** At most one `booked` appointment per (doctor, date, time). */
  predicate NoDoubleBooking(appts: seq<Appointment>)
  {
    Pairwise(appts, NoClash)
  }

  /** Two appointments that both hold the same patient's same day. */
  predicate SameDay(x: Appointment, y: Appointment)
  {
    HoldsDay(x) && HoldsDay(y) && x.patient == y.patient && x.date == y.date
  }

  predicate NotSameDay(x: Appointment, y: Appointment) { !SameDay(x, y) }

  /** At most one `booked` or `completed` appointment per (patient, date). */
  predicate OneVisitPerDay(appts: seq<Appointment>)
  {
    Pairwise(appts, NotSameDay)
  }

  predicate DistinctDays(x: Slot, y: Slot) { x.doctor != y.doctor || x.date != y.date }

  /** At most one availability slot per (doctor, date). */
  predicate OneSlotPerDay(slots: seq<Slot>)
  {
    Pairwise(slots, DistinctDays)
  }

  /**
   * Everything the store is meant to keep: the schema constraints,
   * referential integrity, no double booking, one visit per patient per
   * day and one slot per doctor per day.
   */
  predicate Good(s: State)
  {
    Valid(s) && Linked(s) &&
    NoDoubleBooking(s.appointments) && OneVisitPerDay(s.appointments) && OneSlotPerDay(s.slots)
  }

  /** Replace the status of the appointment at position `i`. */
  function SetStatus(appts: seq<Appointment>, i: nat, st: Status): seq<Appointment>
    requires i < |appts|
  {
    appts[i := appts[i].(status := st)]
  }

  /** Changing one status leaves every lookup by key where it was. */
  lemma {:induction false} FindIgnoresStatus(appts: seq<Appointment>, i: nat, st: Status, id: int)
    requires i < |appts|
    ensures FindAppointment(SetStatus(appts, i, st), id) == FindAppointment(appts, id)
    decreases |appts|
  {
    var t := SetStatus(appts, i, st);
    if appts[0].id != id {
      assert t[0].id != id;
      if i == 0 {
        assert t[1..] == appts[1..];
      } else {
        assert t[1..] == SetStatus(appts[1..], i - 1, st);
        FindIgnoresStatus(appts[1..], i - 1, st, id);
      }
    }
  }

  /** Demoting a booking to a non-booked status never creates a double booking. */
  lemma DemoteKeepsNoDoubleBooking(appts: seq<Appointment>, i: nat, st: Status)
    requires i < |appts| && st != Booked
    requires NoDoubleBooking(appts)
    ensures NoDoubleBooking(SetStatus(appts, i, st))
  {
    var t := SetStatus(appts, i, st);
    forall p, q | 0 <= p < q < |t| ensures NoClash(t[p], t[q]) {
      if p != i && q != i {
        assert NoClash(appts[p], appts[q]);
      }
    }
  }

  /** Cancelling an appointment never creates a second visit on a day. */
  lemma CancelKeepsOneVisitPerDay(appts: seq<Appointment>, i: nat)
    requires i < |appts|
    requires OneVisitPerDay(appts)
    ensures OneVisitPerDay(SetStatus(appts, i, Cancelled))
  {
    var t := SetStatus(appts, i, Cancelled);
    forall p, q | 0 <= p < q < |t| ensures NotSameDay(t[p], t[q]) {
      if p != i && q != i {
        assert NotSameDay(appts[p], appts[q]);
      }
    }
  }
}
