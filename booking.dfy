/**
 * Booking an appointment: the handler looks up the open slot, an existing
 * booking of that slot and the patient's existing visit that day, rejects
 * on the same-day visit first and on the slot second, and otherwise adds a
 * `booked` appointment and closes the slot.
 */
module Booking {
  import opened Wrappers
  import opened Seqs
  import opened Records
  import opened Store

  /** A slot offered by `doctor` on `date` starting at `time`, still open. */
  predicate OpenSlot(sl: Slot, doctor: int, date: int, time: int)
  {
    sl.doctor == doctor && sl.date == date && sl.start == time && sl.available
  }

  /** The position of the first open slot for (doctor, date, time), if any. */
  function FindOpenSlot(slots: seq<Slot>, doctor: int, date: int, time: int): (r: Option<nat>)
    ensures r.Some? ==> r.value < |slots| && OpenSlot(slots[r.value], doctor, date, time)
    ensures r.None? <==> forall sl :: sl in slots ==> !OpenSlot(sl, doctor, date, time)
  {
    if slots == [] then None
    else if OpenSlot(slots[0], doctor, date, time) then Some(0)
    else match FindOpenSlot(slots[1..], doctor, date, time)
      case None => None
      case Some(k) => Some(k + 1)
  }

  /** Some appointment already holds (doctor, date, time) as `booked`. */
  predicate BookedAt(appts: seq<Appointment>, doctor: int, date: int, time: int)
  {
    exists a :: a in appts && a.status == Booked && a.doctor == doctor && a.date == date && a.time == time
  }

  /** The patient already has a `booked` or `completed` appointment on `date`. */
  predicate HasVisitOn(appts: seq<Appointment>, patient: int, date: int)
  {
    exists a :: a in appts && a.patient == patient && a.date == date && HoldsDay(a)
  }

  /** The booking handler, as a transition of the store. */
  function Book(s: State, patient: int, doctor: int, date: int, time: int): (State, Outcome)
  {
    if !IsPatient(s, patient) || !IsDoctor(s, doctor) then (s, NotFound)
    else
      var slot := FindOpenSlot(s.slots, doctor, date, time);
      var taken := BookedAt(s.appointments, doctor, date, time);
      var sameDay := HasVisitOn(s.appointments, patient, date);
      if sameDay then (s, SameDayConflict)
      else if slot.None? || taken then (s, SlotUnavailable)
      else
        var i := slot.value;
        var appt := Appointment(s.nextId, patient, doctor, s.slots[i].date, s.slots[i].start, Booked);
        (s.(appointments := s.appointments + [appt],
            slots := s.slots[i := s.slots[i].(available := false)],
            nextId := s.nextId + 1),
         Ok)
  }

  /**
   * Which outcome a booking gets: the same-day conflict wins whatever the
   * slot looks like, the slot is unavailable when no open slot matches or a
   * booking holds it, and every rejection leaves the store as it was.
   */
  lemma BookOutcome(s: State, patient: int, doctor: int, date: int, time: int)
    ensures var (t, o) := Book(s, patient, doctor, date, time);
      && (o == NotFound <==> !IsPatient(s, patient) || !IsDoctor(s, doctor))
      && (o == SameDayConflict <==>
            IsPatient(s, patient) && IsDoctor(s, doctor) && HasVisitOn(s.appointments, patient, date))
      && (o == SlotUnavailable <==>
            IsPatient(s, patient) && IsDoctor(s, doctor) && !HasVisitOn(s.appointments, patient, date) &&
            (BookedAt(s.appointments, doctor, date, time) ||
             forall sl :: sl in s.slots ==> !OpenSlot(sl, doctor, date, time)))
      && (o == Ok || o == NotFound || o == SameDayConflict || o == SlotUnavailable)
      && (o != Ok ==> t == s)
  {
  }

  /**
   * A successful booking adds exactly one `booked` appointment for the
   * requested doctor, date and time under a fresh key, closes exactly the
   * matched open slot, and touches nothing else.
   */
  lemma BookSuccess(s: State, patient: int, doctor: int, date: int, time: int)
    requires Book(s, patient, doctor, date, time).1 == Ok
    ensures var t := Book(s, patient, doctor, date, time).0;
      && t.appointments == s.appointments + [Appointment(s.nextId, patient, doctor, date, time, Booked)]
      && (exists i :: 0 <= i < |s.slots| && OpenSlot(s.slots[i], doctor, date, time) &&
            t.slots == s.slots[i := s.slots[i].(available := false)])
      && BookedAt(t.appointments, doctor, date, time)
      && t.histories == s.histories && t.users == s.users
      && t.doctors == s.doctors && t.patients == s.patients
      && t.nextId == s.nextId + 1 && t.clock == s.clock
  {
    var i := FindOpenSlot(s.slots, doctor, date, time).value;
    var t := Book(s, patient, doctor, date, time).0;
    assert t.appointments[|s.appointments|] == Appointment(s.nextId, patient, doctor, date, time, Booked);
  }

  /**
   * No two `booked` appointments share a doctor, date and time after a
   * booking, whatever the slot flags say: a doctor who reopens a slot that
   * is still booked does not let it be booked twice.
   */
  lemma BookKeepsNoDoubleBooking(s: State, patient: int, doctor: int, date: int, time: int)
    requires NoDoubleBooking(s.appointments)
    ensures NoDoubleBooking(Book(s, patient, doctor, date, time).0.appointments)
  {
    var (t, o) := Book(s, patient, doctor, date, time);
    if o == Ok {
      var a := Appointment(s.nextId, patient, doctor, date, time, Booked);
      BookSuccess(s, patient, doctor, date, time);
      forall k | 0 <= k < |s.appointments| ensures NoClash(s.appointments[k], a) {
        assert s.appointments[k] in s.appointments;
      }
      PairwiseSnoc(s.appointments, a, NoClash);
    }
  }

  /** A patient never holds two `booked`/`completed` appointments on one date after a booking. */
  lemma BookKeepsOneVisitPerDay(s: State, patient: int, doctor: int, date: int, time: int)
    requires OneVisitPerDay(s.appointments)
    ensures OneVisitPerDay(Book(s, patient, doctor, date, time).0.appointments)
  {
    var (t, o) := Book(s, patient, doctor, date, time);
    if o == Ok {
      var a := Appointment(s.nextId, patient, doctor, date, time, Booked);
      BookSuccess(s, patient, doctor, date, time);
      forall k | 0 <= k < |s.appointments| ensures NotSameDay(s.appointments[k], a) {
        assert s.appointments[k] in s.appointments;
      }
      PairwiseSnoc(s.appointments, a, NotSameDay);
    }
  }

  /**
   * Booking keeps everything the store is meant to keep: the schema
   * constraints, referential integrity, no double booking, one visit per
   * patient per day and one slot per doctor per day.
   */
  lemma BookKeepsStore(s: State, patient: int, doctor: int, date: int, time: int)
    requires Good(s)
    ensures Good(Book(s, patient, doctor, date, time).0)
  {
    BookKeepsNoDoubleBooking(s, patient, doctor, date, time);
    BookKeepsOneVisitPerDay(s, patient, doctor, date, time);
    if Book(s, patient, doctor, date, time).1 == Ok {
      BookedKeepsKeys(s, patient, doctor, date, time);
    }
  }

  lemma BookedKeepsKeys(s: State, patient: int, doctor: int, date: int, time: int)
    requires Valid(s) && Linked(s) && OneSlotPerDay(s.slots)
    requires Book(s, patient, doctor, date, time).1 == Ok
    ensures var t := Book(s, patient, doctor, date, time).0;
      Valid(t) && Linked(t) && OneSlotPerDay(t.slots)
  {
    var i := FindOpenSlot(s.slots, doctor, date, time).value;
    var a := Appointment(s.nextId, patient, doctor, date, time, Booked);
    var t := s.(appointments := s.appointments + [a],
                slots := s.slots[i := s.slots[i].(available := false)],
                nextId := s.nextId + 1);
    assert Book(s, patient, doctor, date, time).0 == t;
    BookedKeepsValid(s, a, t.slots);
    BookedKeepsLinked(s, a, i);
    ClosingKeepsOneSlotPerDay(s.slots, i);
  }

  lemma BookedKeepsValid(s: State, a: Appointment, slots: seq<Slot>)
    requires Valid(s) && a.id == s.nextId
    ensures Valid(s.(appointments := s.appointments + [a], slots := slots, nextId := s.nextId + 1))
  {
    forall k | 0 <= k < |s.appointments| ensures DistinctIds(s.appointments[k], a) {
      assert s.appointments[k] in s.appointments;
    }
    PairwiseSnoc(s.appointments, a, DistinctIds);
  }

  lemma BookedKeepsLinked(s: State, a: Appointment, i: int)
    requires Linked(s) && 0 <= i < |s.slots|
    requires IsPatient(s, a.patient) && IsDoctor(s, a.doctor)
    ensures Linked(s.(appointments := s.appointments + [a],
                      slots := s.slots[i := s.slots[i].(available := false)],
                      nextId := s.nextId + 1))
  {
    var t := s.(appointments := s.appointments + [a],
                slots := s.slots[i := s.slots[i].(available := false)],
                nextId := s.nextId + 1);
    forall sl | sl in t.slots ensures IsDoctor(t, sl.doctor) {
      var k :| 0 <= k < |t.slots| && t.slots[k] == sl;
      assert s.slots[k] in s.slots;
    }
    forall h | h in t.histories ensures RecordsVisit(t.appointments, h) {
      var b :| b in s.appointments && b.id == h.appointment && b.patient == h.patient;
      assert b in t.appointments;
    }
  }

  lemma ClosingKeepsOneSlotPerDay(slots: seq<Slot>, i: int)
    requires OneSlotPerDay(slots) && 0 <= i < |slots|
    ensures OneSlotPerDay(slots[i := slots[i].(available := false)])
  {
    var t := slots[i := slots[i].(available := false)];
    forall p, q | 0 <= p < q < |t| ensures DistinctDays(t[p], t[q]) {
      assert DistinctDays(slots[p], slots[q]);
    }
  }
}
