/**
 * Clinical history: a doctor records one entry for an appointment, and a
 * patient's entries are listed newest first.
 */
module History {
  import opened Wrappers
  import opened Seqs
  import opened Records
  import opened Store

  /** Some entry already records appointment `id`. */
  predicate HasEntryFor(histories: seq<HistoryEntry>, id: int)
  {
    exists h :: h in histories && h.appointment == id
  }

  /**
   * The history handler, as a transition of the store. The entry takes its
   * patient from the appointment and its doctor from the requester; neither
   * the appointment's status nor its doctor is checked. A second entry for
   * the same appointment violates the unique `appointment_id` column, so
   * the insert is refused and nothing changes.
   */
  function AddHistory(s: State, doctor: int, id: int, notes: Notes): (State, Outcome)
  {
    match FindAppointment(s.appointments, id)
    case None => (s, NotFound)
    case Some(i) =>
      if !IsDoctor(s, doctor) then (s, NotFound)
      else if HasEntryFor(s.histories, id) then (s, DuplicateHistory)
      else
        var entry := HistoryEntry(s.appointments[i].patient, id, doctor, notes, s.clock);
        (s.(histories := s.histories + [entry], clock := s.clock + 1), Ok)
  }

  /**
   * Recording succeeds exactly when the appointment and the doctor exist
   * and the appointment has no entry yet, whatever its status and whoever
   * its doctor; it then appends one entry for the appointment's patient and
   * the requesting doctor and changes nothing else.
   */
  lemma AddHistoryEffect(s: State, doctor: int, id: int, notes: Notes)
    ensures var (t, o) := AddHistory(s, doctor, id, notes);
      && (o == Ok <==>
            (exists a :: a in s.appointments && a.id == id) && IsDoctor(s, doctor) && !HasEntryFor(s.histories, id))
      && (o == DuplicateHistory <==>
            (exists a :: a in s.appointments && a.id == id) && IsDoctor(s, doctor) && HasEntryFor(s.histories, id))
      && (o == Ok || o == NotFound || o == DuplicateHistory)
      && (o != Ok ==> t == s)
      && (o == Ok ==>
            var a := s.appointments[FindAppointment(s.appointments, id).value];
            && a.id == id
            && t == s.(histories := s.histories + [HistoryEntry(a.patient, id, doctor, notes, s.clock)],
                       clock := s.clock + 1))
  {
    if FindAppointment(s.appointments, id).None? {
      assert !exists a :: a in s.appointments && a.id == id;
    }
  }

  /**
   * Recording twice for one appointment succeeds once: the second request,
   * by any doctor with any notes, is refused as a duplicate and changes
   * nothing.
   */
  lemma AddHistoryTwice(s: State, doctor: int, doctor2: int, id: int, notes: Notes, notes2: Notes)
    requires AddHistory(s, doctor, id, notes).1 == Ok
    requires IsDoctor(AddHistory(s, doctor, id, notes).0, doctor2)
    ensures var t := AddHistory(s, doctor, id, notes).0;
      AddHistory(t, doctor2, id, notes2) == (t, DuplicateHistory)
  {
    var t := AddHistory(s, doctor, id, notes).0;
    assert t.histories[|s.histories|].appointment == id;
    assert t.appointments == s.appointments;
  }

  /**
   * Recording keeps one entry per appointment, creation order, referential
   * integrity and the rest of what the store is meant to keep.
   */
  lemma AddHistoryKeepsStore(s: State, doctor: int, id: int, notes: Notes)
    requires Good(s)
    ensures Good(AddHistory(s, doctor, id, notes).0)
  {
    if AddHistory(s, doctor, id, notes).1 == Ok {
      var a := s.appointments[FindAppointment(s.appointments, id).value];
      var e := HistoryEntry(a.patient, id, doctor, notes, s.clock);
      var t := s.(histories := s.histories + [e], clock := s.clock + 1);
      assert AddHistory(s, doctor, id, notes).0 == t;
      assert a in s.appointments;
      AppendEntryKeepsValid(s, e);
      AppendEntryKeepsLinked(s, e);
    }
  }

  lemma AppendEntryKeepsValid(s: State, e: HistoryEntry)
    requires Valid(s) && e.created == s.clock && !HasEntryFor(s.histories, e.appointment)
    ensures Valid(s.(histories := s.histories + [e], clock := s.clock + 1))
  {
    forall k | 0 <= k < |s.histories| ensures DistinctVisits(s.histories[k], e) && CreatedInOrder(s.histories[k], e) {
      assert s.histories[k] in s.histories;
    }
    PairwiseSnoc(s.histories, e, DistinctVisits);
    PairwiseSnoc(s.histories, e, CreatedInOrder);
  }

  lemma AppendEntryKeepsLinked(s: State, e: HistoryEntry)
    requires Linked(s) && IsPatient(s, e.patient) && IsDoctor(s, e.doctor) && RecordsVisit(s.appointments, e)
    ensures Linked(s.(histories := s.histories + [e], clock := s.clock + 1))
  {
  }

  /** `h` is newer than `k`. */
  predicate NewerThan(h: HistoryEntry, k: HistoryEntry) { h.created > k.created }

  /**
   * The entries of `patient`, newest first. Entries are stored in creation
   * order, so the listing walks the store from the end.
   */
  function PatientHistory(histories: seq<HistoryEntry>, patient: int): (r: seq<HistoryEntry>)
    ensures forall h :: h in r <==> h in histories && h.patient == patient
    decreases |histories|
  {
    if histories == [] then []
    else
      var last := histories[|histories| - 1];
      (if last.patient == patient then [last] else []) + PatientHistory(histories[..|histories| - 1], patient)
  }

  /**
   * When entries are stored in creation order, the listing is strictly
   * newest first, so it is exactly the patient's entries ordered by
   * creation time, descending.
   */
  lemma {:induction false} PatientHistoryNewestFirst(histories: seq<HistoryEntry>, patient: int)
    requires Pairwise(histories, CreatedInOrder)
    ensures Pairwise(PatientHistory(histories, patient), NewerThan)
    decreases |histories|
  {
    if histories != [] {
      var init, last := histories[..|histories| - 1], histories[|histories| - 1];
      PairwisePrefix(histories, |histories| - 1, CreatedInOrder);
      PatientHistoryNewestFirst(init, patient);
      var rest := PatientHistory(init, patient);
      if last.patient == patient {
        forall k | 0 <= k < |rest| ensures NewerThan(last, rest[k]) {
          assert rest[k] in init;
          var m :| 0 <= m < |init| && init[m] == rest[k];
          assert CreatedInOrder(histories[m], histories[|histories| - 1]);
        }
        PairwiseCons(last, rest, NewerThan);
      }
    }
  }
}
