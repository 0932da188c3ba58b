/**
 * Doctor availability: the doctor's form for the seven days starting today
 * creates or overwrites one slot per (doctor, date), and the doctor page
 * groups the doctor's slots of those seven days by date.
 */
module Availability {
  import opened Wrappers
  import opened Seqs
  import opened Records
  import opened Store

  /** The form covers today and the six days after it. */
  const WindowDays: nat := 7

  /**
   * The slot the form asks for on day `d`: the start and end times entered
   * for that day, open exactly when the day's checkbox is ticked.
   */
  function Entered(doctor: int, d: int, starts: map<int, int>, ends: map<int, int>, avail: set<int>): Slot
    requires d in starts && d in ends
  {
    Slot(doctor, d, starts[d], ends[d], d in avail)
  }

  /** The position of the first slot of `doctor` on `date`, if any. */
  function FirstSlotOn(slots: seq<Slot>, doctor: int, date: int): (r: Option<nat>)
    ensures r.Some? ==> r.value < |slots| && slots[r.value].doctor == doctor && slots[r.value].date == date
    ensures r.None? <==> forall sl :: sl in slots ==> sl.doctor != doctor || sl.date != date
  {
    if slots == [] then None
    else if slots[0].doctor == doctor && slots[0].date == date then Some(0)
    else match FirstSlotOn(slots[1..], doctor, date)
      case None => None
      case Some(k) => Some(k + 1)
  }

  /** Overwrite the first slot of the same doctor and date with `sl`, or add `sl`. */
  function Upsert(slots: seq<Slot>, sl: Slot): seq<Slot>
  {
    match FirstSlotOn(slots, sl.doctor, sl.date)
    case None => slots + [sl]
    case Some(i) => slots[i := sl]
  }

  /** The slots after the form's first `k` days have been applied, in order. */
  function FillDays(slots: seq<Slot>, doctor: int, today: int, starts: map<int, int>, ends: map<int, int>,
                    avail: set<int>, k: nat): seq<Slot>
    decreases k
  {
    if k == 0 then slots
    else
      var prev := FillDays(slots, doctor, today, starts, ends, avail, k - 1);
      var d := today + k - 1;
      if d in starts && d in ends then Upsert(prev, Entered(doctor, d, starts, ends, avail)) else prev
  }

  /** The availability handler, as a transition of the store. */
  function SetAvailability(s: State, doctor: int, today: int, starts: map<int, int>, ends: map<int, int>,
                           avail: set<int>): (State, Outcome)
  {
    if !IsDoctor(s, doctor) then (s, NotFound)
    else (s.(slots := FillDays(s.slots, doctor, today, starts, ends, avail, WindowDays)), Ok)
  }

  /** A slot the first `k` days of the form write: this doctor, a day with both times. */
  predicate Covered(sl: Slot, doctor: int, today: int, k: nat, starts: map<int, int>, ends: map<int, int>)
  {
    sl.doctor == doctor && today <= sl.date < today + k && sl.date in starts && sl.date in ends
  }

  /**
   * One upsert changes at most the first slot of its doctor and date, or
   * appends the new slot, and the new slot is present afterwards; with one
   * slot per day before, there is still one per day and it is the new one.
   */
  lemma UpsertEffect(slots: seq<Slot>, sl: Slot)
    ensures var r := Upsert(slots, sl);
      && |slots| <= |r| <= |slots| + 1
      && (forall j :: 0 <= j < |slots| && (slots[j].doctor != sl.doctor || slots[j].date != sl.date) ==>
            r[j] == slots[j])
      && (forall j :: |slots| <= j < |r| ==> r[j] == sl)
      && sl in r
      && (OneSlotPerDay(slots) ==>
            && OneSlotPerDay(r)
            && forall j :: 0 <= j < |slots| && slots[j].doctor == sl.doctor && slots[j].date == sl.date ==>
                 r[j] == sl)
  {
    var r := Upsert(slots, sl);
    match FirstSlotOn(slots, sl.doctor, sl.date)
    case None =>
      assert r[|slots|] == sl;
      if OneSlotPerDay(slots) {
        forall k | 0 <= k < |slots| ensures DistinctDays(slots[k], sl) {
          assert slots[k] in slots;
        }
        PairwiseSnoc(slots, sl, DistinctDays);
      }
    case Some(i) =>
      assert r[i] == sl;
      if OneSlotPerDay(slots) {
        forall p, q | 0 <= p < q < |r| ensures DistinctDays(r[p], r[q]) {
          assert DistinctDays(slots[p], slots[q]);
          if p == i {
            assert DistinctDays(slots[i], slots[q]);
          } else if q == i {
            assert DistinctDays(slots[p], slots[i]);
          }
        }
        forall j | 0 <= j < |slots| && j != i ensures slots[j].doctor != sl.doctor || slots[j].date != sl.date {
          if j < i {
            assert DistinctDays(slots[j], slots[i]);
          } else {
            assert DistinctDays(slots[i], slots[j]);
          }
        }
      }
  }

  /**
   * What the first `k` days of the form leave in `r`, starting from
   * `slots`: every slot outside those days, of another doctor or on a day
   * missing a time is untouched; the only slots added are the entered ones;
   * every day with both times has its entered slot; and with one slot per
   * (doctor, date) before, there is still one and every covered slot holds
   * the entered values.
   */
  predicate FilledFrom(slots: seq<Slot>, r: seq<Slot>, doctor: int, today: int, starts: map<int, int>,
                       ends: map<int, int>, avail: set<int>, k: nat)
  {
    && |slots| <= |r|
    && (forall j :: 0 <= j < |slots| && !Covered(slots[j], doctor, today, k, starts, ends) ==> r[j] == slots[j])
    && (forall j :: |slots| <= j < |r| ==>
          Covered(r[j], doctor, today, k, starts, ends) && r[j] == Entered(doctor, r[j].date, starts, ends, avail))
    && (forall d :: today <= d < today + k && d in starts && d in ends ==>
          Entered(doctor, d, starts, ends, avail) in r)
    && (OneSlotPerDay(slots) ==>
          && OneSlotPerDay(r)
          && forall j :: 0 <= j < |slots| && Covered(slots[j], doctor, today, k, starts, ends) ==>
               r[j] == Entered(doctor, slots[j].date, starts, ends, avail))
  }

  /** The form's first `k` days do what `FilledFrom` says, for every `k`. */
  lemma {:induction false} FillDaysEffect(slots: seq<Slot>, doctor: int, today: int, starts: map<int, int>,
                                          ends: map<int, int>, avail: set<int>, k: nat)
    ensures FilledFrom(slots, FillDays(slots, doctor, today, starts, ends, avail, k), doctor, today, starts, ends, avail, k)
    decreases k
  {
    if k == 0 {
      assert FillDays(slots, doctor, today, starts, ends, avail, 0) == slots;
    } else {
      FillDaysEffect(slots, doctor, today, starts, ends, avail, k - 1);
      var prev := FillDays(slots, doctor, today, starts, ends, avail, k - 1);
      var d := today + k - 1;
      if d in starts && d in ends {
        assert FillDays(slots, doctor, today, starts, ends, avail, k) == Upsert(prev, Entered(doctor, d, starts, ends, avail));
        FillUpsertStep(slots, prev, doctor, today, starts, ends, avail, k);
      } else {
        assert FillDays(slots, doctor, today, starts, ends, avail, k) == prev;
        FillSkipStep(slots, prev, doctor, today, starts, ends, avail, k);
      }
    }
  }

  /** A day with both times: its upsert extends what the earlier days did by that day. */
  lemma FillUpsertStep(slots: seq<Slot>, prev: seq<Slot>, doctor: int, today: int, starts: map<int, int>,
                       ends: map<int, int>, avail: set<int>, k: nat)
    requires k > 0 && today + k - 1 in starts && today + k - 1 in ends
    requires FilledFrom(slots, prev, doctor, today, starts, ends, avail, k - 1)
    ensures FilledFrom(slots, Upsert(prev, Entered(doctor, today + k - 1, starts, ends, avail)),
                       doctor, today, starts, ends, avail, k)
  {
    var d := today + k - 1;
    var sl := Entered(doctor, d, starts, ends, avail);
    var r := Upsert(prev, sl);
    UpsertEffect(prev, sl);
    forall j | 0 <= j < |slots| && !Covered(slots[j], doctor, today, k, starts, ends)
      ensures r[j] == slots[j]
    {
      assert prev[j] == slots[j];
    }
    forall j | |slots| <= j < |r|
      ensures Covered(r[j], doctor, today, k, starts, ends) && r[j] == Entered(doctor, r[j].date, starts, ends, avail)
    {
      if j < |prev| {
        assert Covered(prev[j], doctor, today, k - 1, starts, ends);
      }
    }
    forall e | today <= e < today + k && e in starts && e in ends
      ensures Entered(doctor, e, starts, ends, avail) in r
    {
      if e != d {
        var x := Entered(doctor, e, starts, ends, avail);
        assert x in prev;
        var m :| 0 <= m < |prev| && prev[m] == x;
        assert r[m] == x;
      }
    }
    if OneSlotPerDay(slots) {
      forall j | 0 <= j < |slots| && Covered(slots[j], doctor, today, k, starts, ends)
        ensures r[j] == Entered(doctor, slots[j].date, starts, ends, avail)
      {
        if slots[j].date != d {
          assert Covered(slots[j], doctor, today, k - 1, starts, ends);
        } else {
          assert prev[j] == slots[j];
        }
      }
    }
  }

  /** A day missing a time: the earlier days' slots stand, and that day adds nothing to cover. */
  lemma FillSkipStep(slots: seq<Slot>, prev: seq<Slot>, doctor: int, today: int, starts: map<int, int>,
                     ends: map<int, int>, avail: set<int>, k: nat)
    requires k > 0 && !(today + k - 1 in starts && today + k - 1 in ends)
    requires FilledFrom(slots, prev, doctor, today, starts, ends, avail, k - 1)
    ensures FilledFrom(slots, prev, doctor, today, starts, ends, avail, k)
  {
    forall j | |slots| <= j < |prev|
      ensures Covered(prev[j], doctor, today, k, starts, ends)
    {
      assert Covered(prev[j], doctor, today, k - 1, starts, ends);
    }
    forall j | 0 <= j < |slots| && !Covered(slots[j], doctor, today, k, starts, ends)
      ensures prev[j] == slots[j]
    {
      assert !Covered(slots[j], doctor, today, k - 1, starts, ends);
    }
    if OneSlotPerDay(slots) {
      forall j | 0 <= j < |slots| && Covered(slots[j], doctor, today, k, starts, ends)
        ensures prev[j] == Entered(doctor, slots[j].date, starts, ends, avail)
      {
        assert Covered(slots[j], doctor, today, k - 1, starts, ends);
      }
    }
  }

  /**
   * The availability handler succeeds exactly for a known doctor and then
   * changes only the slots, as the seven-day form says: every entered day
   * has its slot, and every slot of another doctor, outside the window or
   * on a day missing a time is untouched; an entered day's existing slot is
   * overwritten in place and no slot but an entered one is added
   * (`FilledFrom`). An unknown doctor changes nothing.
   */
  lemma SetAvailabilityEffect(s: State, doctor: int, today: int, starts: map<int, int>, ends: map<int, int>,
                              avail: set<int>)
    ensures var (t, o) := SetAvailability(s, doctor, today, starts, ends, avail);
      && (o == Ok <==> IsDoctor(s, doctor))
      && (o != Ok ==> t == s)
      && t == s.(slots := t.slots)
      && (o == Ok ==> forall d :: today <= d < today + WindowDays && d in starts && d in ends ==>
            Entered(doctor, d, starts, ends, avail) in t.slots)
      && |s.slots| <= |t.slots|
      && (forall j :: 0 <= j < |s.slots| && !Covered(s.slots[j], doctor, today, WindowDays, starts, ends) ==>
            t.slots[j] == s.slots[j])
      && (o == Ok ==> FilledFrom(s.slots, t.slots, doctor, today, starts, ends, avail, WindowDays))
  {
    FillDaysEffect(s.slots, doctor, today, starts, ends, avail, WindowDays);
  }

  /** The availability handler keeps everything the store is meant to keep, one slot per (doctor, date) included. */
  lemma SetAvailabilityKeepsStore(s: State, doctor: int, today: int, starts: map<int, int>, ends: map<int, int>,
                                  avail: set<int>)
    requires Good(s)
    ensures Good(SetAvailability(s, doctor, today, starts, ends, avail).0)
  {
    if IsDoctor(s, doctor) {
      var r := FillDays(s.slots, doctor, today, starts, ends, avail, WindowDays);
      assert SetAvailability(s, doctor, today, starts, ends, avail).0 == s.(slots := r);
      FillDaysEffect(s.slots, doctor, today, starts, ends, avail, WindowDays);
      forall sl | sl in r ensures sl in s.slots || sl.doctor == doctor {
        var j :| 0 <= j < |r| && r[j] == sl;
        if j < |s.slots| && !Covered(s.slots[j], doctor, today, WindowDays, starts, ends) {
          assert s.slots[j] in s.slots;
        }
      }
      NewSlotsKeepLinks(s, doctor, r);
    }
  }

  lemma NewSlotsKeepLinks(s: State, doctor: int, r: seq<Slot>)
    requires Valid(s) && Linked(s) && IsDoctor(s, doctor)
    requires forall sl :: sl in r ==> sl in s.slots || sl.doctor == doctor
    ensures Valid(s.(slots := r)) && Linked(s.(slots := r))
  {
    var t := s.(slots := r);
    forall h | h in t.histories ensures RecordsVisit(t.appointments, h) {
      assert RecordsVisit(s.appointments, h);
    }
  }

  // ---------------------------------------------------------------------
  // The doctor page: the doctor's slots of the seven days, grouped by date.

  /** The query condition "this doctor, on day `d`". */
  function OnDay(doctor: int, d: int): Slot -> bool
  {
    (sl: Slot) => sl.doctor == doctor && sl.date == d
  }

  /** The query condition "this doctor, within the seven days starting `today`". */
  function InWeek(doctor: int, today: int): Slot -> bool
  {
    (sl: Slot) => sl.doctor == doctor && today <= sl.date < today + WindowDays
  }

  /** The slots of `doctor` on day `d`, in store order. */
  function SlotsOn(slots: seq<Slot>, doctor: int, d: int): seq<Slot>
  {
    Filter(slots, OnDay(doctor, d))
  }

  /** The slots of `doctor` in the seven days starting `today`, in store order. */
  function WeekSlots(slots: seq<Slot>, doctor: int, today: int): seq<Slot>
  {
    Filter(slots, InWeek(doctor, today))
  }

  /** Picking one day out of the week's slots picks that day's slots, or none outside the week. */
  lemma {:induction false} SlotsOnWeek(slots: seq<Slot>, doctor: int, today: int, d: int)
    ensures SlotsOn(WeekSlots(slots, doctor, today), doctor, d) ==
            if today <= d < today + WindowDays then SlotsOn(slots, doctor, d) else []
    decreases |slots|
  {
    if slots != [] {
      var init, last := slots[..|slots| - 1], slots[|slots| - 1];
      assert slots == init + [last];
      SlotsOnWeek(init, doctor, today, d);
      FilterSnoc(init, last, InWeek(doctor, today));
      FilterSnoc(init, last, OnDay(doctor, d));
      var w := WeekSlots(init, doctor, today);
      FilterSnoc(w, last, OnDay(doctor, d));
      assert InWeek(doctor, today)(last) == (last.doctor == doctor && today <= last.date < today + WindowDays);
      assert OnDay(doctor, d)(last) == (last.doctor == doctor && last.date == d);
      if InWeek(doctor, today)(last) {
        assert WeekSlots(slots, doctor, today) == w + [last];
      } else {
        assert WeekSlots(slots, doctor, today) == w;
      }
    }
  }

  /**
   * The doctor page's grouping loop: a date is a key exactly when it lies
   * in the seven-day window and the doctor has a slot that day, and each
   * key maps to all of that day's slots.
   */
  method SlotsByDate(slots: seq<Slot>, doctor: int, today: int) returns (m: map<int, seq<Slot>>)
    ensures forall d :: d in m <==> today <= d < today + WindowDays && SlotsOn(slots, doctor, d) != []
    ensures forall d :: d in m ==> m[d] == SlotsOn(slots, doctor, d)
  {
    var week := WeekSlots(slots, doctor, today);
    m := map[];
    var i := 0;
    while i < |week|
      invariant 0 <= i <= |week|
      invariant Grouped(m, week[..i], doctor)
    {
      var sl := week[i];
      assert sl in week && InWeek(doctor, today)(sl);
      GroupStep(m, week, i, doctor);
      if sl.date in m {
        m := m[sl.date := m[sl.date] + [sl]];
      } else {
        m := m[sl.date := [sl]];
      }
      i := i + 1;
    }
    assert week[..i] == week;
    GroupedWeek(m, slots, doctor, today);
  }

  /** `m` maps each date on which `doctor` has a slot in `s` to all of that day's slots, and nothing else. */
  ghost predicate Grouped(m: map<int, seq<Slot>>, s: seq<Slot>, doctor: int)
  {
    forall d :: (d in m <==> SlotsOn(s, doctor, d) != []) && (d in m ==> m[d] == SlotsOn(s, doctor, d))
  }

  /** One more slot of the doctor joins its own day's group and leaves the other days alone. */
  lemma GroupStep(m: map<int, seq<Slot>>, week: seq<Slot>, i: nat, doctor: int)
    requires i < |week| && week[i].doctor == doctor
    requires Grouped(m, week[..i], doctor)
    ensures var sl := week[i];
      Grouped(if sl.date in m then m[sl.date := m[sl.date] + [sl]] else m[sl.date := [sl]], week[..i + 1], doctor)
  {
    var sl := week[i];
    var m' := if sl.date in m then m[sl.date := m[sl.date] + [sl]] else m[sl.date := [sl]];
    assert week[..i + 1] == week[..i] + [sl];
    forall d ensures (d in m' <==> SlotsOn(week[..i + 1], doctor, d) != []) &&
                     (d in m' ==> m'[d] == SlotsOn(week[..i + 1], doctor, d))
    {
      FilterSnoc(week[..i], sl, OnDay(doctor, d));
      assert OnDay(doctor, d)(sl) == (sl.date == d);
    }
  }

  /** Grouping the week's slots groups the doctor's slots of the seven days. */
  lemma GroupedWeek(m: map<int, seq<Slot>>, slots: seq<Slot>, doctor: int, today: int)
    requires Grouped(m, WeekSlots(slots, doctor, today), doctor)
    ensures forall d :: d in m <==> today <= d < today + WindowDays && SlotsOn(slots, doctor, d) != []
    ensures forall d :: d in m ==> m[d] == SlotsOn(slots, doctor, d)
  {
    forall d ensures SlotsOn(WeekSlots(slots, doctor, today), doctor, d) ==
                     if today <= d < today + WindowDays then SlotsOn(slots, doctor, d) else [] {
      SlotsOnWeek(slots, doctor, today, d);
    }
  }

  /**
   * The handler's loop over the window: for each day whose start and end
   * the form filled in, update the doctor's existing slot of that day or
   * add a new one.
   */
  method FillWindow(slots: seq<Slot>, doctor: int, today: int, starts: map<int, int>, ends: map<int, int>, avail: set<int>)
    returns (week: seq<Slot>)
    ensures week == FillDays(slots, doctor, today, starts, ends, avail, WindowDays)
  {
    week := slots;
    var i := 0;
    while i < WindowDays
      invariant 0 <= i <= WindowDays
      invariant week == FillDays(slots, doctor, today, starts, ends, avail, i)
    {
      var d := today + i;
      if d in starts && d in ends {
        var sl := Slot(doctor, d, starts[d], ends[d], d in avail);
        match FirstSlotOn(week, doctor, d) {
          case None => week := week + [sl];
          case Some(k) => week := week[k := sl];
        }
      }
      i := i + 1;
    }
  }
}
