/**
 * The record shapes of the hospital schema: appointments, availability
 * slots, clinical history entries, and the user / doctor / patient rows
 * whose keys the cascading deletes touch.
 *
 * Dates are day numbers, times are minutes since midnight, and every column
 * the schema declares NOT NULL is a plain (non-optional) field.
 */
module Records {

  /** The three values the status column is meant to hold. */
  datatype Status = Booked | Completed | Cancelled

  datatype Appointment = Appointment(
    id: int,
    patient: int,
    doctor: int,
    date: int,
    time: int,
    status: Status)

  /** One availability window of one doctor on one day. */
  datatype Slot = Slot(doctor: int, date: int, start: int, end: int, available: bool)

  /** The free-text clinical fields a doctor submits with a history entry. */
  datatype Notes = Notes(
    visitType: string,
    testType: string,
    diagnosis: string,
    treatment: string,
    prescription: string)

  /** A history entry; `created` is a stamp from a monotone clock. */
  datatype HistoryEntry = HistoryEntry(
    patient: int,
    appointment: int,
    doctor: int,
    notes: Notes,
    created: nat)

  datatype User = User(id: int, name: string, email: string, role: string)

  /** A doctor row; its key is the key of its user row. */
  datatype Doctor = Doctor(id: int, department: int, experience: int)

  /** A patient row; its key is the key of its user row. */
  datatype Patient = Patient(id: int, name: string)

  /** An appointment that holds the patient's day: booked or already completed. */
  predicate HoldsDay(a: Appointment)
  {
    a.status == Booked || a.status == Completed
  }

  // Column constraints of the schema, each stated of two distinct rows.

  /** Primary key of the appointments table. */
  predicate DistinctIds(a: Appointment, b: Appointment) { a.id != b.id }

  /** `appointment_id` is unique among history entries. */
  predicate DistinctVisits(h: HistoryEntry, k: HistoryEntry) { h.appointment != k.appointment }

  /** Entries are stored in the order they were created. */
  predicate CreatedInOrder(h: HistoryEntry, k: HistoryEntry) { h.created < k.created }

  /** Primary key of the users table. */
  predicate DistinctUserIds(u: User, v: User) { u.id != v.id }

  /** `user_email` is unique. */
  predicate DistinctEmails(u: User, v: User) { u.email != v.email }

  predicate DistinctDoctorIds(d: Doctor, e: Doctor) { d.id != e.id }

  predicate DistinctPatientIds(p: Patient, q: Patient) { p.id != q.id }
}
