/** The patient record: identity fields plus a chronological medical history. */
module Patients {

  /** A patient record. `medicalHistory` is kept in insertion order, oldest entry first. */
  datatype Patient = Patient(id: int, name: string, age: int, contact: string, medicalHistory: seq<string>)

  /** A freshly constructed patient has an empty medical history. */
  function NewPatient(id: int, name: string, age: int, contact: string): Patient
  {
    Patient(id, name, age, contact, [])
  }

  /** The two records describe the same person: they differ at most in their medical history. */
  predicate SameIdentity(p: Patient, q: Patient)
  {
    p.id == q.id && p.name == q.name && p.age == q.age && p.contact == q.contact
  }

  /** Appends one entry to the end of the patient's medical history. */
  function AddMedicalRecord(p: Patient, entry: string): (q: Patient)
    ensures SameIdentity(p, q)
    ensures |q.medicalHistory| == |p.medicalHistory| + 1
    ensures q.medicalHistory[..|p.medicalHistory|] == p.medicalHistory
    ensures q.medicalHistory[|p.medicalHistory|] == entry
  {
    p.(medicalHistory := p.medicalHistory + [entry])
  }

  /** Adds `entries` one after the other, first to last. */
  function AddMedicalRecords(p: Patient, entries: seq<string>): Patient
    decreases |entries|
  {
    if entries == [] then p else AddMedicalRecords(AddMedicalRecord(p, entries[0]), entries[1..])
  }

  /** Successive additions leave the history in chronological order: the old
      history followed by the new entries in the order they were added. */
  lemma {:induction false} HistoryIsChronological(p: Patient, entries: seq<string>)
    ensures SameIdentity(p, AddMedicalRecords(p, entries))
    ensures AddMedicalRecords(p, entries).medicalHistory == p.medicalHistory + entries
    decreases |entries|
  {
    if entries != [] {
      var q := AddMedicalRecord(p, entries[0]);
      HistoryIsChronological(q, entries[1..]);
      assert q.medicalHistory == p.medicalHistory + [entries[0]];
      assert [entries[0]] + entries[1..] == entries;
      assert p.medicalHistory + [entries[0]] + entries[1..] == p.medicalHistory + entries;
    }
  }

  /** A patient built by the constructor and then given `entries` has exactly
      those entries as its history, in the order they were added. */
  lemma NewPatientHistory(id: int, name: string, age: int, contact: string, entries: seq<string>)
    ensures AddMedicalRecords(NewPatient(id, name, age, contact), entries) ==
      Patient(id, name, age, contact, entries)
  {
    HistoryIsChronological(NewPatient(id, name, age, contact), entries);
  }
}
