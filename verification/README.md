# Hospital Management System — Dafny model

A model of the in-memory record keeping of a small hospital system
(`HospitalManagementSystem.java`): the patient record with its medical
history, the patient registry (a hand-built singly linked list), the
emergency queue (a priority queue ordered by `Integer.compare` on the
priority), the per-patient treatment history (a stack of strings) and the
doctor directory (a hash map keyed by doctor identifier).

Every structure is modelled as an immutable value and every mutating
operation as a pure function returning the new value:

- `Patients` — `Patient` and `AddMedicalRecord`.
- `PatientRecords` — the node chain `Chain = Nil | Node(patient, next)`
  mirrors the `Node` links of `PatientRecords` from `head`; `Elements` reads it as a
  sequence in link order. `AddPatient`, `UpdatePatient`, `UnlinkFirst` (the
  `current.next` scan of the removal loop) and `RemovePatient` walk the chain
  the way the Java loops do, and their contracts are stated on the
  sequence through `FirstMatch`, the first position whose identifier matches.
  The "Patient with ID … not found." message is the `notFound` flag of the
  result.
- `EmergencyQueue` — entries kept in arrival order; `Dequeue` returns
  `None` where `dequeue` returns `null`, and otherwise an entry no other
  entry is more urgent than.
- `TreatmentHistory` — the stack as a sequence, top last.
- `DoctorAssignments` — `map<int, Doctor>`; `GetDoctor` returns `None`
  where `getDoctor` returns `null`.
- `Wrappers` — the `Option` type.

Behaviours of the code worth noting:

- `removePatient` on an empty registry returns before the scan and prints
  nothing (HospitalManagementSystem.java:74-75), so `RemovePatient` reports
  `notFound` only for a non-empty registry without a match. `updatePatient`
  on an empty registry does print the message, and `UpdatePatient` reports it.
- `java.util.PriorityQueue` fixes no order among equal priorities, so the
  contracts promise only that the returned entry is most urgent.
- Iterating a `java.util.Stack` visits the oldest entry first; the listing
  itself is left out.

## Model

| member | source | states |
|---|---|---|
| Patients.AddMedicalRecord | HospitalManagementSystem.java:20-22 | the identity fields are kept, the history grows by one, the old entries keep their places and the new entry is last |
| Patients.NewPatientHistory | HospitalManagementSystem.java:11-22 | a newly constructed patient given a run of entries has exactly those entries as its history, in order, with the constructor's identity fields |
| Patients.HistoryIsChronological | HospitalManagementSystem.java:9-22 | a run of additions leaves the history equal to the old history followed by the new entries in the order they were added, with the identity unchanged |
| PatientRecords.FirstMatch | HospitalManagementSystem.java:61-68 | the scan stops at a position holding the identifier with no earlier position holding it, and finds nothing exactly when no record holds it |
| PatientRecords.AddPatient | HospitalManagementSystem.java:46-57 | the registry becomes the old records in their order followed by the new one, with no identifier check |
| PatientRecords.AddPatientUniqueness | HospitalManagementSystem.java:46-57 | after an append the identifiers are unique if and only if they were before and the new identifier was absent, so a duplicate is accepted |
| PatientRecords.UpdatePatient | HospitalManagementSystem.java:60-70 | not found is reported exactly when no record has the identifier, and then the registry is unchanged; otherwise the sequence is the old one with the first matching position replaced by the new record, whose identifier need not match |
| PatientRecords.UpdateFrame | HospitalManagementSystem.java:62-66 | a successful update keeps the length and every position other than the first match, which now holds the new record |
| PatientRecords.UpdateKeepsUnique | HospitalManagementSystem.java:60-70 | replacing a record by one with the same identifier keeps identifiers unique |
| PatientRecords.UnlinkFirst | HospitalManagementSystem.java:80-87 | the scan finds a node exactly when some record has the identifier, and then the first such record is cut out of the sequence; otherwise the chain is unchanged |
| PatientRecords.RemovePatient | HospitalManagementSystem.java:73-89 | the first record with the identifier is cut out of the sequence; without a match the registry is unchanged, and not found is reported exactly when the registry is non-empty and has no match |
| PatientRecords.RemoveDropsOne | HospitalManagementSystem.java:73-89 | a successful removal shortens the registry by one, loses exactly the matched record from the multiset, keeps earlier records in place and moves later ones up by one |
| PatientRecords.RemoveKeepsLaterDuplicates | HospitalManagementSystem.java:80-87 | a later record with the same identifier survives the removal and is still found |
| PatientRecords.RemoveUniqueErases | HospitalManagementSystem.java:73-89 | with unique identifiers, removal leaves no record with the identifier and keeps the rest unique |
| EmergencyQueue.Compare | HospitalManagementSystem.java:118-123 | the comparator answers -1, 0 or 1, negative exactly when the first priority is smaller and positive exactly when it is larger |
| EmergencyQueue.CompareIsTotalPreorder | HospitalManagementSystem.java:120-122 | the comparator is antisymmetric and transitive |
| EmergencyQueue.Enqueue | HospitalManagementSystem.java:127-129 | the queue's multiset gains exactly the new entry |
| EmergencyQueue.Dequeue | HospitalManagementSystem.java:132-134 | an empty queue yields none and is unchanged; otherwise the result is a queued entry whose priority is at most every queued priority, and the queue loses exactly that entry |
| EmergencyQueue.DequeueAll | HospitalManagementSystem.java:118-134 | repeated dequeues serve every entry exactly once, in non-decreasing priority order |
| TreatmentHistory.AddTreatment | HospitalManagementSystem.java:153-155 | the stack grows by one with every earlier entry in place and the new entry on top |
| TreatmentHistory.LastTreatment | HospitalManagementSystem.java:158-163 | an empty stack answers "No treatments recorded."; otherwise the answer is the top entry |
| TreatmentHistory.LastAfterAdd | HospitalManagementSystem.java:153-163 | after pushing x the last treatment is x |
| TreatmentHistory.LastAfterAdds | HospitalManagementSystem.java:153-163 | after a run of pushes the stack is the old one with the new entries on top in order, and the last treatment is the last entry pushed |
| TreatmentHistory.SentinelIsAmbiguous | HospitalManagementSystem.java:158-163 | a history whose only entry is the sentinel text answers exactly like an empty one |
| DoctorAssignments.AddDoctor | HospitalManagementSystem.java:204-206 | the keys gain the doctor's identifier, which now maps to the doctor, and every other key keeps its doctor |
| DoctorAssignments.GetDoctor | HospitalManagementSystem.java:209-211 | a doctor is returned exactly when the key is present, and it is the one filed under that key |
| DoctorAssignments.GetAfterAdd | HospitalManagementSystem.java:204-211 | after adding d, looking up d's identifier gives d and every other key gives its previous answer |
| DoctorAssignments.LastWriterWins | HospitalManagementSystem.java:204-206 | two additions under one key leave only the later doctor |
| DoctorAssignments.AddKeepsFiledById | HospitalManagementSystem.java:204-206 | adding keeps every doctor filed under its own identifier |

## Left out

- `main` (HospitalManagementSystem.java:226-263): a demonstration driver with fixed data.
- `displayPatients`, `displayQueue`, `displayHistory`, `displayDoctors` and both `toString` methods: console output only.
- The "not found" console messages: modelled as the `notFound` flag, not as output.
- The binary-heap layout of `java.util.PriorityQueue` and the order among equal priorities, which that class does not fix; only minimality and the multiset of entries are modelled.
- `HashMap` hashing and iteration order: the directory is a mathematical map.
- `null` references: a `null` patient or doctor passed in (and the resulting `NullPointerException`s), and `null` strings (a `null` treatment, medical-record entry, name, contact, department or schedule). Dafny strings cannot be `null`, so the model does not cover `lastTreatment` returning a pushed `null`, nor a stored `null` history entry.
- Aliasing of one `Patient` object between the registry and the queue: records are values, so a history appended through one holder is not seen through the other.
- 32-bit `int` ranges of identifiers, ages and priorities: the code only compares them, so nothing can wrap, and unbounded integers are used.
