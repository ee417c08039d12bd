/** The doctor directory: doctors keyed by their identifier. */
module DoctorAssignments {
  import opened Wrappers

  /** A doctor record; `id` is the directory key. */
  datatype Doctor = Doctor(id: int, name: string, department: string, schedule: string)

  /** The directory: at most one doctor per key. */
  type Directory = map<int, Doctor>

  /** Every doctor is filed under its own identifier. */
  predicate FiledById(m: Directory)
  {
    forall k :: k in m ==> m[k].id == k
  }

  /** Files `d` under `d.id`, replacing any doctor already filed there; every other key is untouched. */
  function AddDoctor(m: Directory, d: Doctor): (r: Directory)
    ensures r.Keys == m.Keys + {d.id}
    ensures r[d.id] == d
    ensures forall k :: k in m && k != d.id ==> r[k] == m[k]
  {
    m[d.id := d]
  }

  /** The doctor filed under `id`, or `None` where `getDoctor` returns `null`. */
  function GetDoctor(m: Directory, id: int): (r: Option<Doctor>)
    ensures r.Some? <==> id in m
    ensures r.Some? ==> r.value == m[id]
  {
    if id in m then Some(m[id]) else None
  }

  /** Looking up after adding: the new doctor under its own key, and the old
      answer under every other key. */
  lemma GetAfterAdd(m: Directory, d: Doctor, id: int)
    ensures GetDoctor(AddDoctor(m, d), id) == if id == d.id then Some(d) else GetDoctor(m, id)
  {
  }

  /** Adding twice under the same key keeps only the later doctor. */
  lemma LastWriterWins(m: Directory, d1: Doctor, d2: Doctor)
    requires d1.id == d2.id
    ensures AddDoctor(AddDoctor(m, d1), d2) == AddDoctor(m, d2)
  {
  }

  /** Adding keeps every doctor filed under its own identifier. */
  lemma AddKeepsFiledById(m: Directory, d: Doctor)
    requires FiledById(m)
    ensures FiledById(AddDoctor(m, d))
  {
  }
}
