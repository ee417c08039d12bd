/** A patient's treatment history: a stack of free-text entries that only grows. */
module TreatmentHistory {

  /** The stack's entries, bottom (oldest) first; the top is the last element. */
  datatype History = History(treatments: seq<string>)

  /** What `lastTreatment` answers when nothing has been pushed yet. */
  const NoTreatments: string := "No treatments recorded."

  /** A new history holds no treatments. */
  const Empty: History := History([])

  /** Pushes an entry on top of the stack; every earlier entry stays where it was. */
  function AddTreatment(h: History, treatment: string): (r: History)
    ensures |r.treatments| == |h.treatments| + 1
    ensures r.treatments[..|h.treatments|] == h.treatments
    ensures r.treatments[|h.treatments|] == treatment
  {
    History(h.treatments + [treatment])
  }

  /** Pushes the entries in order, first to last. */
  function AddTreatments(h: History, treatments: seq<string>): History
    decreases |treatments|
  {
    if treatments == [] then h else AddTreatments(AddTreatment(h, treatments[0]), treatments[1..])
  }

  /** Peeks at the top of the stack, or answers `NoTreatments` when it is empty. */
  function LastTreatment(h: History): (s: string)
    ensures h.treatments == [] ==> s == NoTreatments
    ensures h.treatments != [] ==> s == h.treatments[|h.treatments| - 1]
  {
    if h.treatments != [] then h.treatments[|h.treatments| - 1] else NoTreatments
  }

  /** Right after `AddTreatment(h, x)`, the last treatment is `x`. */
  lemma LastAfterAdd(h: History, x: string)
    ensures LastTreatment(AddTreatment(h, x)) == x
  {
  }

  /** After a run of pushes the stack is the old one with the new entries on
      top in order, and the last treatment is the last entry pushed (or the old
      answer when nothing was pushed). */
  lemma {:induction false} LastAfterAdds(h: History, xs: seq<string>)
    ensures AddTreatments(h, xs).treatments == h.treatments + xs
    ensures LastTreatment(AddTreatments(h, xs)) == if xs == [] then LastTreatment(h) else xs[|xs| - 1]
    decreases |xs|
  {
    if xs != [] {
      LastAfterAdds(AddTreatment(h, xs[0]), xs[1..]);
      assert h.treatments + [xs[0]] + xs[1..] == h.treatments + xs;
    }
  }

  /** The empty-history answer is an ordinary string: a history whose top entry
      is that very text answers the same as an empty one. */
  lemma SentinelIsAmbiguous()
    ensures LastTreatment(AddTreatment(Empty, NoTreatments)) == LastTreatment(Empty)
  {
  }
}
