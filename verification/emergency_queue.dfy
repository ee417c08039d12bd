/** The emergency queue: (patient, priority) entries, served lowest priority value first. */
module EmergencyQueue {
  import opened Wrappers
  import opened Patients

  /** A queued patient; a lower `priority` value means a more critical case. */
  datatype EmergencyPatient = EmergencyPatient(patient: Patient, priority: int)

  /** The queue's entries in arrival order. Only the contents matter to the
      contract; the heap layout of `java.util.PriorityQueue` is not modelled. */
  type Queue = seq<EmergencyPatient>

  /** The queue's comparator: `Integer.compare` on the two priorities. */
  function Compare(a: EmergencyPatient, b: EmergencyPatient): (r: int)
    ensures r == -1 || r == 0 || r == 1
    ensures r < 0 <==> a.priority < b.priority
    ensures r > 0 <==> b.priority < a.priority
  {
    if a.priority < b.priority then -1 else if a.priority == b.priority then 0 else 1
  }

  /** The comparator is antisymmetric and transitive, so it orders the entries consistently. */
  lemma CompareIsTotalPreorder(a: EmergencyPatient, b: EmergencyPatient, c: EmergencyPatient)
    ensures Compare(a, b) == -Compare(b, a)
    ensures Compare(a, b) <= 0 && Compare(b, c) <= 0 ==> Compare(a, c) <= 0
  {
  }

  /** `e` is queued and no queued entry is more urgent. */
  predicate IsMostUrgent(e: EmergencyPatient, q: Queue)
  {
    e in q && forall x :: x in q ==> e.priority <= x.priority
  }

  /** Adds one entry; nothing else in the queue changes. */
  function Enqueue(q: Queue, ep: EmergencyPatient): (r: Queue)
    ensures multiset(r) == multiset(q) + multiset{ep}
  {
    q + [ep]
  }

  /** Removes and returns a most urgent entry, or `None` when the queue is empty.
      Among equal priorities this scan returns the earliest arrival, which is
      one admissible choice; the contract does not promise any tie order. */
  method Dequeue(q: Queue) returns (e: Option<EmergencyPatient>, rest: Queue)
    ensures q == [] <==> e.None?
    ensures e.None? ==> rest == q
    ensures e.Some? ==> IsMostUrgent(e.value, q)
    ensures e.Some? ==> multiset(rest) + multiset{e.value} == multiset(q)
    ensures e.Some? ==> |rest| == |q| - 1
  {
    if |q| == 0 {
      return None, q;
    }
    var best := 0;
    var i := 1;
    while i < |q|
      invariant 1 <= i <= |q|
      invariant 0 <= best < i
      invariant forall j :: 0 <= j < i ==> q[best].priority <= q[j].priority
    {
      if Compare(q[i], q[best]) < 0 {
        best := i;
      }
      i := i + 1;
    }
    e := Some(q[best]);
    rest := q[..best] + q[best + 1..];
    assert q == q[..best] + [q[best]] + q[best + 1..];
  }

  /** Dequeuing until the queue is empty serves every entry exactly once, in
      non-decreasing priority order. */
  method DequeueAll(q: Queue) returns (served: seq<EmergencyPatient>)
    ensures multiset(served) == multiset(q)
    ensures forall i, j :: 0 <= i < j < |served| ==> served[i].priority <= served[j].priority
  {
    served := [];
    var current := q;
    while current != []
      invariant multiset(served) + multiset(current) == multiset(q)
      invariant forall i, j :: 0 <= i < j < |served| ==> served[i].priority <= served[j].priority
      invariant forall i, x :: 0 <= i < |served| && x in current ==> served[i].priority <= x.priority
      decreases |current|
    {
      var e, rest := Dequeue(current);
      forall x | x in rest
        ensures x in current
      {
        assert x in multiset(rest);
        assert x in multiset(rest) + multiset{e.value};
        assert x in multiset(current);
      }
      served := served + [e.value];
      current := rest;
    }
  }
}
