/** The patient registry: a singly linked chain of patient records, scanned from the head. */
module PatientRecords {
  import opened Wrappers
  import opened Patients

  /** The chain starting at `head`: every node holds one patient and the link to the next node. */
  datatype Chain = Nil | Node(patient: Patient, next: Chain)

  /** Result of an update or removal: the new chain, and whether the
      "Patient with ID ... not found." message is emitted. */
  datatype Edited = Edited(chain: Chain, notFound: bool)

  /** Result of the removal scan: the new chain, and whether a matching node was unlinked. */
  datatype Unlinked = Unlinked(chain: Chain, found: bool)

  /** The records in link order, as a traversal from the head visits them. */
  function Elements(c: Chain): seq<Patient>
  {
    match c
    case Nil => []
    case Node(p, next) => [p] + Elements(next)
  }

  /** No two records share an identifier. The registry does not enforce this; callers may. */
  predicate UniqueIds(s: seq<Patient>)
  {
    forall i, j :: 0 <= i < j < |s| ==> s[i].id != s[j].id
  }

  /** Position of the first record whose identifier is `id`, as a front-to-back scan finds it. */
  function FirstMatch(s: seq<Patient>, id: int): (r: Option<nat>)
    ensures r.Some? ==> r.value < |s| && s[r.value].id == id
    ensures r.Some? ==> forall j :: 0 <= j < r.value ==> s[j].id != id
    ensures r.None? <==> forall j :: 0 <= j < |s| ==> s[j].id != id
  {
    if |s| == 0 then None
    else if s[0].id == id then Some(0)
    else match FirstMatch(s[1..], id)
      case None => None
      case Some(i) => Some(i + 1)
  }

  /** Scanning a chain that starts with `p` either stops at `p` or continues into the rest. */
  lemma FirstMatchCons(p: Patient, s: seq<Patient>, id: int)
    ensures FirstMatch([p] + s, id) ==
      if p.id == id then Some(0)
      else match FirstMatch(s, id)
        case None => None
        case Some(i) => Some(i + 1)
  {
    assert ([p] + s)[1..] == s;
  }

  /** When the head does not match, the first match of `[p] + s` is one position after that of `s`. */
  lemma MatchBehindHead(p: Patient, s: seq<Patient>, id: int)
    requires p.id != id
    requires FirstMatch(s, id).Some?
    ensures FirstMatch([p] + s, id) == Some(FirstMatch(s, id).value + 1)
  {
    FirstMatchCons(p, s, id);
  }

  /** Dropping position `i + 1` of `[p] + s` keeps `p` in front of `s` with position `i` dropped. */
  lemma DropBehindHead(p: Patient, s: seq<Patient>, i: nat)
    requires i < |s|
    ensures ([p] + s)[..i + 1] + ([p] + s)[i + 2..] == [p] + (s[..i] + s[i + 1..])
  {
    var t := [p] + s;
    assert t[..i + 1] == [p] + s[..i];
    assert t[i + 2..] == s[i + 1..];
  }

  /** Replacing position `i + 1` of `[p] + s` keeps `p` in front of `s` with position `i` replaced. */
  lemma ReplaceBehindHead(p: Patient, s: seq<Patient>, i: nat, q: Patient)
    requires i < |s|
    ensures ([p] + s)[i + 1 := q] == [p] + s[i := q]
  {
  }

  /** Links a new node holding `p` after the last node; no identifier check is made. */
  function AddPatient(c: Chain, p: Patient): (r: Chain)
    ensures Elements(r) == Elements(c) + [p]
  {
    match c
    case Nil => Node(p, Nil)
    case Node(q, next) => Node(q, AddPatient(next, p))
  }

  /** Replaces the record held by the first node whose record has identifier `id`. */
  function UpdatePatient(c: Chain, id: int, updated: Patient): (r: Edited)
    ensures r.notFound <==> FirstMatch(Elements(c), id).None?
    ensures r.notFound ==> r.chain == c
    ensures !r.notFound ==> Elements(r.chain) == Elements(c)[FirstMatch(Elements(c), id).value := updated]
  {
    match c
    case Nil => Edited(Nil, true)
    case Node(p, next) =>
      FirstMatchCons(p, Elements(next), id);
      if p.id == id then
        assert Elements(c)[0 := updated] == [updated] + Elements(next);
        Edited(Node(updated, next), false)
      else
        var u := UpdatePatient(next, id, updated);
        if u.notFound then Edited(Node(p, u.chain), true)
        else
          MatchBehindHead(p, Elements(next), id);
          ReplaceBehindHead(p, Elements(next), FirstMatch(Elements(next), id).value, updated);
          Edited(Node(p, u.chain), false)
  }

  /** The scan of the removal loop, which looks at `current.next`: unlinks the
      first node of `c` whose record has identifier `id`, and says whether one was found. */
  function UnlinkFirst(c: Chain, id: int): (r: Unlinked)
    ensures r.found <==> FirstMatch(Elements(c), id).Some?
    ensures !r.found ==> r.chain == c
    ensures r.found ==>
      var i := FirstMatch(Elements(c), id).value;
      Elements(r.chain) == Elements(c)[..i] + Elements(c)[i + 1..]
  {
    match c
    case Nil => Unlinked(Nil, false)
    case Node(p, next) =>
      FirstMatchCons(p, Elements(next), id);
      if p.id == id then Unlinked(next, true)
      else
        var u := UnlinkFirst(next, id);
        if u.found then
          MatchBehindHead(p, Elements(next), id);
          DropBehindHead(p, Elements(next), FirstMatch(Elements(next), id).value);
          Unlinked(Node(p, u.chain), true)
        else Unlinked(Node(p, u.chain), false)
  }

  /** Removes the first record whose identifier is `id`. The head is handled
      before the scan; an empty registry returns at once without any message. */
  function RemovePatient(c: Chain, id: int): (r: Edited)
    ensures r.notFound <==> c != Nil && FirstMatch(Elements(c), id).None?
    ensures FirstMatch(Elements(c), id).None? ==> r.chain == c
    ensures FirstMatch(Elements(c), id).Some? ==>
      var i := FirstMatch(Elements(c), id).value;
      Elements(r.chain) == Elements(c)[..i] + Elements(c)[i + 1..]
  {
    match c
    case Nil => Edited(Nil, false)
    case Node(p, next) =>
      FirstMatchCons(p, Elements(next), id);
      if p.id == id then
        assert Elements(c)[..0] + Elements(c)[1..] == Elements(next);
        Edited(next, false)
      else
        var u := UnlinkFirst(next, id);
        if u.found then
          MatchBehindHead(p, Elements(next), id);
          DropBehindHead(p, Elements(next), FirstMatch(Elements(next), id).value);
          Edited(Node(p, u.chain), false)
        else Edited(Node(p, u.chain), true)
  }

  /** Appending keeps identifiers unique exactly when the new identifier is not
      already present: adding a duplicate is accepted and breaks uniqueness. */
  lemma AddPatientUniqueness(c: Chain, p: Patient)
    ensures UniqueIds(Elements(AddPatient(c, p))) <==>
      UniqueIds(Elements(c)) && FirstMatch(Elements(c), p.id).None?
  {
    var s := Elements(c);
    var t := Elements(AddPatient(c, p));
    assert t[..|s|] == s;
    if UniqueIds(t) {
      forall j | 0 <= j < |s|
        ensures s[j].id != p.id
      {
        assert t[j] == s[j] && t[|s|] == p;
      }
    }
  }

  /** Dropping position `i` of `s` loses exactly `s[i]` and shifts the tail down by one. */
  lemma SkipAt(s: seq<Patient>, i: nat)
    requires i < |s|
    ensures var t := s[..i] + s[i + 1..];
      && |t| == |s| - 1
      && multiset(t) + multiset{s[i]} == multiset(s)
      && (forall k :: 0 <= k < i ==> t[k] == s[k])
      && (forall k :: i <= k < |t| ==> t[k] == s[k + 1])
  {
    assert s == s[..i] + [s[i]] + s[i + 1..];
  }

  /** A successful removal shortens the registry by one and loses exactly the
      matched record; records before it stay in place and later ones move up by one. */
  lemma RemoveDropsOne(c: Chain, id: int)
    requires FirstMatch(Elements(c), id).Some?
    ensures var s := Elements(c);
      var t := Elements(RemovePatient(c, id).chain);
      var i := FirstMatch(s, id).value;
      && |t| == |s| - 1
      && multiset(t) + multiset{s[i]} == multiset(s)
      && (forall k :: 0 <= k < i ==> t[k] == s[k])
      && (forall k :: i <= k < |t| ==> t[k] == s[k + 1])
  {
    var s := Elements(c);
    SkipAt(s, FirstMatch(s, id).value);
  }

  /** Later records with the same identifier survive a removal: only the first one goes. */
  lemma RemoveKeepsLaterDuplicates(c: Chain, id: int, j: nat)
    requires FirstMatch(Elements(c), id).Some?
    requires FirstMatch(Elements(c), id).value < j < |Elements(c)|
    requires Elements(c)[j].id == id
    ensures Elements(RemovePatient(c, id).chain)[j - 1] == Elements(c)[j]
    ensures FirstMatch(Elements(RemovePatient(c, id).chain), id).Some?
  {
    var t := Elements(RemovePatient(c, id).chain);
    RemoveDropsOne(c, id);
    assert t[j - 1].id == id;
  }

  /** With unique identifiers, removing `id` erases it from the registry and
      keeps the survivors unique. */
  lemma RemoveUniqueErases(c: Chain, id: int)
    requires UniqueIds(Elements(c))
    ensures UniqueIds(Elements(RemovePatient(c, id).chain))
    ensures FirstMatch(Elements(RemovePatient(c, id).chain), id).None?
  {
    var s := Elements(c);
    var t := Elements(RemovePatient(c, id).chain);
    if FirstMatch(s, id).Some? {
      var i := FirstMatch(s, id).value;
      RemoveDropsOne(c, id);
      forall a, b | 0 <= a < b < |t|
        ensures t[a].id != t[b].id
      {
        var a' := if a < i then a else a + 1;
        var b' := if b < i then b else b + 1;
        assert t[a] == s[a'] && t[b] == s[b'];
      }
      forall k | 0 <= k < |t|
        ensures t[k].id != id
      {
        var k' := if k < i then k else k + 1;
        assert t[k] == s[k'];
      }
    }
  }

  /** A successful update touches one position only: the length and every
      other position are unchanged, and the first match now holds the new record. */
  lemma UpdateFrame(c: Chain, id: int, updated: Patient)
    ensures FirstMatch(Elements(c), id).Some? ==>
      var s := Elements(c);
      var t := Elements(UpdatePatient(c, id, updated).chain);
      var i := FirstMatch(s, id).value;
      && |t| == |s|
      && t[i] == updated
      && forall j :: 0 <= j < |s| && j != i ==> t[j] == s[j]
  {
  }

  /** Replacing a record by one with the same identifier keeps identifiers unique. */
  lemma UpdateKeepsUnique(c: Chain, id: int, updated: Patient)
    requires UniqueIds(Elements(c))
    requires updated.id == id
    ensures UniqueIds(Elements(UpdatePatient(c, id, updated).chain))
  {
    var s := Elements(c);
    var t := Elements(UpdatePatient(c, id, updated).chain);
    if FirstMatch(s, id).Some? {
      var i := FirstMatch(s, id).value;
      forall k | 0 <= k < |t|
        ensures t[k].id == s[k].id
      {
        if k == i {
          assert t[k] == updated;
        } else {
          assert t[k] == s[k];
        }
      }
    }
  }
}
