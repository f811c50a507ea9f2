/** The availability ranking of src/lib/mutual-availability.ts. */
module MutualAvailability {
  import opened Ordering
  import opened Wrappers

  datatype Slot = Slot(id: string, dayOfWeek: int, startMin: int, endMin: int)

  datatype Tutee = Tutee(id: string, slotIds: Option<seq<string>>)

  datatype Status = Unavailable | NoTutees | MissingChoices | Mutual | NoCommon

  datatype Entry = Entry(slot: Slot, tutorSelected: bool, matchedTutees: nat, mutual: bool)

  datatype Ranking = Ranking(ranked: seq<Entry>, status: Status, missingTutor: bool, missingTutees: nat, totalTutees: nat)

  datatype Request = Request(slots: seq<Slot>, tutorSlotIds: Option<seq<string>>, tutees: seq<Tutee>, ready: bool)

  function Published(slots: seq<Slot>): set<string> {
    set s | s in slots :: s.id
  }

  /** The published IDs among a selection. */
  function Selected(slots: seq<Slot>, ids: Option<seq<string>>): set<string> {
    match ids
    case None => {}
    case Some(chosen) => set id | id in chosen && id in Published(slots)
  }

  /** Each student once; a later record of the same ID replaces the earlier one. */
  function Students(tutees: seq<Tutee>): map<string, Tutee> {
    if tutees == [] then map[]
    else
      var last := tutees[|tutees| - 1];
      Students(tutees[..|tutees| - 1])[last.id := last]
  }

  function Matching(r: Request, slotId: string): set<string> {
    var students := Students(r.tutees);
    set id | id in students && slotId in Selected(r.slots, students[id].slotIds)
  }

  function Missing(r: Request): set<string> {
    var students := Students(r.tutees);
    set id | id in students && Selected(r.slots, students[id].slotIds) == {}
  }

  predicate Available(r: Request) {
    r.ready && r.tutorSlotIds.Some?
  }

  function Assess(r: Request, slot: Slot): Entry {
    var students := Students(r.tutees);
    var tutorSelected := slot.id in Selected(r.slots, r.tutorSlotIds);
    var matched := |Matching(r, slot.id)|;
    Entry(slot, tutorSelected, matched,
          Available(r) && |students| > 0 && tutorSelected && matched == |students|)
  }

  /** The comparator of the ranking, as a lexicographic order. */
  predicate MayPrecede(available: bool, a: Entry, b: Entry) {
    if a.mutual != b.mutual then a.mutual
    else if available && a.tutorSelected != b.tutorSelected then a.tutorSelected
    else if available && a.matchedTutees != b.matchedTutees then a.matchedTutees > b.matchedTutees
    else if a.slot.dayOfWeek != b.slot.dayOfWeek then a.slot.dayOfWeek < b.slot.dayOfWeek
    else if a.slot.startMin != b.slot.startMin then a.slot.startMin < b.slot.startMin
    else if a.slot.endMin != b.slot.endMin then a.slot.endMin < b.slot.endMin
    else !Below(b.slot.id, a.slot.id)
  }

  function Order(available: bool): (Entry, Entry) -> bool {
    (a, b) => MayPrecede(available, a, b)
  }

  function Ranked(r: Request): seq<Entry> {
    SortBy(Order(Available(r)), Map(slot => Assess(r, slot), r.slots))
  }

  function StatusOf(r: Request): Status {
    if !Available(r) then Unavailable
    else if Students(r.tutees) == map[] then NoTutees
    else if Selected(r.slots, r.tutorSlotIds) == {} || Missing(r) != {} then MissingChoices
    else if exists i :: 0 <= i < |Ranked(r)| && Ranked(r)[i].mutual then Mutual
    else NoCommon
  }

  /** `rankMutualAvailability`. */
  function Rank(r: Request): Ranking {
    Ranking(Ranked(r), StatusOf(r), Selected(r.slots, r.tutorSlotIds) == {}, |Missing(r)|, |Students(r.tutees)|)
  }

  lemma OrderIsTotal(available: bool)
    ensures TotalPreorder(Order(available))
  {
    var le := Order(available);
    forall a, b ensures le(a, b) || le(b, a) { BelowTrichotomy(a.slot.id, b.slot.id); }
    forall a, b, c | le(a, b) && le(b, c) ensures le(a, c) {
      BelowTrichotomy(a.slot.id, b.slot.id);
      BelowTrichotomy(b.slot.id, c.slot.id);
      BelowTrichotomy(a.slot.id, c.slot.id);
      if Below(c.slot.id, a.slot.id) && Below(a.slot.id, b.slot.id) {
        BelowTransitive(c.slot.id, a.slot.id, b.slot.id);
      }
    }
  }

  /** The ranking assesses every catalogue slot once, in sorted order, mutual slots first. */
  lemma RankingIsSorted(r: Request)
    ensures multiset(Ranked(r)) == multiset(Map(slot => Assess(r, slot), r.slots))
    ensures SortedBy(Order(Available(r)), Ranked(r))
    ensures forall i, j :: 0 <= i < j < |Ranked(r)| && Ranked(r)[j].mutual ==> Ranked(r)[i].mutual
  {
    OrderIsTotal(Available(r));
    SortBySorted(Order(Available(r)), Map(slot => Assess(r, slot), r.slots));
    var ranked := Ranked(r);
    forall i, j | 0 <= i < j < |ranked| && ranked[j].mutual ensures ranked[i].mutual {
      assert Order(Available(r))(ranked[i], ranked[j]);
    }
  }

  ghost predicate UniqueIds(slots: seq<Slot>) {
    forall s, t :: s in slots && t in slots && s.id == t.id ==> s == t
  }

  lemma SameElements<T>(a: seq<T>, b: seq<T>)
    requires multiset(a) == multiset(b)
    ensures forall x :: x in a <==> x in b
  {
    forall x ensures x in a <==> x in b { assert x in multiset(a) <==> x in multiset(b); }
  }

  /** The published IDs, and so every assessment, do not depend on the catalogue's order. */
  lemma AssessmentIgnoresOrder(r: Request, q: Request)
    requires multiset(r.slots) == multiset(q.slots) && q == r.(slots := q.slots)
    ensures forall slot :: Assess(q, slot) == Assess(r, slot)
    ensures Missing(q) == Missing(r) && Selected(q.slots, q.tutorSlotIds) == Selected(r.slots, r.tutorSlotIds)
  {
    SameElements(r.slots, q.slots);
    assert Published(q.slots) == Published(r.slots);
    forall ids ensures Selected(q.slots, ids) == Selected(r.slots, ids) { }
    forall id ensures Matching(q, id) == Matching(r, id) { }
  }

  lemma RankedIgnoresOrder(r: Request, q: Request)
    requires multiset(r.slots) == multiset(q.slots) && q == r.(slots := q.slots)
    requires UniqueIds(r.slots)
    ensures Ranked(q) == Ranked(r)
  {
    AssessmentIgnoresOrder(r, q);
    var assessR, assessQ := (slot: Slot) => Assess(r, slot), (slot: Slot) => Assess(q, slot);
    assert Map(assessQ, q.slots) == Map(assessR, q.slots);
    MapPermutation(assessR, r.slots, q.slots);
    RankingIsSorted(r);
    RankingIsSorted(q);
    var s := Ranked(r);
    forall a, b | a in s && b in s && Order(Available(r))(a, b) && Order(Available(r))(b, a) ensures a == b {
      RankedSlot(r, a);
      RankedSlot(r, b);
      TiesShareId(Available(r), a, b);
    }
    SortedUnique(Order(Available(r)), s, Ranked(q));
  }

  /** With unique slot IDs the whole report does not depend on the order of the catalogue. */
  lemma CatalogueOrderIrrelevant(r: Request, q: Request)
    requires multiset(r.slots) == multiset(q.slots) && q == r.(slots := q.slots)
    requires UniqueIds(r.slots)
    ensures Rank(q) == Rank(r)
  {
    AssessmentIgnoresOrder(r, q);
    RankedIgnoresOrder(r, q);
  }

  lemma TiesShareId(available: bool, a: Entry, b: Entry)
    requires MayPrecede(available, a, b) && MayPrecede(available, b, a)
    ensures a.slot.id == b.slot.id
  {
    BelowTrichotomy(a.slot.id, b.slot.id);
  }

  lemma RankedSlot(r: Request, e: Entry)
    requires e in Ranked(r)
    ensures e.slot in r.slots && e == Assess(r, e.slot)
  {
    var entries := Map(slot => Assess(r, slot), r.slots);
    SameElements(Ranked(r), entries);
    var i :| 0 <= i < |entries| && entries[i] == e;
    assert e == Assess(r, r.slots[i]);
  }

  lemma {:induction false} FullMatch(students: map<string, Tutee>, matching: set<string>)
    requires matching <= students.Keys && |matching| == |students|
    ensures matching == students.Keys
  {
    if matching != students.Keys {
      var id :| id in students.Keys && id !in matching;
      SubsetSmaller(matching, students.Keys - {id});
    }
  }

  lemma {:induction false} SubsetSmaller<T>(a: set<T>, b: set<T>)
    requires a <= b
    ensures |a| <= |b|
  {
    if a != {} {
      var x :| x in a;
      SubsetSmaller(a - {x}, b - {x});
    }
  }

  /** A mutual slot leaves no choice missing. */
  lemma MutualLeavesNothingMissing(r: Request, e: Entry)
    requires e in Ranked(r) && e.mutual
    ensures Available(r) && Students(r.tutees) != map[]
    ensures Selected(r.slots, r.tutorSlotIds) != {} && Missing(r) == {}
  {
    RankedSlot(r, e);
    var students := Students(r.tutees);
    FullMatch(students, Matching(r, e.slot.id));
    forall id | id in students ensures Selected(r.slots, students[id].slotIds) != {} {
      assert id in Matching(r, e.slot.id);
    }
  }

  /** The status is `Mutual` exactly when the first ranked slot is mutual; in particular missing
      choices never hide a mutual slot. */
  lemma StatusTellsFirstSlot(r: Request)
    ensures var result := Rank(r); result.status == Mutual <==> result.ranked != [] && result.ranked[0].mutual
    ensures var result := Rank(r); result.status == Mutual ==> !result.missingTutor && result.missingTutees == 0
    ensures var result := Rank(r);
            result.status == MissingChoices ==> forall i :: 0 <= i < |result.ranked| ==> !result.ranked[i].mutual
  {
    RankingIsSorted(r);
    var ranked := Rank(r).ranked;
    if i :| 0 <= i < |ranked| && ranked[i].mutual {
      MutualLeavesNothingMissing(r, ranked[i]);
      assert ranked[0].mutual;
    }
  }

  // ----- the report in the terms of its inputs -----

  /** The last record of a student. */
  ghost predicate LastRecord(tutees: seq<Tutee>, i: int) {
    0 <= i < |tutees| && forall j :: i < j < |tutees| ==> tutees[j].id != tutees[i].id
  }

  lemma {:induction false} StudentsAreLast(tutees: seq<Tutee>, id: string)
    ensures id in Students(tutees)
            <==> exists i :: LastRecord(tutees, i) && tutees[i].id == id
    ensures forall i :: LastRecord(tutees, i) && tutees[i].id == id ==> Students(tutees)[id] == tutees[i]
  {
    if tutees != [] {
      var n := |tutees| - 1;
      StudentsAreLast(tutees[..n], id);
      assert LastRecord(tutees, n);
      if tutees[n].id != id {
        forall i | 0 <= i < n && tutees[i].id == id ensures LastRecord(tutees, i) <==> LastRecord(tutees[..n], i) { }
      }
    }
  }

  /** A choice that names a slot of the catalogue. */
  predicate Chooses(slots: seq<Slot>, ids: Option<seq<string>>, id: string) {
    ids.Some? && id in ids.value && exists i :: 0 <= i < |slots| && slots[i].id == id
  }

  lemma SelectedIff(slots: seq<Slot>, ids: Option<seq<string>>, id: string)
    ensures id in Selected(slots, ids) <==> Chooses(slots, ids, id)
  {
    if ids.Some? && id in ids.value {
      if i :| 0 <= i < |slots| && slots[i].id == id { assert slots[i] in slots; }
    }
  }

  ghost predicate EveryStudentChooses(r: Request, id: string) {
    forall i :: LastRecord(r.tutees, i) ==> Chooses(r.slots, r.tutees[i].slotIds, id)
  }

  /** A slot is mutual exactly when everything is known, there is a student, and the tutor and every
      student have chosen it. */
  lemma MutualIff(r: Request, slot: Slot)
    ensures Assess(r, slot).mutual
            <==> r.ready && r.tutorSlotIds.Some? && r.tutees != [] && Chooses(r.slots, r.tutorSlotIds, slot.id)
                 && EveryStudentChooses(r, slot.id)
    ensures Assess(r, slot).slot == slot
            && (Assess(r, slot).tutorSelected <==> Chooses(r.slots, r.tutorSlotIds, slot.id))
  {
    var students, matching := Students(r.tutees), Matching(r, slot.id);
    SelectedIff(r.slots, r.tutorSlotIds, slot.id);
    HasStudents(r.tutees);
    forall id ensures id in matching <==> id in students && Chooses(r.slots, students[id].slotIds, slot.id) {
      if id in students { SelectedIff(r.slots, students[id].slotIds, slot.id); }
    }
    if |matching| == |students| { FullMatch(students, matching); }
    forall i | LastRecord(r.tutees, i)
      ensures r.tutees[i].id in students && students[r.tutees[i].id] == r.tutees[i]
    {
      StudentsAreLast(r.tutees, r.tutees[i].id);
    }
    if EveryStudentChooses(r, slot.id) {
      forall id | id in students ensures id in matching {
        StudentsAreLast(r.tutees, id);
        var i :| LastRecord(r.tutees, i) && r.tutees[i].id == id;
      }
      assert matching == students.Keys;
    }
  }

  lemma HasStudents(tutees: seq<Tutee>)
    ensures Students(tutees) == map[] <==> tutees == []
  {
    if tutees != [] { assert tutees[|tutees| - 1].id in Students(tutees); }
  }

  /** Of two slots the first is ranked no lower: it is mutual if the other is; among equals, and
      only while choices are known, the tutor's choice and then the number of students count; then
      the day, the start, the end and the identity. */
  ghost predicate RankedBefore(known: bool, a: Entry, b: Entry) {
    && (b.mutual ==> a.mutual)
    && (a.mutual == b.mutual ==>
          && (known && b.tutorSelected ==> a.tutorSelected)
          && (known && a.tutorSelected == b.tutorSelected ==> a.matchedTutees >= b.matchedTutees)
          && (!known || (a.tutorSelected == b.tutorSelected && a.matchedTutees == b.matchedTutees) ==>
                SlotBefore(a.slot, b.slot)))
  }

  ghost predicate SlotBefore(a: Slot, b: Slot) {
    || a.dayOfWeek < b.dayOfWeek
    || (a.dayOfWeek == b.dayOfWeek && a.startMin < b.startMin)
    || (a.dayOfWeek == b.dayOfWeek && a.startMin == b.startMin && a.endMin < b.endMin)
    || (a.dayOfWeek == b.dayOfWeek && a.startMin == b.startMin && a.endMin == b.endMin
        && (a.id == b.id || exists n :: DecidedAt(a.id, b.id, n)))
  }

  lemma RankingOrder(r: Request, i: nat, j: nat)
    requires i < j < |Rank(r).ranked|
    ensures RankedBefore(r.ready && r.tutorSlotIds.Some?, Rank(r).ranked[i], Rank(r).ranked[j])
  {
    RankingIsSorted(r);
    var a, b := Rank(r).ranked[i], Rank(r).ranked[j];
    assert Order(Available(r))(a, b);
    BelowTrichotomy(a.slot.id, b.slot.id);
    BelowIsLexicographic(a.slot.id, b.slot.id);
  }

  ghost predicate StudentWithoutChoice(r: Request, i: int) {
    LastRecord(r.tutees, i) && forall id :: !Chooses(r.slots, r.tutees[i].slotIds, id)
  }

  /** When each status is reported. */
  lemma StatusIff(r: Request)
    ensures var known := r.ready && r.tutorSlotIds.Some?;
            var missing := (forall id :: !Chooses(r.slots, r.tutorSlotIds, id)) || exists i :: StudentWithoutChoice(r, i);
            && (StatusOf(r) == Unavailable <==> !known)
            && (StatusOf(r) == NoTutees <==> known && r.tutees == [])
            && (StatusOf(r) == MissingChoices <==> known && r.tutees != [] && missing)
            && (StatusOf(r) == Mutual ==> exists i :: 0 <= i < |r.slots| && Assess(r, r.slots[i]).mutual)
            && (StatusOf(r) == NoCommon ==> forall i :: 0 <= i < |r.slots| ==> !Assess(r, r.slots[i]).mutual)
  {
    HasStudents(r.tutees);
    forall id ensures id in Selected(r.slots, r.tutorSlotIds) <==> Chooses(r.slots, r.tutorSlotIds, id) {
      SelectedIff(r.slots, r.tutorSlotIds, id);
    }
    MissingIff(r);
    RankedIffAssessed(r);
  }

  lemma MissingIff(r: Request)
    ensures Missing(r) != {} <==> exists i :: StudentWithoutChoice(r, i)
  {
    var students := Students(r.tutees);
    if id :| id in Missing(r) {
      StudentsAreLast(r.tutees, id);
      var i :| LastRecord(r.tutees, i) && r.tutees[i].id == id;
      forall other ensures !Chooses(r.slots, r.tutees[i].slotIds, other) {
        SelectedIff(r.slots, r.tutees[i].slotIds, other);
      }
      assert StudentWithoutChoice(r, i);
    }
    if i :| StudentWithoutChoice(r, i) {
      var id := r.tutees[i].id;
      StudentsAreLast(r.tutees, id);
      forall other ensures other !in Selected(r.slots, students[id].slotIds) {
        SelectedIff(r.slots, students[id].slotIds, other);
      }
      assert id in Missing(r);
    }
  }

  lemma RankedIffAssessed(r: Request)
    ensures (exists i :: 0 <= i < |Ranked(r)| && Ranked(r)[i].mutual)
            <==> exists i :: 0 <= i < |r.slots| && Assess(r, r.slots[i]).mutual
  {
    var entries := Map(slot => Assess(r, slot), r.slots);
    SameElements(Ranked(r), entries);
    if i :| 0 <= i < |Ranked(r)| && Ranked(r)[i].mutual {
      assert Ranked(r)[i] in Ranked(r);
      var k :| 0 <= k < |entries| && entries[k] == Ranked(r)[i];
      assert Assess(r, r.slots[k]).mutual;
    }
    if i :| 0 <= i < |r.slots| && Assess(r, r.slots[i]).mutual {
      assert entries[i] in entries;
      assert entries[i] in Ranked(r);
    }
  }
}
