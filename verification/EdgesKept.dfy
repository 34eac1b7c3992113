/** What a roster import leaves of the stored edges, and which ones it adds. */
module EdgesKept {
  import opened Rows
  import opened Roster
  import opened RosterOutcomes
  import opened Database
  import opened Writes
  import opened RosterCommit
  import opened RosterKept
  import opened RosterImport
  import opened RosterEdges

  /** The edge is up for removal, and its adult is not in conflict. */
  ghost predicate Removed(doc: Document, st: Snapshot, r: Relationship) {
    Omitted(doc, st, r) && exists a :: a in doc.adults && a.id == StoredKey(st, r).0 && AdultOutcome(st, a) != Conflict
  }

  /** The document lists the edge, between people not in conflict. */
  ghost predicate Lists(doc: Document, st: Snapshot, r: Relationship, e: SourceEdge) {
    e in doc.edges && EdgeOutcome(doc, st, e) != Conflict && Joins(st, r, e)
  }

  /** An edge of the document that no stored edge stood for, now stored between the active people it names. */
  ghost predicate Added(doc: Document, st: Snapshot, after: Snapshot, q: Relationship, e: SourceEdge) {
    && e in doc.edges && EdgeOutcome(doc, st, e) == Create && q.kind == e.kind
    && (exists a :: a in after.adults && !a.deleted && a.id == q.adultId && Bears(a.externalId, e.adultId))
    && (exists s :: s in after.students && !s.deleted && s.id == q.studentId && Bears(s.externalId, e.studentId))
  }

  /** What remains of a stored edge: the same row, of the kind the document lists if it lists the edge. */
  ghost predicate Remains(doc: Document, st: Snapshot, r: Relationship, q: Relationship) {
    && q.id == r.id && EdgeIds(q) == EdgeIds(r)
    && (forall e :: Lists(doc, st, r, e) ==> q.kind == e.kind)
    && ((forall e :: !Lists(doc, st, r, e)) ==> q == r)
  }

  /** Exactly the edges to be removed are gone, the other stored edges remain, and each new edge of the document is there. */
  ghost predicate EdgesAfter(doc: Document, st: Snapshot, after: Snapshot) {
    && (forall r, q :: r in st.relationships && q in after.relationships && Removed(doc, st, r) ==> q.id != r.id)
    && (forall r :: r in st.relationships && !Removed(doc, st, r) ==> exists q :: q in after.relationships && Remains(doc, st, r, q))
    && (forall e :: e in doc.edges && EdgeOutcome(doc, st, e) == Create ==> exists q :: q in after.relationships && Added(doc, st, after, q, e))
    && (forall q :: q in after.relationships ==>
         (exists r :: r in st.relationships && r.id == q.id) || (exists e :: Added(doc, st, after, q, e)))
  }

  lemma InAdultOf(doc: Document, st: Snapshot, now: seq<Adult>, adultOf: map<string, Adult>, floor: nat, x: string)
    requires WellFormed(doc) && NoErrors(doc, st) && AdultsDone(st, doc.adults, now, adultOf) && Grown(st.adults, now, AdultId, AdultKey, floor)
    ensures x in adultOf <==> exists a :: a in doc.adults && a.id == x && AdultOutcome(st, a) != Conflict
  {
    hide AdultOutcome, AdultsDone, Matching, WellFormed, Grown;
    OnlyListed(doc, st, now, adultOf);
    forall a | a in doc.adults
      ensures a.id in adultOf <==> AdultOutcome(st, a) != Conflict
    {
      WrittenAdult(doc, st, now, adultOf, floor, a);
    }
  }

  lemma OnlyListed(doc: Document, st: Snapshot, now: seq<Adult>, adultOf: map<string, Adult>)
    requires AdultsDone(st, doc.adults, now, adultOf)
    ensures forall x :: x in adultOf ==> exists a :: a in doc.adults && a.id == x
  {
    hide Matching, AdultOutcome, AdultWritten;
    forall x | x in adultOf
      ensures exists a :: a in doc.adults && a.id == x
    {
      var a :| a in doc.adults && SourceAdultId(a) == x;
    }
  }

  lemma RemovedIsDeleted(doc: Document, st: Snapshot, now: seq<Adult>, adultOf: map<string, Adult>, floor: nat, r: Relationship)
    requires WellFormed(doc) && NoErrors(doc, st) && AdultsDone(st, doc.adults, now, adultOf) && Grown(st.adults, now, AdultId, AdultKey, floor)
    requires r in st.relationships
    ensures Deleted(doc, st, adultOf, r) <==> Removed(doc, st, r)
  {
    hide AdultOutcome, AdultsDone, WellFormed, Grown, NoErrors, StoredKey, Omitted;
    InAdultOf(doc, st, now, adultOf, floor, StoredKey(st, r).0);
  }

  /** A live edge stands for the stored edges that join the bearers of its identifiers. */
  lemma ListsPair(doc: Document, st: Snapshot, after: Snapshot, adultOf: map<string, Adult>, studentOf: map<string, Student>,
                  floor: nat, e: SourceEdge, r: Relationship)
    requires Consistent(st.adults, st.students, st.relationships, floor) && NoErrors(doc, st)
    requires PeopleDone(doc, st, after.adults, after.students, adultOf, studentOf, floor)
    requires e in doc.edges && EdgeOutcome(doc, st, e) != Conflict && r in st.relationships
    ensures Joins(st, r, e) <==> EdgeIds(r) == PairOf(adultOf, studentOf, e)
  {
    hide EdgeOutcome, AdultOutcome, StudentOutcome, AdultsDone, StudentsDone, Grown, AdultKey, StudentKey, Matching, WellFormed, Joins, Consistent, Unique;
    LiveEdge(doc, st, after.adults, after.students, adultOf, studentOf, floor, e);
    var a, s := EdgeEnds(doc, st, e);
    WrittenAdult(doc, st, after.adults, adultOf, floor, a);
    WrittenStudent(doc, st, after.students, studentOf, floor, s);
    WellNamed(doc, a, s);
    JoinsPair(st, r, e);
    assert r.adultId < floor && r.studentId < floor;
  }

  lemma WellNamed(doc: Document, a: SourceAdult, s: SourceStudent)
    requires WellFormed(doc) && a in doc.adults && s in doc.students
    ensures a.id != "" && s.id != ""
  {
  }

  /** What the bookkeeping says of a stored edge: written over by the live edge for its pair, or as it was. */
  lemma EdgeKeptInTable(doc: Document, st: Snapshot, adultOf: map<string, Adult>, studentOf: map<string, Student>,
                        written: seq<Relationship>, rowOf: map<(nat, nat), Relationship>, r: Relationship)
    requires EdgesDone(st, Live(doc, st, doc.edges), written, adultOf, studentOf, rowOf)
    requires Unique(st.relationships, EdgeIds) && r in st.relationships
    ensures forall e :: e in doc.edges && EdgeOutcome(doc, st, e) != Conflict && PairOf(adultOf, studentOf, e) == EdgeIds(r) ==>
      EdgeIds(r) in rowOf && var q := rowOf[EdgeIds(r)]; q in written && q.id == r.id && EdgeIds(q) == EdgeIds(r) && q.kind == e.kind
    ensures (forall e :: e in doc.edges && EdgeOutcome(doc, st, e) != Conflict ==> PairOf(adultOf, studentOf, e) != EdgeIds(r)) ==> r in written
  {
    hide EdgeOutcome, Matching, PairOf, Live;
    LiveMembers(doc, st, doc.edges);
    MatchingOne(st.relationships, EdgeIds, r);
    MatchingMembers(written, EdgeIds, EdgeIds(r));
    assert r in [r];
    forall e | e in doc.edges && EdgeOutcome(doc, st, e) != Conflict && PairOf(adultOf, studentOf, e) == EdgeIds(r)
      ensures EdgeIds(r) in rowOf && var q := rowOf[EdgeIds(r)]; q in written && q.id == r.id && EdgeIds(q) == EdgeIds(r) && q.kind == e.kind
    {
      assert e in Live(doc, st, doc.edges);
      assert rowOf[EdgeIds(r)] in Matching(written, EdgeIds, EdgeIds(r));
    }
  }

  lemma StoredRemains(doc: Document, st: Snapshot, after: Snapshot, floor: nat, adultOf: map<string, Adult>, studentOf: map<string, Student>,
                      written: seq<Relationship>, rowOf: map<(nat, nat), Relationship>, r: Relationship)
    requires Consistent(st.adults, st.students, st.relationships, floor) && NoErrors(doc, st)
    requires Applied(doc, st, after, floor, adultOf, studentOf, written, rowOf)
    requires r in st.relationships && !Removed(doc, st, r)
    ensures exists q :: q in after.relationships && Remains(doc, st, r, q)
  {
    hide EdgeOutcome, AdultOutcome, AdultsDone, StudentsDone, EdgesDone, Grown, NoErrors, Removed, Deleted, Joins, PairOf, WellFormed, Unique, Live;
    EdgeKeptInTable(doc, st, adultOf, studentOf, written, rowOf, r);
    forall e | e in doc.edges && EdgeOutcome(doc, st, e) != Conflict
      ensures Joins(st, r, e) <==> EdgeIds(r) == PairOf(adultOf, studentOf, e)
    {
      ListsPair(doc, st, after, adultOf, studentOf, floor, e, r);
    }
    forall gone | gone in st.relationships && gone.id == r.id
      ensures !Deleted(doc, st, adultOf, gone)
    {
      UniqueMember(st.relationships, RelationshipId, r);
      RemovedIsDeleted(doc, st, after.adults, adultOf, floor, r);
    }
    forall gone | Deleted(doc, st, adultOf, gone)
      ensures gone in st.relationships
    {
      DeletedStored(doc, st, adultOf, gone);
    }
    if e :| Lists(doc, st, r, e) {
      assert PairOf(adultOf, studentOf, e) == EdgeIds(r);
      assert Remains(doc, st, r, rowOf[EdgeIds(r)]);
    } else {
      assert forall e :: e in doc.edges && EdgeOutcome(doc, st, e) != Conflict ==> !Lists(doc, st, r, e);
      assert Remains(doc, st, r, r);
    }
  }

  lemma DeletedStored(doc: Document, st: Snapshot, adultOf: map<string, Adult>, gone: Relationship)
    requires Deleted(doc, st, adultOf, gone)
    ensures gone in st.relationships
  {
  }

  /** The row written for a new edge is new, and joins the people the edge names. */
  lemma CreatedRow(doc: Document, st: Snapshot, after: Snapshot, floor: nat, adultOf: map<string, Adult>, studentOf: map<string, Student>,
                   written: seq<Relationship>, rowOf: map<(nat, nat), Relationship>, e: SourceEdge)
    requires Consistent(st.adults, st.students, st.relationships, floor) && NoErrors(doc, st)
    requires Applied(doc, st, after, floor, adultOf, studentOf, written, rowOf)
    requires e in doc.edges && EdgeOutcome(doc, st, e) == Create
    ensures var pair := PairOf(adultOf, studentOf, e);
            pair in rowOf && rowOf[pair] in after.relationships && EdgeIds(rowOf[pair]) == pair && Added(doc, st, after, rowOf[pair], e)
  {
    hide EdgeOutcome, AdultsDone, StudentsDone, EdgesDone, Grown, Joins, Live, Deleted, AdultKey, StudentKey, WellFormed, Unique, Matching;
    var pair := PairOf(adultOf, studentOf, e);
    LiveEdge(doc, st, after.adults, after.students, adultOf, studentOf, floor, e);
    WrittenInTable(doc, st, adultOf, studentOf, written, rowOf, e);
    NamedEnds(doc, st, e);
    BearingIsKey(adultOf[e.adultId], e.adultId);
    StudentBearingIsKey(studentOf[e.studentId], e.studentId);
    forall gone | Deleted(doc, st, adultOf, gone)
      ensures gone.id != rowOf[pair].id
    {
      DeletedStored(doc, st, adultOf, gone);
      StillThere(st, Live(doc, st, doc.edges), written, adultOf, studentOf, rowOf, gone);
      UniqueMember(written, RelationshipId, rowOf[pair]);
      MatchingOne(st.relationships, EdgeIds, gone);
    }
  }

  lemma WrittenInTable(doc: Document, st: Snapshot, adultOf: map<string, Adult>, studentOf: map<string, Student>,
                       written: seq<Relationship>, rowOf: map<(nat, nat), Relationship>, e: SourceEdge)
    requires EdgesDone(st, Live(doc, st, doc.edges), written, adultOf, studentOf, rowOf)
    requires e in doc.edges && EdgeOutcome(doc, st, e) != Conflict
    ensures var pair := PairOf(adultOf, studentOf, e);
            && pair in rowOf && rowOf[pair] in written && EdgeIds(rowOf[pair]) == pair && rowOf[pair].kind == e.kind
            && (forall q :: q in written && EdgeIds(q) == pair ==> q == rowOf[pair])
            && (Matching(st.relationships, EdgeIds, pair) != [] ==> rowOf[pair].id == Matching(st.relationships, EdgeIds, pair)[0].id)
  {
    hide EdgeOutcome, Matching, PairOf, Live;
    LiveMembers(doc, st, doc.edges);
    assert e in Live(doc, st, doc.edges);
    var pair := PairOf(adultOf, studentOf, e);
    MatchingMembers(written, EdgeIds, pair);
    assert rowOf[pair] in Matching(written, EdgeIds, pair);
  }

  lemma NamedEnds(doc: Document, st: Snapshot, e: SourceEdge)
    requires WellFormed(doc) && EdgeOutcome(doc, st, e) != Error
    ensures e.adultId != "" && e.studentId != ""
  {
    hide EdgeOutcome, AdultOutcome, StudentOutcome;
    var a, s := EdgeEnds(doc, st, e);
    WellNamed(doc, a, s);
  }

  lemma EdgeAccounted(doc: Document, st: Snapshot, after: Snapshot, floor: nat, adultOf: map<string, Adult>, studentOf: map<string, Student>,
                      written: seq<Relationship>, rowOf: map<(nat, nat), Relationship>, q: Relationship)
    requires Consistent(st.adults, st.students, st.relationships, floor) && NoErrors(doc, st)
    requires Applied(doc, st, after, floor, adultOf, studentOf, written, rowOf) && q in after.relationships
    ensures (exists r :: r in st.relationships && r.id == q.id) || (exists e :: Added(doc, st, after, q, e))
  {
    hide EdgeOutcome, PeopleDone, EdgesDone, Joins, Live, Deleted, Unique, Matching, PairOf, Added;
    var pair := EdgeIds(q);
    if e :| e in doc.edges && EdgeOutcome(doc, st, e) != Conflict && PairOf(adultOf, studentOf, e) == pair {
      WrittenInTable(doc, st, adultOf, studentOf, written, rowOf, e);
      if EdgeOutcome(doc, st, e) == Create {
        CreatedRow(doc, st, after, floor, adultOf, studentOf, written, rowOf, e);
        assert Added(doc, st, after, q, e);
      } else {
        NotCreated(doc, st, after, floor, adultOf, studentOf, e);
        MatchingHead(st.relationships, EdgeIds, pair);
      }
    } else {
      NotWritten(doc, st, adultOf, studentOf, written, rowOf, q);
    }
  }

  lemma NotCreated(doc: Document, st: Snapshot, after: Snapshot, floor: nat, adultOf: map<string, Adult>, studentOf: map<string, Student>, e: SourceEdge)
    requires PeopleDone(doc, st, after.adults, after.students, adultOf, studentOf, floor)
    requires e in doc.edges && EdgeOutcome(doc, st, e) != Conflict && EdgeOutcome(doc, st, e) != Create
    ensures Matching(st.relationships, EdgeIds, PairOf(adultOf, studentOf, e)) != []
  {
    hide EdgeOutcome, AdultsDone, StudentsDone, Grown, AdultKey, StudentKey, WellFormed, Unique, Matching;
    LiveEdge(doc, st, after.adults, after.students, adultOf, studentOf, floor, e);
  }

  lemma NotWritten(doc: Document, st: Snapshot, adultOf: map<string, Adult>, studentOf: map<string, Student>,
                   written: seq<Relationship>, rowOf: map<(nat, nat), Relationship>, q: Relationship)
    requires EdgesDone(st, Live(doc, st, doc.edges), written, adultOf, studentOf, rowOf) && q in written
    requires forall e :: e in doc.edges && EdgeOutcome(doc, st, e) != Conflict ==> PairOf(adultOf, studentOf, e) != EdgeIds(q)
    ensures q in st.relationships
  {
    hide EdgeOutcome, Matching, PairOf, Live;
    LiveMembers(doc, st, doc.edges);
    MatchingMembers(written, EdgeIds, EdgeIds(q));
    MatchingMembers(st.relationships, EdgeIds, EdgeIds(q));
    assert q in Matching(written, EdgeIds, EdgeIds(q));
  }

  /** What any committed import does to the edges. */
  lemma ImportKeepsEdges(doc: Document, st: Snapshot, after: Snapshot, floor: nat, adultOf: map<string, Adult>, studentOf: map<string, Student>,
                         written: seq<Relationship>, rowOf: map<(nat, nat), Relationship>)
    requires Consistent(st.adults, st.students, st.relationships, floor) && NoErrors(doc, st)
    requires Applied(doc, st, after, floor, adultOf, studentOf, written, rowOf)
    ensures EdgesAfter(doc, st, after)
  {
    hide Consistent, EdgeOutcome, PeopleDone, EdgesDone, NoErrors, Removed, Remains, Added, PairOf, Applied;
    forall r, q | r in st.relationships && q in after.relationships && Removed(doc, st, r)
      ensures q.id != r.id
    {
      RemovedGone(doc, st, after, floor, adultOf, studentOf, written, rowOf, r, q);
    }
    forall r | r in st.relationships && !Removed(doc, st, r)
      ensures exists q :: q in after.relationships && Remains(doc, st, r, q)
    {
      StoredRemains(doc, st, after, floor, adultOf, studentOf, written, rowOf, r);
    }
    forall e | e in doc.edges && EdgeOutcome(doc, st, e) == Create
      ensures exists q :: q in after.relationships && Added(doc, st, after, q, e)
    {
      CreatedRow(doc, st, after, floor, adultOf, studentOf, written, rowOf, e);
    }
    forall q | q in after.relationships
      ensures (exists r :: r in st.relationships && r.id == q.id) || (exists e :: Added(doc, st, after, q, e))
    {
      EdgeAccounted(doc, st, after, floor, adultOf, studentOf, written, rowOf, q);
    }
  }

  lemma RemovedGone(doc: Document, st: Snapshot, after: Snapshot, floor: nat, adultOf: map<string, Adult>, studentOf: map<string, Student>,
                    written: seq<Relationship>, rowOf: map<(nat, nat), Relationship>, r: Relationship, q: Relationship)
    requires NoErrors(doc, st) && Applied(doc, st, after, floor, adultOf, studentOf, written, rowOf)
    requires r in st.relationships && q in after.relationships && Removed(doc, st, r)
    ensures q.id != r.id
  {
    hide EdgesDone, NoErrors, Removed, Deleted, AdultsDone, StudentsDone, Grown, WellFormed;
    RemovedIsDeleted(doc, st, after.adults, adultOf, floor, r);
  }
}
