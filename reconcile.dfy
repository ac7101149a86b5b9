/**
 `compareSheets`: the three collections derived from the QB and SRS datasets.
 Each is computed with its own containment test, exactly as written:
 "Missing in QB" asks whether some QB name occurs in the SRS name, "Missing in
 SRS" whether some SRS name occurs in the QB name, and "Same Name Different
 Total" looks for the first QB record whose trimmed name occurs in the SRS name.
 */
module Reconcile {
  import opened Wrappers
  import opened Seqs
  import opened Text
  import opened Sheets

  /** `p.name != null && host.name.includes(p.name)`. */
  predicate NameIn(host: Person, p: Person)
  {
    p.name.Some? && host.name.Some? && Contains(host.name.value, p.name.value)
  }

  /** `p.name != null && host.name.includes(p.name.trim())`. */
  predicate TrimmedNameIn(host: Person, p: Person)
  {
    p.name.Some? && host.name.Some? && Contains(host.name.value, Trim(p.name.value))
  }

  /** `!others.find((p) => p.name != null && host.name.includes(p.name))`. */
  predicate NoNameIn(others: seq<Person>, host: Person)
  {
    Find(others, p => NameIn(host, p)).None?
  }

  /** `srs.filter(...)`: the SRS records no QB name occurs in. */
  function MissingQB(qb: seq<Person>, srs: seq<Person>): seq<Person>
    requires AllNamed(srs)
  {
    Filter(srs, person => NoNameIn(qb, person))
  }

  /** `qb.filter(...)`: the QB records no SRS name occurs in. */
  function MissingSRS(qb: seq<Person>, srs: seq<Person>): seq<Person>
    requires AllNamed(qb)
  {
    Filter(qb, person => NoNameIn(srs, person))
  }

  /**
   The callback of `srs.map(...)`: the first QB record whose trimmed name occurs
   in the SRS name, and an entry when its total differs from the SRS total.
   */
  function ConflictFor(qb: seq<Person>, person: Person): Option<Conflict>
    requires HasName(person)
  {
    match Find(qb, p => TrimmedNameIn(person, p))
    case None => None
    case Some(qbPerson) =>
      if qbPerson.total != person.total
      then Some(Conflict(person.name.value, qbPerson.total, person.total))
      else None
  }

  /** `srs.map(...)`: the callback's result for each SRS record, in order. */
  function ConflictsBySRS(qb: seq<Person>, srs: seq<Person>): seq<Option<Conflict>>
    requires AllNamed(srs)
  {
    seq(|srs|, i requires 0 <= i < |srs| => ConflictFor(qb, srs[i]))
  }

  /** `srs.map(...).filter(Boolean)`. */
  function SameNameDiffTotal(qb: seq<Person>, srs: seq<Person>): seq<Conflict>
    requires AllNamed(srs)
  {
    Somes(ConflictsBySRS(qb, srs))
  }

  /**
   `compareSheets(qb, srs)` without the export. The source throws on a nameless
   record once the other side has a named one; the loaders give every record a
   name, so this requires it outright.
   */
  function CompareSheets(qb: seq<Person>, srs: seq<Person>): Reconciliation
    requires AllNamed(qb) && AllNamed(srs)
  {
    Reconciliation(MissingQB(qb, srs), MissingSRS(qb, srs), SameNameDiffTotal(qb, srs))
  }

  // ---------------------------------------------------------------------------
  // Missing in QB and Missing in SRS

  /**
   "Missing in QB" is the subsequence of `srs`, in order, of exactly the positions
   whose record has no QB name occurring in its name.
   */
  lemma MissingQBSpec(qb: seq<Person>, srs: seq<Person>)
    requires AllNamed(srs)
    ensures exists idx :: && Increasing(idx) && Picks(MissingQB(qb, srs), srs, idx)
                          && forall i :: 0 <= i < |srs| ==>
                               (i in idx <==> forall q :: q in qb ==> !NameIn(srs[i], q))
  {
    FilterSelects(srs, person => NoNameIn(qb, person));
  }

  /**
   "Missing in SRS" is the subsequence of `qb`, in order, of exactly the positions
   whose record has no SRS name occurring in its name. The containment runs the
   other way from "Missing in QB": here the QB name is the one searched.
   */
  lemma MissingSRSSpec(qb: seq<Person>, srs: seq<Person>)
    requires AllNamed(qb)
    ensures exists idx :: && Increasing(idx) && Picks(MissingSRS(qb, srs), qb, idx)
                          && forall i :: 0 <= i < |qb| ==>
                               (i in idx <==> forall p :: p in srs ==> !NameIn(qb[i], p))
  {
    FilterSelects(qb, person => NoNameIn(srs, person));
  }

  /**
   One SRS record with an empty name empties "Missing in SRS": every string
   includes the empty string, so a blank `Deceased Name` (empty or all spaces
   before the trim) makes every QB record count as present in SRS.
   */
  lemma BlankSRSNameHidesAllQB(qb: seq<Person>, srs: seq<Person>, blank: nat)
    requires AllNamed(qb)
    requires blank < |srs| && srs[blank].name == Some("")
    ensures MissingSRS(qb, srs) == []
  {
    forall person | person in qb
      ensures !NoNameIn(srs, person)
    {
      ContainsEmpty(person.name.value);
      assert srs[blank] in srs && NameIn(person, srs[blank]);
    }
    FilterNone(qb, person => NoNameIn(srs, person));
  }

  // ---------------------------------------------------------------------------
  // Same Name Different Total

  /** `j` is the first position of `qb` whose trimmed name occurs in the name of `r`. */
  ghost predicate FirstTrimMatch(qb: seq<Person>, r: Person, j: int)
  {
    && 0 <= j < |qb| && TrimmedNameIn(r, qb[j])
    && forall i :: 0 <= i < j ==> !TrimmedNameIn(r, qb[i])
  }

  /**
   The entry of an SRS record `r`: none when no QB trimmed name occurs in its
   name; otherwise it comes from the first such QB record, and there is an entry
   exactly when the two totals differ, carrying the SRS name, the QB total and
   the SRS total.
   */
  lemma ConflictForSpec(qb: seq<Person>, r: Person)
    requires HasName(r)
    ensures (forall q :: q in qb ==> !TrimmedNameIn(r, q)) ==> ConflictFor(qb, r) == None
    ensures forall j :: FirstTrimMatch(qb, r, j) ==>
      ConflictFor(qb, r) == if qb[j].total != r.total
                            then Some(Conflict(r.name.value, qb[j].total, r.total))
                            else None
    ensures ConflictFor(qb, r).Some? ==>
      exists j :: && FirstTrimMatch(qb, r, j) && qb[j].total != r.total
                  && ConflictFor(qb, r) == Some(Conflict(r.name.value, qb[j].total, r.total))
  {
    FindFirst(qb, p => TrimmedNameIn(r, p));
    forall j | FirstTrimMatch(qb, r, j)
      ensures FirstIndex(qb, p => TrimmedNameIn(r, p), j)
    {
    }
    if ConflictFor(qb, r).Some? {
      var j :| FirstIndex(qb, p => TrimmedNameIn(r, p), j) && Find(qb, p => TrimmedNameIn(r, p)).value == qb[j];
      assert FirstTrimMatch(qb, r, j);
    }
  }

  /**
   "Same Name Different Total" has at most one entry per SRS record, in SRS
   order: it is read, in order, at exactly the positions of `srs` whose record
   has an entry.
   */
  lemma SameNameDiffTotalSpec(qb: seq<Person>, srs: seq<Person>)
    requires AllNamed(srs)
    ensures |SameNameDiffTotal(qb, srs)| <= |srs|
    ensures exists idx :: && Increasing(idx) && |idx| == |SameNameDiffTotal(qb, srs)|
                          && (forall k :: 0 <= k < |idx| ==>
                                idx[k] < |srs| && ConflictFor(qb, srs[idx[k]]) == Some(SameNameDiffTotal(qb, srs)[k]))
                          && forall i :: 0 <= i < |srs| ==> (i in idx <==> ConflictFor(qb, srs[i]).Some?)
  {
    var m := ConflictsBySRS(qb, srs);
    SomesSelects(m);
    var idx: seq<nat> :| PicksSomes(Somes(m), m, idx);
    var out := SameNameDiffTotal(qb, srs);
    assert out == Somes(m);
    forall k | 0 <= k < |idx|
      ensures idx[k] < |srs| && ConflictFor(qb, srs[idx[k]]) == Some(out[k])
    {
      assert m[idx[k]] == Some(out[k]);
    }
    forall i | 0 <= i < |srs|
      ensures i in idx <==> ConflictFor(qb, srs[i]).Some?
    {
      assert m[i] == ConflictFor(qb, srs[i]);
    }
  }

  /** Every entry comes from an SRS record with that name and total, and a QB record with a differing total. */
  lemma ConflictOrigin(qb: seq<Person>, srs: seq<Person>, c: Conflict)
    requires AllNamed(srs)
    requires c in SameNameDiffTotal(qb, srs)
    ensures exists i :: 0 <= i < |srs| && ConflictFor(qb, srs[i]) == Some(c)
    ensures exists r, q :: && r in srs && q in qb && TrimmedNameIn(r, q)
                           && c == Conflict(r.name.value, q.total, r.total) && q.total != r.total
  {
    var m := ConflictsBySRS(qb, srs);
    assert Some(c) in m;
    var i :| 0 <= i < |srs| && m[i] == Some(c);
    var q := Find(qb, p => TrimmedNameIn(srs[i], p)).value;
    assert q in qb && TrimmedNameIn(srs[i], q);
    assert srs[i] in srs;
  }

  // ---------------------------------------------------------------------------
  // How the collections relate

  /**
   When every QB name is its own trim, the test of "Missing in QB" and the match
   of "Same Name Different Total" agree: an SRS record is missing exactly when it
   has no trimmed match.
   */
  lemma MissingIffNoTrimMatch(qb: seq<Person>, r: Person)
    requires TrimmedNames(qb) && HasName(r)
    ensures NoNameIn(qb, r) <==> forall q :: q in qb ==> !TrimmedNameIn(r, q)
  {
    forall q | q in qb
      ensures NameIn(r, q) <==> TrimmedNameIn(r, q)
    {
      var k :| 0 <= k < |qb| && qb[k] == q;
      if q.name.Some? {
        TrimmedIsFixed(q.name.value);
      }
    }
  }

  /**
   When every QB name is its own trim, no SRS record both lands in "Missing in
   QB" and produces an entry of "Same Name Different Total": no missing record
   even shares its name with an entry.
   */
  lemma MissingAndConflictDisjoint(qb: seq<Person>, srs: seq<Person>)
    requires AllNamed(srs) && TrimmedNames(qb)
    ensures forall c, r :: c in SameNameDiffTotal(qb, srs) && r in MissingQB(qb, srs) ==> r.name != Some(c.name)
  {
    forall c, r | c in SameNameDiffTotal(qb, srs) && r in MissingQB(qb, srs)
      ensures r.name != Some(c.name)
    {
      ConflictOrigin(qb, srs, c);
      var i :| 0 <= i < |srs| && ConflictFor(qb, srs[i]) == Some(c);
      ConflictForSpec(qb, srs[i]);
      assert r in srs && NoNameIn(qb, r);
      var k :| 0 <= k < |srs| && srs[k] == r;
      MissingIffNoTrimMatch(qb, r);
      MissingIffNoTrimMatch(qb, srs[i]);
    }
  }

  /**
   With no QB records, every SRS record is missing in QB and nothing conflicts;
   with no SRS records, every QB record is missing in SRS and the other two are
   empty; with neither, all three are empty.
   */
  lemma EmptyDatasets(qb: seq<Person>, srs: seq<Person>)
    requires AllNamed(qb) && AllNamed(srs)
    ensures CompareSheets([], srs) == Reconciliation(srs, [], [])
    ensures CompareSheets(qb, []) == Reconciliation([], qb, [])
    ensures CompareSheets([], []) == Reconciliation([], [], [])
  {
    FilterAll(srs, person => NoNameIn([], person));
    SomesNone(ConflictsBySRS([], srs));
    FilterAll(qb, person => NoNameIn([], person));
  }

  // ---------------------------------------------------------------------------
  // Worked examples

  /** With one record on each side, the three collections follow from the three containment tests. */
  lemma OneRecordEach(q: Person, r: Person)
    requires HasName(q) && HasName(r)
    ensures CompareSheets([q], [r]) == Reconciliation(
      if NameIn(r, q) then [] else [r],
      if NameIn(q, r) then [] else [q],
      if TrimmedNameIn(r, q) && q.total != r.total then [Conflict(r.name.value, q.total, r.total)] else [])
  {
    assert [q][..0] == [] && [r][..0] == [];
    assert Find([q], p => TrimmedNameIn(r, p)) == if TrimmedNameIn(r, q) then Some(q) else None;
    var m := ConflictsBySRS([q], [r]);
    assert m == [ConflictFor([q], r)];
    assert m[..0] == [];
  }

  // The examples below take their strings as parameters equal to literals: with the
  // literals written into the ensures, the solver evaluates every function on them eagerly.

  /** One record on each side with unrelated names: each is missing from the other side. */
  lemma UnrelatedNamesExample(alice: string, bob: string)
    requires alice == "Alice Smith" && bob == "Bob Jones"
    ensures CompareSheets([Person(Some(alice), Some(50.0))], [Person(Some(bob), Some(75.0))])
         == Reconciliation([Person(Some(bob), Some(75.0))], [Person(Some(alice), Some(50.0))], [])
  {
    NotContained(bob, alice);
    NotContained(alice, bob);
    TrimmedIsFixed(alice);
    OneRecordEach(Person(Some(alice), Some(50.0)), Person(Some(bob), Some(75.0)));
  }

  /**
   "Jane Doe III" does not contain "Doe, Jane": the names are not matched, so
   there is no conflict and each record is missing from the other side.
   */
  lemma ReorderedNameExample(qbName: string, srsName: string)
    requires qbName == "Doe, Jane" && srsName == "Jane Doe III"
    ensures CompareSheets([Person(Some(qbName), Some(100.0))], [Person(Some(srsName), Some(150.0))])
         == Reconciliation([Person(Some(srsName), Some(150.0))], [Person(Some(qbName), Some(100.0))], [])
  {
    NotContained(srsName, qbName);
    NotContained(qbName, srsName);
    TrimmedIsFixed(qbName);
    OneRecordEach(Person(Some(qbName), Some(100.0)), Person(Some(srsName), Some(150.0)));
  }

  /**
   "Doe, Jane III" contains "Doe, Jane": with totals 100 and 150 there is exactly
   one entry, and with equal totals there is none.
   */
  lemma ContainedNameExample(qbName: string, srsName: string, total: real)
    requires qbName == "Doe, Jane" && srsName == "Doe, Jane III"
    ensures total == 150.0 ==>
      SameNameDiffTotal([Person(Some(qbName), Some(100.0))], [Person(Some(srsName), Some(total))])
        == [Conflict(srsName, Some(100.0), Some(150.0))]
    ensures total == 100.0 ==>
      SameNameDiffTotal([Person(Some(qbName), Some(100.0))], [Person(Some(srsName), Some(total))]) == []
    ensures MissingQB([Person(Some(qbName), Some(100.0))], [Person(Some(srsName), Some(total))]) == []
  {
    TrimmedIsFixed(qbName);
    assert srsName[..|qbName|] == qbName;
    OneRecordEach(Person(Some(qbName), Some(100.0)), Person(Some(srsName), Some(total)));
  }
}
