/**
 The component state: the QB and SRS dataset slots that the two file loaders
 replace, and the effect that reconciles them once both are present.
 */
module AppState {
  import opened Wrappers
  import opened Sheets
  import opened Normalize
  import opened Reconcile

  class App {
    /** The `qb` slot of `useState(null)`. */
    var qb: Option<seq<Person>>
    /** The `srs` slot of `useState(null)`. */
    var srs: Option<seq<Person>>

    /** What the loaders guarantee of the datasets they store. */
    ghost predicate Valid()
      reads this
    {
      && (qb.Some? ==> AllNamed(qb.value) && TrimmedNames(qb.value))
      && (srs.Some? ==> AllNamed(srs.value))
    }

    /** Both slots start out empty. */
    constructor ()
      ensures Valid() && qb == None && srs == None
    {
      qb := None;
      srs := None;
    }

    /** The QB loader: the new dataset replaces the old one; the SRS slot is untouched. */
    method LoadQB(rows: seq<QBRow>)
      requires Valid()
      modifies this
      ensures Valid()
      ensures qb == Some(NormalizeQB(rows)) && srs == old(srs)
    {
      NormalizeQBNames(rows);
      qb := Some(NormalizeQB(rows));
    }

    /** The SRS loader: the footer row is dropped and the rest replaces the old dataset. */
    method LoadSRS(parsed: seq<SRSRow>)
      requires Valid()
      requires forall i :: 0 <= i < |parsed| - 1 ==> parsed[i].deceasedName.Some?
      modifies this
      ensures Valid()
      ensures qb == old(qb) && srs.Some?
      ensures |srs.value| == if parsed == [] then 0 else |parsed| - 1
      ensures forall k :: 0 <= k < |srs.value| ==> srs.value[k] == SRSRecord(parsed[k])
    {
      var ds := NormalizeSRS(parsed);
      srs := Some(ds);
    }

    /**
     The effect run after every render: it reconciles exactly when both datasets
     are present (an empty dataset counts as present), and reading the slots
     changes nothing, so running it again gives the same result.
     */
    method Effect() returns (result: Option<Reconciliation>)
      requires Valid()
      ensures result.Some? <==> qb.Some? && srs.Some?
      ensures result.Some? ==> result.value == CompareSheets(qb.value, srs.value)
      ensures result.Some? ==>
        forall c, r :: c in result.value.sameNameDiffTotal && r in result.value.missingQB ==> r.name != Some(c.name)
    {
      if qb.Some? && srs.Some? {
        MissingAndConflictDisjoint(qb.value, srs.value);
        result := Some(CompareSheets(qb.value, srs.value));
      } else {
        result := None;
      }
    }
  }
}
