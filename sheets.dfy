/**
 The records the reconciliation works on: the raw rows of the two sheets, the
 normalised person records both are turned into, and the three result collections.
 */
module Sheets {
  import opened Wrappers
  import opened Text

  /**
   A monetary amount as read from a cell; `None` is a missing cell. Totals are
   only ever compared with `===` and `!==`.
   */
  type Total = Option<real>

  /**
   A row of the QB sheet: the text of its second unlabelled column (`__EMPTY_1`)
   and its `TOTAL` column; `None` is a missing cell.
   */
  datatype QBRow = QBRow(nameCell: Option<string>, total: Total)

  /** A row of the SRS sheet: its `Deceased Name` and `Total Due` columns. */
  datatype SRSRow = SRSRow(deceasedName: Option<string>, totalDue: Total)

  /** `{name, total}`; a name that could not be derived is `None` (`undefined`). */
  datatype Person = Person(name: Option<string>, total: Total)

  /** `{name, qbTotal, srsTotal}`, an entry of "Same Name Different Total". */
  datatype Conflict = Conflict(name: string, qbTotal: Total, srsTotal: Total)

  /** The three collections written to the sheets "Missing in QB", "Missing in SRS" and "Same Name Different Total". */
  datatype Reconciliation = Reconciliation(
    missingQB: seq<Person>,
    missingSRS: seq<Person>,
    sameNameDiffTotal: seq<Conflict>)

  /** The record has a name (`name != null`). */
  predicate HasName(p: Person)
  {
    p.name.Some?
  }

  /** Every record of `ds` has a name. */
  predicate AllNamed(ds: seq<Person>)
  {
    forall k :: 0 <= k < |ds| ==> HasName(ds[k])
  }

  /** No name in `ds` starts or ends with a space, so each is its own trim (`Text.TrimmedIffFixed`). */
  predicate TrimmedNames(ds: seq<Person>)
  {
    forall k :: 0 <= k < |ds| && ds[k].name.Some? ==> IsTrimmed(ds[k].name.value)
  }
}
