/**
 The row normalisers of the two file loaders: QB rows go through the name
 extractor and are kept only when it yields a name; SRS rows lose their last
 (footer) row and have their names trimmed.
 */
module Normalize {
  import opened Wrappers
  import opened Seqs
  import opened Text
  import opened Names
  import opened Sheets

  /**
   The name of a QB row. `exec` converts its argument to a string, so a missing
   cell is scanned as the text "undefined".
   */
  function QBName(row: QBRow): Option<string>
  {
    ExtractName(match row.nameCell case Some(t) => t case None => "undefined")
  }

  /** A QB row whose name cell yields a name. */
  predicate HasQBName(row: QBRow)
  {
    QBName(row).Some?
  }

  /** `{name: extractName(row["__EMPTY_1"]), total: row.TOTAL}`. */
  function QBRecord(row: QBRow): Person
  {
    Person(QBName(row), row.total)
  }

  /** The QB dataset: every row mapped to a record, then the unnamed records dropped. */
  function NormalizeQB(rows: seq<QBRow>): seq<Person>
  {
    Filter(Map(rows, QBRecord), HasName)
  }

  /** A QB row with a missing name cell is dropped. */
  lemma MissingNameCellDropped(t: Total)
    ensures !HasQBName(QBRow(None, t))
  {
    ExtractNoName();
  }

  /** A QB row whose name cell yields no name. */
  predicate LacksQBName(row: QBRow)
  {
    !HasQBName(row)
  }

  /** The name the extractor yields neither starts nor ends with a space. */
  lemma QBRecordTrimmed(row: QBRow)
    requires HasQBName(row)
    ensures IsTrimmed(QBRecord(row).name.value)
  {
    ExtractNameSpec(match row.nameCell case Some(t) => t case None => "undefined");
  }

  /**
   The QB dataset is exactly the rows whose name cell yields a name, in their
   order, each mapped to its record.
   */
  lemma NormalizeQBKeepsNamedRows(rows: seq<QBRow>)
    ensures NormalizeQB(rows) == Map(Filter(rows, HasQBName), QBRecord)
  {
    FilterMap(rows, QBRecord, HasName, HasQBName);
  }

  /** Every record of the QB dataset has a name, and that name is its own trim. */
  lemma NormalizeQBNames(rows: seq<QBRow>)
    ensures AllNamed(NormalizeQB(rows))
    ensures TrimmedNames(NormalizeQB(rows))
  {
    NormalizeQBKeepsNamedRows(rows);
    var kept := Filter(rows, HasQBName);
    var out := NormalizeQB(rows);
    forall k | 0 <= k < |out|
      ensures HasName(out[k]) && IsTrimmed(out[k].name.value)
    {
      assert out[k] == QBRecord(kept[k]);
      assert kept[k] in kept;
      QBRecordTrimmed(kept[k]);
    }
  }

  /** Of N rows of which K yield no name, the QB dataset has N - K records. */
  lemma NormalizeQBCount(rows: seq<QBRow>)
    ensures |NormalizeQB(rows)| + |Filter(rows, LacksQBName)| == |rows|
  {
    NormalizeQBKeepsNamedRows(rows);
    FilterSplit(rows, HasQBName, LacksQBName);
  }

  /** The record of an SRS row: `{name: row["Deceased Name"].trim(), total: row["Total Due"]}`. */
  function SRSRecord(row: SRSRow): Person
    requires row.deceasedName.Some?
  {
    Person(Some(Trim(row.deceasedName.value)), row.totalDue)
  }

  /**
   The SRS loader's body: the footer row is popped off the parsed rows, then each
   remaining row is mapped to its record. Only the popped row may lack its
   `Deceased Name` cell; on any other row `.trim()` would throw.
   */
  method NormalizeSRS(parsed: seq<SRSRow>) returns (ds: seq<Person>)
    requires forall i :: 0 <= i < |parsed| - 1 ==> parsed[i].deceasedName.Some?
    ensures |ds| == if parsed == [] then 0 else |parsed| - 1
    ensures forall k :: 0 <= k < |ds| ==> ds[k] == SRSRecord(parsed[k])
    ensures AllNamed(ds) && TrimmedNames(ds)
  {
    var rows := parsed;
    if rows != [] {
      rows := rows[..|rows| - 1];  // parsed.pop()
    }
    ds := [];
    var i := 0;
    while i < |rows|
      invariant 0 <= i <= |rows|
      invariant |ds| == i
      invariant forall k :: 0 <= k < i ==> rows[k].deceasedName.Some? && ds[k] == SRSRecord(rows[k])
    {
      ds := ds + [SRSRecord(rows[i])];
      i := i + 1;
    }
    forall k | 0 <= k < |ds|
      ensures HasName(ds[k]) && IsTrimmed(ds[k].name.value)
    {
      TrimSlice(rows[k].deceasedName.value);
    }
  }
}
