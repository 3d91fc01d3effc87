/**
 Glossary records and the record builder (`processCSV`): the first
 parsed row is a header and is dropped, and each later row becomes one
 record by column position, a missing column reading as the empty string.
 */
module Glossary {

  /** One glossary entry: the headword in three variants (primary,
      English, Indonesian), a definition in English and in Indonesian,
      and a comma-separated list of category tags. */
  datatype Entry = Entry(term: string, termEn: string, termId: string,
                         defEn: string, defId: string, category: string)

  const Columns := 6

  /** Column `k`, or the empty string past the row's end. */
  function Column(row: seq<string>, k: nat): string {
    if k < |row| then row[k] else ""
  }

  /** The field an entry takes from column `k`. */
  function Field(e: Entry, k: nat): string
    requires k < Columns
  {
    match k
    case 0 => e.term
    case 1 => e.termEn
    case 2 => e.termId
    case 3 => e.defEn
    case 4 => e.defId
    case 5 => e.category
  }

  /** The row an entry would be written as. */
  function ToRow(e: Entry): (row: seq<string>)
    ensures |row| == Columns
    ensures forall k :: 0 <= k < Columns ==> row[k] == Field(e, k)
  {
    [e.term, e.termEn, e.termId, e.defEn, e.defId, e.category]
  }

  /** One data row as a record: the six leading columns by position,
      extra columns ignored, missing ones empty. */
  function FromRow(row: seq<string>): (e: Entry)
    ensures forall k :: 0 <= k < Columns ==> Field(e, k) == Column(row, k)
  {
    Entry(Column(row, 0), Column(row, 1), Column(row, 2), Column(row, 3), Column(row, 4), Column(row, 5))
  }

  /** Every data row as a record, in order. */
  function Records(rows: seq<seq<string>>): (es: seq<Entry>)
    ensures |es| == |rows|
    ensures forall i :: 0 <= i < |rows| ==> es[i] == FromRow(rows[i])
  {
    if |rows| == 0 then [] else [FromRow(rows[0])] + Records(rows[1..])
  }

  /** `processCSV`: drop the header row, map the rest. Record `i` is row
      `i + 1`, column by column. */
  function Build(rows: seq<seq<string>>): (es: seq<Entry>)
    ensures |es| == if |rows| == 0 then 0 else |rows| - 1
    ensures forall i, k :: 0 <= i < |es| && 0 <= k < Columns ==> Field(es[i], k) == Column(rows[i + 1], k)
  {
    if |rows| == 0 then [] else Records(rows[1..])
  }

  function ToRows(es: seq<Entry>): seq<seq<string>> {
    seq(|es|, i requires 0 <= i < |es| => ToRow(es[i]))
  }

  /** A record written as a row and read back is the same record. */
  lemma FromToRow(e: Entry)
    ensures FromRow(ToRow(e)) == e
  {
  }

  /** Building from a header and the rows of some records gives back
      those records, whatever the header holds. */
  lemma BuildToRows(header: seq<string>, es: seq<Entry>)
    ensures Build([header] + ToRows(es)) == es
  {
    var rows := [header] + ToRows(es);
    assert rows[1..] == ToRows(es);
    var r := Build(rows);
    forall i | 0 <= i < |es|
      ensures r[i] == es[i]
    {
      FromToRow(es[i]);
    }
  }
}
