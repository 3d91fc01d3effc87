/**
 Loading a table end to end: the scanner's rows handed to the record
 builder, for text produced by the writer.
 */
module Loading {
  import opened Scanner
  import opened RoundTrip
  import opened Glossary

  /** Loading a written table: a header and N writable data rows give
      exactly N records, in order, built from the trimmed rows, whatever
      unterminated text follows the last line end. */
  lemma LoadWrittenTable(header: seq<string>, data: seq<seq<string>>, eol: string, tail: string)
    requires IsEol(eol) && Terminators(tail) == 0
    requires WritableRow(header)
    requires forall i :: 0 <= i < |data| ==> WritableRow(data[i])
    ensures |Build(Parse(Encode([header] + data, eol) + tail))| == |data|
    ensures Build(Parse(Encode([header] + data, eol) + tail)) == Records(TrimRows(data))
  {
    var rows := [header] + data;
    assert forall i :: 0 <= i < |rows| ==> WritableRow(rows[i]);
    ParseEncode(rows, eol, tail);
    var parsed := Parse(Encode(rows, eol) + tail);
    assert parsed == TrimRows(rows);
    assert |parsed| > 0 && parsed[1..] == TrimRows(data);
    assert Build(parsed) == Records(parsed[1..]);
  }
}
