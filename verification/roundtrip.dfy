/**
 A writer for the comma-separated format, the partner of the scanner: a
 field with no quote, comma or line terminator is written as it is, any
 other field is quoted with its quotes doubled, and each row is ended by
 LF, CR or CRLF. Reading what it writes gives back the rows with every
 field trimmed, which is the scanner's round-trip property. Two kinds of
 input fall outside it and are pinned down by lemmas of their own: a
 field made only of quote characters, and a row that is one empty field.
 */
module RoundTrip {
  import opened Text
  import opened Scanner

  /** A field that can be written without quotes. */
  predicate Plain(f: string) {
    forall i :: 0 <= i < |f| ==> f[i] != '"' && f[i] != ',' && !IsTerminator(f[i])
  }

  /** Fields the scanner reads back: plain ones, and quoted ones holding
      at least one character that is not a quote. */
  predicate Writable(f: string) {
    Plain(f) || exists i :: 0 <= i < |f| && f[i] != '"'
  }

  /** A row the scanner reads back: some field, not just one empty field
      (that would be a blank line), every field writable. */
  predicate WritableRow(r: seq<string>) {
    |r| > 0 && (|r| > 1 || r[0] != "") && forall j :: 0 <= j < |r| ==> Writable(r[j])
  }

  predicate IsEol(eol: string) {
    eol == "\n" || eol == "\r" || eol == "\r\n"
  }

  /** Every quote doubled. */
  function Escape(f: string): (r: string)
    ensures |r| >= |f|
    ensures |f| > 0 && f[0] != '"' ==> |r| > 0 && r[0] == f[0]
  {
    if |f| == 0 then ""
    else (if f[0] == '"' then "\"\"" else [f[0]]) + Escape(f[1..])
  }

  function EncodeField(f: string): string {
    if Plain(f) then f else "\"" + Escape(f) + "\""
  }

  function EncodeFields(fs: seq<string>): seq<string> {
    seq(|fs|, i requires 0 <= i < |fs| => EncodeField(fs[i]))
  }

  /** One row and its line end (a row without fields is a bare line end). */
  function EncodeRow(r: seq<string>, eol: string): string {
    if |r| == 0 then eol else Join(EncodeFields(r), ',') + eol
  }

  function Encode(rows: seq<seq<string>>, eol: string): string {
    if |rows| == 0 then "" else EncodeRow(rows[0], eol) + Encode(rows[1..], eol)
  }

  function TrimFields(r: seq<string>): seq<string> {
    seq(|r|, j requires 0 <= j < |r| => Trim(r[j]))
  }

  function TrimRows(rows: seq<seq<string>>): seq<seq<string>> {
    seq(|rows|, i requires 0 <= i < |rows| => TrimFields(rows[i]))
  }

  /** Starting a field: nothing pending, outside quotes. */
  predicate Fresh(st: State) {
    st.cur == "" && !st.inQuotes
  }

  /** A plain field is appended to the accumulator character by character. */
  lemma {:induction false} ScanPlain(st: State, f: string, rest: string)
    requires Plain(f)
    ensures Scan(st, f + rest) == Scan(st.(cur := st.cur + f), rest)
    decreases |f|
  {
    if |f| == 0 {
      assert f + rest == rest;
      assert st.(cur := st.cur + f) == st;
    } else {
      var st1 := st.(cur := st.cur + [f[0]]);
      assert f + rest == [f[0]] + (f[1..] + rest);
      ScanLiteral(st, f[0], f[1..] + rest);
      ScanPlain(st1, f[1..], rest);
      assert st1.cur + f[1..] == st.cur + f;
    }
  }

  /** Inside quotes, the first character of an escaped field (a quote
      written as `""`, or any other character) reaches the accumulator. */
  lemma EscapedHead(st: State, f: string, rest: string)
    requires st.inQuotes && |f| > 0
    ensures Scan(st, Escape(f) + rest) == Scan(st.(cur := st.cur + [f[0]]), Escape(f[1..]) + rest)
  {
    var tail := Escape(f[1..]) + rest;
    if f[0] == '"' {
      assert Escape(f) + rest == "\"\"" + tail;
      ScanDoubledQuote(st, tail);
    } else {
      assert Escape(f) + rest == [f[0]] + tail;
      ScanLiteral(st, f[0], tail);
    }
  }

  /** Inside quotes, an escaped field followed by the closing quote is
      appended verbatim and leaves the scanner outside quotes. */
  lemma {:induction false} ScanEscaped(st: State, f: string, rest: string)
    requires st.inQuotes
    requires |rest| == 0 || rest[0] != '"'
    ensures Scan(st, Escape(f) + ("\"" + rest)) == Scan(st.(cur := st.cur + f, inQuotes := false), rest)
    decreases |f|
  {
    if |f| == 0 {
      assert Escape(f) == "";
      assert Escape(f) + ("\"" + rest) == "\"" + rest;
      assert st.(cur := st.cur + f, inQuotes := false) == st.(inQuotes := !st.inQuotes);
      ScanLoneQuote(st, rest);
    } else {
      var st1 := st.(cur := st.cur + [f[0]]);
      EscapedHead(st, f, "\"" + rest);
      ScanEscaped(st1, f[1..], rest);
      assert st1.cur + f[1..] == st.cur + f;
      assert st1.(cur := st1.cur + f[1..], inQuotes := false) == st.(cur := st.cur + f, inQuotes := false);
    }
  }

  /** Outside quotes, a quoted field holding a non-quote character is
      appended verbatim. Its leading quotes pair up with the opening quote
      as `""` pairs, which the scanner unescapes outside quotes too, so
      the text still comes out right. */
  lemma {:induction false} ScanQuoted(st: State, f: string, rest: string)
    requires !st.inQuotes
    requires exists i :: 0 <= i < |f| && f[i] != '"'
    requires |rest| == 0 || rest[0] != '"'
    ensures Scan(st, "\"" + (Escape(f) + ("\"" + rest))) == Scan(st.(cur := st.cur + f), rest)
    decreases |f|
  {
    assert |f| > 0;
    var closing := "\"" + rest;
    if f[0] == '"' {
      var tail := "\"" + (Escape(f[1..]) + closing);
      assert "\"" + (Escape(f) + closing) == "\"\"" + tail;
      ScanDoubledQuote(st, tail);
      var st1 := st.(cur := st.cur + "\"");
      var i :| 0 <= i < |f| && f[i] != '"';
      assert f[1..][i - 1] != '"';
      ScanQuoted(st1, f[1..], rest);
      assert st1.cur + f[1..] == st.cur + f;
    } else {
      var tail := Escape(f) + closing;
      assert tail[0] == f[0];
      ScanLoneQuote(st, tail);
      ScanEscaped(st.(inQuotes := true), f, rest);
    }
  }

  /** A written field, whatever it holds, reaches the accumulator intact. */
  lemma ScanField(st: State, f: string, rest: string)
    requires !st.inQuotes && Writable(f)
    requires |rest| == 0 || rest[0] != '"'
    ensures Scan(st, EncodeField(f) + rest) == Scan(st.(cur := st.cur + f), rest)
  {
    if Plain(f) {
      assert EncodeField(f) == f;
      ScanPlain(st, f, rest);
    } else {
      assert EncodeField(f) + rest == "\"" + (Escape(f) + ("\"" + rest));
      assert exists i :: 0 <= i < |f| && f[i] != '"';
      ScanQuoted(st, f, rest);
    }
  }

  /** The fields of a row, joined by commas: every field but the last is
      stored trimmed, the last one is left in the accumulator. */
  lemma {:induction false} ScanFields(st: State, fs: seq<string>, rest: string)
    requires Fresh(st)
    requires |fs| > 0 && forall j :: 0 <= j < |fs| ==> Writable(fs[j])
    requires |rest| == 0 || rest[0] != '"'
    ensures Scan(st, Join(EncodeFields(fs), ',') + rest)
         == Scan(st.(row := st.row + TrimFields(fs[..|fs| - 1]), cur := fs[|fs| - 1]), rest)
    decreases |fs|
  {
    var n := |fs| - 1;
    if n == 0 {
      ScanLastField(st, fs, rest);
    } else {
      var st2 := st.(row := st.row + [Trim(fs[0])]);
      ScanFirstField(st, fs, rest);
      TrimFieldsCons(st, fs);
      ScanFields(st2, fs[1..], rest);
    }
  }

  lemma ScanLastField(st: State, fs: seq<string>, rest: string)
    requires Fresh(st)
    requires |fs| == 1 && Writable(fs[0])
    requires |rest| == 0 || rest[0] != '"'
    ensures Scan(st, Join(EncodeFields(fs), ',') + rest)
         == Scan(st.(row := st.row + TrimFields(fs[..0]), cur := fs[0]), rest)
  {
    assert Join(EncodeFields(fs), ',') == EncodeField(fs[0]);
    ScanField(st, fs[0], rest);
    assert st.(row := st.row + TrimFields(fs[..0]), cur := fs[0]) == st.(cur := st.cur + fs[0]);
  }

  lemma ScanFirstField(st: State, fs: seq<string>, rest: string)
    requires Fresh(st)
    requires |fs| > 1 && Writable(fs[0])
    ensures Scan(st, Join(EncodeFields(fs), ',') + rest)
         == Scan(st.(row := st.row + [Trim(fs[0])]), Join(EncodeFields(fs[1..]), ',') + rest)
  {
    var more := Join(EncodeFields(fs[1..]), ',') + rest;
    JoinFirstField(fs, rest);
    ScanFieldComma(st, fs[0], more);
  }

  lemma JoinFirstField(fs: seq<string>, rest: string)
    requires |fs| > 1
    ensures Join(EncodeFields(fs), ',') + rest
         == EncodeField(fs[0]) + ("," + (Join(EncodeFields(fs[1..]), ',') + rest))
  {
    assert EncodeFields(fs)[1..] == EncodeFields(fs[1..]);
  }

  /** A field followed by a comma is stored trimmed. */
  lemma ScanFieldComma(st: State, f: string, more: string)
    requires Fresh(st) && Writable(f)
    ensures Scan(st, EncodeField(f) + ("," + more)) == Scan(st.(row := st.row + [Trim(f)]), more)
  {
    ScanField(st, f, "," + more);
    ScanComma(st.(cur := f), more);
    assert st.(cur := st.cur + f) == st.(cur := f);
  }

  /** Storing the first field and then the others stores them all. */
  lemma TrimFieldsCons(st: State, fs: seq<string>)
    requires |fs| > 1
    requires forall j :: 0 <= j < |fs| ==> Writable(fs[j])
    ensures forall j :: 0 <= j < |fs[1..]| ==> Writable(fs[1..][j])
    ensures var st2 := st.(row := st.row + [Trim(fs[0])]);
            var tail := fs[1..];
            st2.(row := st2.row + TrimFields(tail[..|tail| - 1]), cur := tail[|tail| - 1])
            == st.(row := st.row + TrimFields(fs[..|fs| - 1]), cur := fs[|fs| - 1])
  {
    var n := |fs| - 1;
    assert fs[1..][..n - 1] == fs[1..n];
    assert [Trim(fs[0])] + TrimFields(fs[1..n]) == TrimFields(fs[..n]);
    assert st.row + [Trim(fs[0])] + TrimFields(fs[1..n]) == st.row + TrimFields(fs[..n]);
  }

  /** A written row is read back as one row of trimmed fields. */
  lemma ScanRow(rows: seq<seq<string>>, r: seq<string>, eol: string, rest: string)
    requires WritableRow(r) && IsEol(eol)
    ensures Scan(State(rows, [], "", false), EncodeRow(r, eol) + rest)
         == Scan(State(rows + [TrimFields(r)], [], "", false), rest)
  {
    var n := |r| - 1;
    var st := State(rows, [], "", false);
    RowText(r, eol, rest);
    ScanFields(st, r, eol + rest);
    var st1 := State(rows, TrimFields(r[..n]), r[n], false);
    assert st.(row := st.row + TrimFields(r[..n]), cur := r[n]) == st1;
    ScanEol(st1, eol, rest);
    assert st1.row + [Trim(st1.cur)] == TrimFields(r);
  }

  lemma RowText(r: seq<string>, eol: string, rest: string)
    requires |r| > 0
    ensures EncodeRow(r, eol) + rest == Join(EncodeFields(r), ',') + (eol + rest)
  {
  }

  lemma RowsText(rows: seq<seq<string>>, eol: string, rest: string)
    requires |rows| > 0
    ensures Encode(rows, eol) + rest == EncodeRow(rows[0], eol) + (Encode(rows[1..], eol) + rest)
  {
  }

  lemma TrimRowsCons(done: seq<seq<string>>, rows: seq<seq<string>>)
    requires |rows| > 0
    ensures done + [TrimFields(rows[0])] + TrimRows(rows[1..]) == done + TrimRows(rows)
  {
    assert [TrimFields(rows[0])] + TrimRows(rows[1..]) == TrimRows(rows);
  }

  /** A line end closes a row that has a field or a pending character; the
      LF of a CRLF pair then meets an empty row and does nothing. */
  lemma ScanEol(st: State, eol: string, rest: string)
    requires IsEol(eol) && !st.inQuotes && (st.cur != "" || |st.row| > 0)
    ensures Scan(st, eol + rest) == Scan(State(st.rows + [st.row + [Trim(st.cur)]], [], "", false), rest)
  {
    var done := State(st.rows + [st.row + [Trim(st.cur)]], [], "", false);
    if eol == "\r\n" {
      assert eol + rest == ['\r'] + (['\n'] + rest);
      ScanTerminator(st, '\r', ['\n'] + rest);
      ScanTerminator(done, '\n', rest);
    } else {
      assert eol + rest == [eol[0]] + rest;
      ScanTerminator(st, eol[0], rest);
    }
  }

  /** Written rows are read back in order. */
  lemma {:induction false} ScanRows(done: seq<seq<string>>, rows: seq<seq<string>>, eol: string, rest: string)
    requires IsEol(eol)
    requires forall i :: 0 <= i < |rows| ==> WritableRow(rows[i])
    ensures Scan(State(done, [], "", false), Encode(rows, eol) + rest)
         == Scan(State(done + TrimRows(rows), [], "", false), rest)
    decreases |rows|
  {
    if |rows| == 0 {
      assert Encode(rows, eol) + rest == rest;
      assert done + TrimRows(rows) == done;
    } else {
      RowsText(rows, eol, rest);
      ScanRow(done, rows[0], eol, Encode(rows[1..], eol) + rest);
      assert forall i :: 0 <= i < |rows[1..]| ==> WritableRow(rows[1..][i]);
      ScanRows(done + [TrimFields(rows[0])], rows[1..], eol, rest);
      TrimRowsCons(done, rows);
    }
  }

  /** Round trip: reading written rows gives them back with every field
      trimmed, whatever unterminated text follows the last row. */
  lemma ParseEncode(rows: seq<seq<string>>, eol: string, tail: string)
    requires IsEol(eol) && Terminators(tail) == 0
    requires forall i :: 0 <= i < |rows| ==> WritableRow(rows[i])
    ensures Parse(Encode(rows, eol) + tail) == TrimRows(rows)
  {
    ScanRows([], rows, eol, tail);
    assert [] + TrimRows(rows) == TrimRows(rows);
    NoTerminatorNoRows(State(TrimRows(rows), [], "", false), tail);
  }

  /** A field of quote characters only does not survive: the RFC 4180
      spelling of the empty field, `""`, is read as one quote, because
      the doubled-quote rule applies outside quotes too. */
  lemma EmptyQuotedField(st: State, more: string)
    requires Fresh(st)
    ensures Scan(st, "\"\"," + more) == Scan(st.(row := st.row + ["\""]), more)
  {
    var s1 := "," + more;
    assert "\"\"," + more == "\"\"" + s1;
    ScanDoubledQuote(st, s1);
    var st1 := st.(cur := "\"");
    assert st.(cur := st.cur + "\"") == st1;
    ScanComma(st1, more);
    TrimOfTrimmed("\"");
    assert st1.(row := st1.row + [Trim(st1.cur)], cur := "") == st.(row := st.row + ["\""]);
  }
}
