/**
 The delimited-text scanner of the glossary script (the loop inside
 `loadCSV`). It reads the text left to right with four pieces of state:
 the finished rows, the row being built, the field accumulator and an
 "inside quotes" flag. It loosely follows the comma-separated-values
 format of section 2 of RFC 4180, with three differences kept here as
 the code has them: every field is trimmed, a doubled quote is unescaped
 whether or not the scanner is inside quotes, and a last row with no line
 terminator after it is dropped.
 */
module Scanner {
  import opened Text

  predicate IsTerminator(c: char) {
    c == '\n' || c == '\r'
  }

  /** Number of line-terminator characters in `s`. */
  function Terminators(s: string): nat {
    if |s| == 0 then 0 else (if IsTerminator(s[0]) then 1 else 0) + Terminators(s[1..])
  }

  datatype State = State(rows: seq<seq<string>>, row: seq<string>, cur: string, inQuotes: bool)

  const Start := State([], [], "", false)

  /** The unread input begins with two quote characters. */
  predicate AtDoubledQuote(s: string) {
    |s| >= 2 && s[0] == '"' && s[1] == '"'
  }

  /** How many characters one iteration consumes. */
  function Width(s: string): nat {
    if AtDoubledQuote(s) then 2 else 1
  }

  predicate AllTrimmed(fields: seq<string>) {
    forall j :: 0 <= j < |fields| ==> Trimmed(fields[j])
  }

  /** A row the scanner can emit: at least one field, every field trimmed. */
  predicate GoodRow(r: seq<string>) {
    |r| > 0 && AllTrimmed(r)
  }

  /** Every finished row is a good row and every stored field is trimmed. */
  predicate Good(st: State) {
    (forall i :: 0 <= i < |st.rows| ==> GoodRow(st.rows[i])) && AllTrimmed(st.row)
  }

  /** One iteration of the loop, given the unread input `s` (its second
      character is the lookahead the doubled-quote test needs). */
  function Step(st: State, s: string): (next: State)
    requires |s| > 0
    ensures next.rows == st.rows
         || (IsTerminator(s[0]) && !st.inQuotes && next.rows == st.rows + [st.row + [Trim(st.cur)]])
    ensures next.inQuotes != st.inQuotes ==> s[0] == '"' && !AtDoubledQuote(s)
  {
    var c := s[0];
    if AtDoubledQuote(s) then st.(cur := st.cur + ['"'])
    else if c == '"' then st.(inQuotes := !st.inQuotes)
    else if c == ',' && !st.inQuotes then st.(row := st.row + [Trim(st.cur)], cur := "")
    else if IsTerminator(c) && !st.inQuotes then
      if st.cur != "" || |st.row| > 0 then State(st.rows + [st.row + [Trim(st.cur)]], [], "", st.inQuotes)
      else st
    else st.(cur := st.cur + [c])
  }

  /** The loop run over the unread input `s` from state `st`. */
  function Scan(st: State, s: string): State
    decreases |s|
  {
    if |s| == 0 then st else Scan(Step(st, s), s[Width(s)..])
  }

  /** The rows closed by line terminators in `text`, in input order. The
      scan never fails: any text gives rows. */
  function Parse(text: string): (rows: seq<seq<string>>)
    ensures forall i :: 0 <= i < |rows| ==> |rows[i]| > 0 && AllTrimmed(rows[i])
    ensures |rows| <= Terminators(text)
  {
    ScanKeepsGood(Start, text);
    ScanRowBound(Start, text);
    Scan(Start, text).rows
  }

  /** One step keeps the scanner's rows and fields well formed. */
  lemma StepKeepsGood(st: State, s: string)
    requires |s| > 0 && Good(st)
    ensures Good(Step(st, s))
  {
    var c := s[0];
    if !AtDoubledQuote(s) && c != '"' && !st.inQuotes {
      if c == ',' || (IsTerminator(c) && (st.cur != "" || |st.row| > 0)) {
        var r := st.row + [Trim(st.cur)];
        assert AllTrimmed(r);
      }
    }
  }

  // ----- The step relation, one kind of character at a time -----

  /** A `""` pair appends one quote to the field and consumes both
      characters, inside quotes or not. */
  lemma ScanDoubledQuote(st: State, rest: string)
    ensures Scan(st, "\"\"" + rest) == Scan(st.(cur := st.cur + "\""), rest)
  {
    assert ("\"\"" + rest)[2..] == rest;
  }

  /** A lone quote only flips the flag; nothing is appended. */
  lemma ScanLoneQuote(st: State, rest: string)
    requires |rest| == 0 || rest[0] != '"'
    ensures Scan(st, "\"" + rest) == Scan(st.(inQuotes := !st.inQuotes), rest)
  {
    assert ("\"" + rest)[1..] == rest;
  }

  /** An unquoted comma closes the field and stores it trimmed. */
  lemma ScanComma(st: State, rest: string)
    requires !st.inQuotes
    ensures Scan(st, "," + rest) == Scan(st.(row := st.row + [Trim(st.cur)], cur := ""), rest)
  {
    assert ("," + rest)[1..] == rest;
  }

  /** An unquoted line terminator closes the row, unless both the field
      and the row are empty (a blank line, or the LF of a CRLF pair). */
  lemma ScanTerminator(st: State, c: char, rest: string)
    requires IsTerminator(c) && !st.inQuotes
    ensures st.cur != "" || |st.row| > 0 ==>
              Scan(st, [c] + rest) == Scan(State(st.rows + [st.row + [Trim(st.cur)]], [], "", false), rest)
    ensures st.cur == "" && |st.row| == 0 ==> Scan(st, [c] + rest) == Scan(st, rest)
  {
    var s := [c] + rest;
    assert s[0] == c && !AtDoubledQuote(s) && s[Width(s)..] == rest;
    assert Scan(st, s) == Scan(Step(st, s), rest);
  }

  /** Inside quotes every character but the quote, commas and line
      terminators included, is appended verbatim; outside quotes so is
      every character that is not a quote, comma or terminator. */
  lemma ScanLiteral(st: State, c: char, rest: string)
    requires c != '"'
    requires st.inQuotes || (c != ',' && !IsTerminator(c))
    ensures Scan(st, [c] + rest) == Scan(st.(cur := st.cur + [c]), rest)
  {
    assert ([c] + rest)[1..] == rest;
  }

  // ----- What the whole scan does -----

  /** The scan only appends rows, and keeps every row non-empty and every
      field trimmed. */
  lemma {:induction false} ScanKeepsGood(st: State, s: string)
    requires Good(st)
    ensures Good(Scan(st, s))
    ensures st.rows <= Scan(st, s).rows
    decreases |s|
  {
    if |s| > 0 {
      StepKeepsGood(st, s);
      ScanKeepsGood(Step(st, s), s[Width(s)..]);
    }
  }

  lemma TerminatorsAfterPair(s: string)
    requires AtDoubledQuote(s)
    ensures Terminators(s[2..]) == Terminators(s)
  {
    assert s[1..][1..] == s[2..];
  }

  /** At most one row per line terminator. */
  lemma {:induction false} ScanRowBound(st: State, s: string)
    ensures |Scan(st, s).rows| <= |st.rows| + Terminators(s)
    ensures st.rows <= Scan(st, s).rows
    decreases |s|
  {
    if |s| > 0 {
      ScanRowBound(Step(st, s), s[Width(s)..]);
      if AtDoubledQuote(s) {
        TerminatorsAfterPair(s);
      }
    }
  }

  /** Input without a line terminator closes no row: a pending field or
      row at the end of the text is discarded. */
  lemma NoTerminatorNoRows(st: State, s: string)
    requires Terminators(s) == 0
    ensures Scan(st, s).rows == st.rows
  {
    ScanRowBound(st, s);
  }

  /** What follows the last line terminator never reaches the output. */
  lemma {:induction false} ScanIgnoresTail(st: State, a: string, b: string)
    requires Terminators(b) == 0
    ensures Scan(st, a + b).rows == Scan(st, a).rows
    decreases |a|
  {
    if |a| == 0 {
      assert a + b == b;
      NoTerminatorNoRows(st, b);
    } else if AtDoubledQuote(a + b) && !AtDoubledQuote(a) {
      // the quote ending `a` pairs with the quote opening `b`
      assert |a| == 1 && b[0] == '"';
      assert (a + b)[2..] == b[1..];
      assert Terminators(b[1..]) == 0;
      NoTerminatorNoRows(Step(st, a + b), b[1..]);
    } else {
      var w := Width(a);
      assert Width(a + b) == w && Step(st, a + b) == Step(st, a);
      assert (a + b)[w..] == a[w..] + b;
      ScanIgnoresTail(Step(st, a), a[w..], b);
    }
  }

  /** Parsing ignores an unterminated last line. */
  lemma ParseIgnoresTail(text: string, tail: string)
    requires Terminators(tail) == 0
    ensures Parse(text + tail) == Parse(text)
  {
    ScanIgnoresTail(Start, text, tail);
  }
}
