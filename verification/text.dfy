/**
 String primitives the glossary script borrows from JavaScript's String API:
 `toLowerCase` (restricted to ASCII letters), `trim`, `indexOf`/`includes`
 and `split` on a single character. Strings are sequences of characters.
 */
module Text {

  /** The characters `String.prototype.trim` strips: the ECMAScript
      WhiteSpace set (TAB, VT, FF, ZWNBSP and every Zs space separator)
      together with the LineTerminator set (LF, CR, LS, PS). */
  predicate IsWhite(c: char) {
    var n := c as int;
    || n == 0x09 || n == 0x0A || n == 0x0B || n == 0x0C || n == 0x0D
    || n == 0x20 || n == 0xA0 || n == 0x1680 || (0x2000 <= n <= 0x200A)
    || n == 0x2028 || n == 0x2029 || n == 0x202F || n == 0x205F
    || n == 0x3000 || n == 0xFEFF
  }

  /** No whitespace at either end: what `trim` produces. */
  predicate Trimmed(s: string) {
    |s| == 0 || (!IsWhite(s[0]) && !IsWhite(s[|s| - 1]))
  }

  predicate AllWhite(s: string) {
    forall i :: 0 <= i < |s| ==> IsWhite(s[i])
  }

  /** `r` is `s` with a run of whitespace removed at the front and a run
      removed at the back, and nothing else. */
  ghost predicate TrimmedFrom(s: string, r: string) {
    exists i :: 0 <= i <= |s| - |r| && s[i..i + |r|] == r
      && AllWhite(s[..i]) && AllWhite(s[i + |r|..])
  }

  function TrimStart(s: string): string {
    if |s| > 0 && IsWhite(s[0]) then TrimStart(s[1..]) else s
  }

  function TrimEnd(s: string): string {
    if |s| > 0 && IsWhite(s[|s| - 1]) then TrimEnd(s[..|s| - 1]) else s
  }

  /** `TrimStart` drops the leading whitespace and keeps the rest. */
  lemma {:induction false} TrimStartSpec(s: string)
    ensures |TrimStart(s)| <= |s| && TrimStart(s) == s[|s| - |TrimStart(s)|..]
    ensures AllWhite(s[..|s| - |TrimStart(s)|])
    ensures |TrimStart(s)| > 0 ==> !IsWhite(TrimStart(s)[0])
    decreases |s|
  {
    if |s| > 0 && IsWhite(s[0]) {
      var t := s[1..];
      TrimStartSpec(t);
      var n := |t| - |TrimStart(t)|;
      assert s[..n + 1] == [s[0]] + t[..n];
    }
  }

  /** `TrimEnd` drops the trailing whitespace and keeps the rest. */
  lemma {:induction false} TrimEndSpec(s: string)
    ensures |TrimEnd(s)| <= |s| && TrimEnd(s) == s[..|TrimEnd(s)|]
    ensures AllWhite(s[|TrimEnd(s)|..])
    ensures |TrimEnd(s)| > 0 ==> !IsWhite(TrimEnd(s)[|TrimEnd(s)| - 1])
    decreases |s|
  {
    if |s| > 0 && IsWhite(s[|s| - 1]) {
      var t := s[..|s| - 1];
      TrimEndSpec(t);
      var n := |TrimEnd(t)|;
      assert s[n..] == t[n..] + [s[|s| - 1]];
    }
  }

  /** `String.prototype.trim`. */
  function Trim(s: string): (r: string)
    ensures Trimmed(r) && |r| <= |s|
  {
    TrimStartSpec(s);
    TrimEndSpec(TrimStart(s));
    TrimEnd(TrimStart(s))
  }

  /** Trimming removes a run of whitespace at each end and nothing else. */
  lemma TrimSpec(s: string)
    ensures TrimmedFrom(s, Trim(s))
  {
    var a := TrimStart(s);
    var r := TrimEnd(a);
    TrimStartSpec(s);
    TrimEndSpec(a);
    var i := |s| - |a|;
    assert s[i..i + |r|] == r;
    assert s[i + |r|..] == a[|r|..];
  }

  /** Trimming twice is trimming once. */
  lemma TrimIdempotent(s: string)
    ensures Trim(Trim(s)) == Trim(s)
  {
    TrimOfTrimmed(Trim(s));
  }

  /** A string with no whitespace at its ends is left unchanged. */
  lemma TrimOfTrimmed(s: string)
    requires Trimmed(s)
    ensures Trim(s) == s
  {
  }

  /** ASCII `toLowerCase` of one character. */
  function LowerChar(c: char): char {
    if 'A' <= c <= 'Z' then (c as int + 32) as char else c
  }

  /** `toLowerCase`, restricted to the ASCII letters: every upper-case
      ASCII letter becomes its lower-case partner, every other character
      stays. */
  function Lower(s: string): (r: string)
    ensures |r| == |s|
    ensures forall i :: 0 <= i < |s| ==> !('A' <= r[i] <= 'Z')
    ensures forall i :: 0 <= i < |s| ==>
              r[i] == s[i] || ('A' <= s[i] <= 'Z' && r[i] as int == s[i] as int + 32)
  {
    seq(|s|, i requires 0 <= i < |s| => LowerChar(s[i]))
  }

  /** Lower-casing twice is lower-casing once. */
  lemma LowerIdempotent(s: string)
    ensures Lower(Lower(s)) == Lower(s)
  {
  }

  /** A string with no upper-case ASCII letter is its own lower case. */
  lemma LowerOfLowercase(s: string)
    requires forall i :: 0 <= i < |s| ==> !('A' <= s[i] <= 'Z')
    ensures Lower(s) == s
  {
  }

  /** The keyword `k` starts at position `i` of `s`. */
  predicate OccursAt(s: string, k: string, i: int) {
    0 <= i && i + |k| <= |s| && s[i..i + |k|] == k
  }

  /** First occurrence of `k` in `s` at or after `from`, or -1. */
  function IndexFrom(s: string, k: string, from: nat): (r: int)
    ensures r == -1 || from <= r
    decreases |s| - from
  {
    if from + |k| > |s| then -1
    else if s[from..from + |k|] == k then from
    else IndexFrom(s, k, from + 1)
  }

  lemma {:induction false} IndexFromSpec(s: string, k: string, from: nat)
    ensures IndexFrom(s, k, from) != -1 ==> OccursAt(s, k, IndexFrom(s, k, from))
    ensures forall i :: from <= i && (IndexFrom(s, k, from) == -1 || i < IndexFrom(s, k, from)) ==> !OccursAt(s, k, i)
    decreases |s| - from
  {
    if from + |k| <= |s| && s[from..from + |k|] != k {
      IndexFromSpec(s, k, from + 1);
    }
  }

  /** `String.prototype.indexOf`. */
  function IndexOf(s: string, k: string): (r: int)
    ensures r >= -1
  {
    IndexFrom(s, k, 0)
  }

  /** `indexOf` gives the least position where `k` occurs in `s`, and -1
      exactly when there is none. */
  lemma IndexOfSpec(s: string, k: string)
    ensures IndexOf(s, k) == -1 <==> forall i :: !OccursAt(s, k, i)
    ensures IndexOf(s, k) != -1 ==>
              OccursAt(s, k, IndexOf(s, k)) && forall i :: i < IndexOf(s, k) ==> !OccursAt(s, k, i)
  {
    IndexFromSpec(s, k, 0);
  }

  /** `String.prototype.includes`. */
  predicate Contains(s: string, k: string) {
    IndexOf(s, k) != -1
  }

  /** The empty keyword is found at position 0 of every string. */
  lemma EmptyKeywordAtZero(s: string)
    ensures IndexOf(s, "") == 0
  {
    IndexOfSpec(s, "");
    assert OccursAt(s, "", 0);
  }

  /** The inverse of `Split`: the parts glued back with `sep` between them. */
  function Join(parts: seq<string>, sep: char): string
    requires |parts| > 0
  {
    if |parts| == 1 then parts[0] else parts[0] + [sep] + Join(parts[1..], sep)
  }

  /** `String.prototype.split` with a one-character separator. */
  function Split(s: string, sep: char): (r: seq<string>)
    ensures |r| > 0
    ensures forall i :: 0 <= i < |r| ==> sep !in r[i]
    ensures Join(r, sep) == s
  {
    if |s| == 0 then [""]
    else
      var rest := Split(s[1..], sep);
      if s[0] == sep then
        assert s == [sep] + s[1..];
        [""] + rest
      else
        var r := [[s[0]] + rest[0]] + rest[1..];
        JoinConsHead(s[0], rest, sep);
        assert s == [s[0]] + s[1..];
        r
  }

  /** Prefixing the first part prefixes the joined string. */
  lemma JoinConsHead(c: char, parts: seq<string>, sep: char)
    requires |parts| > 0
    ensures Join([[c] + parts[0]] + parts[1..], sep) == [c] + Join(parts, sep)
  {
    var q := [[c] + parts[0]] + parts[1..];
    assert q[1..] == parts[1..];
  }

  /** Splitting a join recovers the parts when no part holds the separator. */
  lemma {:induction false} SplitJoin(parts: seq<string>, sep: char)
    requires |parts| > 0
    requires forall i :: 0 <= i < |parts| ==> sep !in parts[i]
    ensures Split(Join(parts, sep), sep) == parts
    decreases |parts|, |parts[0]|
  {
    var p := parts[0];
    if |p| == 0 {
      if |parts| == 1 {
      } else {
        var s := Join(parts, sep);
        assert s == [sep] + Join(parts[1..], sep);
        assert s[1..] == Join(parts[1..], sep);
        SplitJoin(parts[1..], sep);
        assert parts == [""] + parts[1..];
      }
    } else {
      var tail := [p[1..]] + parts[1..];
      assert tail[1..] == parts[1..];
      assert forall i :: 0 <= i < |tail| ==> sep !in tail[i] by {
        forall i | 0 <= i < |tail| ensures sep !in tail[i] {
          if i == 0 {
            assert forall x :: x in p[1..] ==> x in p;
          } else {
            assert tail[i] == parts[i];
          }
        }
      }
      SplitJoin(tail, sep);
      assert p == [p[0]] + p[1..];
      assert parts == [[p[0]] + tail[0]] + tail[1..];
      JoinConsHead(p[0], tail, sep);
      var s := Join(parts, sep);
      assert s[0] == p[0] && s[1..] == Join(tail, sep);
    }
  }
}
