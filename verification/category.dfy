/**
 The category filter (`filterCategory`): a record matches a tag when its
 category field is not empty and one of its tags, the field lower-cased,
 split at every comma and each piece trimmed, equals the lower-cased tag
 exactly. Matching records are kept in their original order.
 */
module Category {
  import opened Text
  import opened Seqs
  import opened Glossary

  /** The tags of a category field. */
  function Tags(category: string): (tags: seq<string>)
    ensures |tags| > 0
    ensures forall i :: 0 <= i < |tags| ==> Trimmed(tags[i])
  {
    var parts := Split(Lower(category), ',');
    seq(|parts|, i requires 0 <= i < |parts| => Trim(parts[i]))
  }

  /** The record selection test of the category filter. */
  predicate InCategory(tag: string, e: Entry) {
    e.category != "" && Lower(tag) in Tags(e.category)
  }

  function Selects(tag: string): Entry -> bool {
    e => InCategory(tag, e)
  }

  /** The records in category `tag`, in input order. */
  function FilterCategory(tag: string, es: seq<Entry>): (r: seq<Entry>)
    ensures |r| <= |es|
    ensures forall i :: 0 <= i < |r| ==> InCategory(tag, r[i])
    ensures forall i :: 0 <= i < |r| ==> r[i] in es
  {
    FilterFromInput(Selects(tag), es);
    Filter(Selects(tag), es)
  }

  /** The result keeps the input's order: it is a subsequence. */
  lemma FilterCategoryOrdered(tag: string, es: seq<Entry>)
    ensures IsSubseq(FilterCategory(tag, es), es)
  {
    FilterIsSubseq(Selects(tag), es);
  }

  /** A record in the category is kept as often as it occurs; any other
      record is dropped. */
  lemma FilterCategoryCount(tag: string, es: seq<Entry>, e: Entry)
    ensures multiset(FilterCategory(tag, es))[e] == if InCategory(tag, e) then multiset(es)[e] else 0
  {
    FilterCount(Selects(tag), es, e);
  }

  /** Filtering twice by the same tag is filtering once. */
  lemma FilterCategoryIdempotent(tag: string, es: seq<Entry>)
    ensures FilterCategory(tag, FilterCategory(tag, es)) == FilterCategory(tag, es)
  {
    FilterFilter(Selects(tag), Selects(tag), es);
  }

  /** A record with an empty category matches no tag. */
  lemma EmptyCategoryNeverMatches(tag: string, e: Entry)
    requires e.category == ""
    ensures !InCategory(tag, e)
  {
  }

  /** Matching ignores the case of the tag and of the category field. */
  lemma CaseInsensitive(tag: string, e: Entry)
    ensures InCategory(tag, e) == InCategory(Lower(tag), e)
    ensures InCategory(tag, e) == InCategory(tag, e.(category := Lower(e.category)))
  {
    LowerIdempotent(tag);
    LowerIdempotent(e.category);
  }

  // ----- Tags of a written category -----

  /** Lower-casing never produces a comma from anything but a comma. */
  lemma LowerKeepsComma(p: string)
    requires ',' !in p
    ensures ',' !in Lower(p)
  {
    var l := Lower(p);
    forall i | 0 <= i < |l|
      ensures l[i] != ','
    {
      assert p[i] != ',';
    }
  }

  /** Lower-casing a joined list lower-cases each part. */
  lemma {:induction false} LowerJoin(parts: seq<string>)
    requires |parts| > 0
    ensures Lower(Join(parts, ',')) == Join(LowerAll(parts), ',')
    decreases |parts|
  {
    if |parts| > 1 {
      LowerJoin(parts[1..]);
      assert LowerAll(parts)[1..] == LowerAll(parts[1..]);
      LowerAppend(parts[0] + [','], Join(parts[1..], ','));
      LowerAppend(parts[0], [',']);
    }
  }

  function LowerAll(parts: seq<string>): (r: seq<string>)
    ensures |r| == |parts|
    ensures forall i :: 0 <= i < |parts| ==> r[i] == Lower(parts[i])
  {
    seq(|parts|, i requires 0 <= i < |parts| => Lower(parts[i]))
  }

  lemma LowerAppend(a: string, b: string)
    ensures Lower(a + b) == Lower(a) + Lower(b)
  {
  }

  /** A category written as comma-free parts joined by commas has, as its
      tags, exactly those parts lower-cased and trimmed, in order. */
  lemma TagsOfJoin(parts: seq<string>)
    requires |parts| > 0
    requires forall i :: 0 <= i < |parts| ==> ',' !in parts[i]
    ensures |Tags(Join(parts, ','))| == |parts|
    ensures forall i :: 0 <= i < |parts| ==> Tags(Join(parts, ','))[i] == Trim(Lower(parts[i]))
  {
    var lowered := LowerAll(parts);
    LowerJoin(parts);
    forall i | 0 <= i < |lowered|
      ensures ',' !in lowered[i]
    {
      LowerKeepsComma(parts[i]);
    }
    SplitJoin(lowered, ',');
  }

  /** For such a category, a tag matches exactly when it equals one of
      the parts up to case and surrounding whitespace. */
  lemma MatchesWrittenTag(tag: string, e: Entry, parts: seq<string>)
    requires |parts| > 0
    requires forall i :: 0 <= i < |parts| ==> ',' !in parts[i]
    requires e.category == Join(parts, ',') && e.category != ""
    ensures InCategory(tag, e) <==> exists i :: 0 <= i < |parts| && Trim(Lower(parts[i])) == Lower(tag)
  {
    TagsOfJoin(parts);
    var tags := Tags(e.category);
    var k := Lower(tag);
    if k in tags {
      var i :| 0 <= i < |tags| && tags[i] == k;
      assert Trim(Lower(parts[i])) == k;
    }
    if exists i :: 0 <= i < |parts| && Trim(Lower(parts[i])) == k {
      var i :| 0 <= i < |parts| && Trim(Lower(parts[i])) == k;
      assert tags[i] == k;
    }
  }

  // ----- Whole tags, not substrings -----

  function WithCategory(category: string): Entry {
    Entry("", "", "", "", "", category)
  }

  /** "security" is one of the tags of "Security, Privacy". */
  lemma SecurityPrivacyMatches()
    ensures InCategory("security", WithCategory("Security, Privacy"))
  {
    var parts := ["Security", " Privacy"];
    assert Join(parts, ',') == "Security, Privacy";
    assert Lower("Security") == "security";
    LowerOfLowercase("security");
    TrimOfTrimmed("security");
    MatchesWrittenTag("security", WithCategory("Security, Privacy"), parts);
  }

  /** Tags are matched whole: "security" is not a tag of "securities". */
  lemma SecuritiesDoesNotMatch()
    ensures !InCategory("security", WithCategory("securities"))
  {
    var parts := ["securities"];
    LowerOfLowercase("securities");
    LowerOfLowercase("security");
    TrimOfTrimmed("securities");
    assert Join(parts, ',') == "securities";
    assert |"securities"| != |"security"|;
    MatchesWrittenTag("security", WithCategory("securities"), parts);
  }
}
