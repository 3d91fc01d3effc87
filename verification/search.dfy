/**
 The tiered keyword search (`search`). With the keyword and every field
 lower-cased, each record falls into exactly one tier: Exact when a term
 field equals the keyword, else Phrase when a term field contains it
 (ranked by the earliest position where it starts), else
 DefinitionMatch when a definition contains it, else it is left out. The
 result is the Exact tier in input order, then the Phrase tier sorted by
 position with ties in input order, then the DefinitionMatch tier in
 input order. The sort key travels in a (record, position) pair instead
 of being written into the record.
 */
module Search {
  import opened Text
  import opened Seqs
  import opened Glossary

  datatype Tier = Exact | Phrase(pos: nat) | DefinitionMatch | NoMatch

  /** A phrase-tier record with its sort key. */
  datatype Ranked = Ranked(entry: Entry, pos: nat)

  /** The three term fields, lower-cased. */
  function Terms(e: Entry): seq<string> {
    [Lower(e.term), Lower(e.termEn), Lower(e.termId)]
  }

  /** The two definition fields, lower-cased. */
  function Definitions(e: Entry): seq<string> {
    [Lower(e.defEn), Lower(e.defId)]
  }

  /** `k` starts at position `p` of some field. */
  predicate OccursInSome(fields: seq<string>, k: string, p: int) {
    exists j :: 0 <= j < |fields| && OccursAt(fields[j], k, p)
  }

  /** The least `IndexOf` position of `k` over the fields that contain
      it, or -1 when none does. */
  function Earliest(fields: seq<string>, k: string): (r: int)
    ensures r >= -1
  {
    if |fields| == 0 then -1
    else
      var here := IndexOf(fields[0], k);
      var later := Earliest(fields[1..], k);
      if here == -1 then later
      else if later == -1 || here <= later then here
      else later
  }

  /** `Earliest` is -1 exactly when no field contains `k`, and otherwise
      the least position where `k` starts in any field. */
  lemma {:induction false} EarliestSpec(fields: seq<string>, k: string)
    ensures Earliest(fields, k) == -1 <==> forall j, i :: 0 <= j < |fields| ==> !OccursAt(fields[j], k, i)
    ensures Earliest(fields, k) != -1 ==> OccursInSome(fields, k, Earliest(fields, k))
    ensures Earliest(fields, k) != -1 ==>
              forall j, i :: 0 <= j < |fields| && i < Earliest(fields, k) ==> !OccursAt(fields[j], k, i)
    decreases |fields|
  {
    if |fields| > 0 {
      IndexOfSpec(fields[0], k);
      EarliestSpec(fields[1..], k);
      assert forall j :: 1 <= j < |fields| ==> fields[j] == fields[1..][j - 1];
    }
  }

  /** The tier of one record for `keyword`. */
  function Classify(keyword: string, e: Entry): Tier {
    var k := Lower(keyword);
    var terms := Terms(e);
    if terms[0] == k || terms[1] == k || terms[2] == k then Exact
    else
      var p := Earliest(terms, k);
      if p != -1 then Phrase(p)
      else if Contains(Lower(e.defEn), k) || Contains(Lower(e.defId), k) then DefinitionMatch
      else NoMatch
  }

  /** Which tier a record falls into, stated from the fields: Exact when
      some term equals the keyword; else Phrase when some term contains
      it, at the least position where it starts in any term; else
      DefinitionMatch when a definition contains it; else NoMatch. */
  lemma ClassifySpec(keyword: string, e: Entry)
    ensures var k := Lower(keyword); var t := Classify(keyword, e);
            t == Exact <==> k in Terms(e)
    ensures var k := Lower(keyword); var t := Classify(keyword, e);
            t.Phrase? <==> k !in Terms(e) && exists j, i :: 0 <= j < 3 && OccursAt(Terms(e)[j], k, i)
    ensures var k := Lower(keyword); var t := Classify(keyword, e);
            t.Phrase? ==> OccursInSome(Terms(e), k, t.pos)
                          && forall j, i :: 0 <= j < 3 && i < t.pos ==> !OccursAt(Terms(e)[j], k, i)
    ensures var k := Lower(keyword); var t := Classify(keyword, e);
            t == DefinitionMatch <==>
              k !in Terms(e) && (forall j, i :: 0 <= j < 3 ==> !OccursAt(Terms(e)[j], k, i))
              && exists j, i :: 0 <= j < 2 && OccursAt(Definitions(e)[j], k, i)
  {
    var k := Lower(keyword);
    EarliestSpec(Terms(e), k);
    IndexOfSpec(Lower(e.defEn), k);
    IndexOfSpec(Lower(e.defId), k);
    assert Definitions(e)[0] == Lower(e.defEn) && Definitions(e)[1] == Lower(e.defId);
  }

  /** A record is in the result at all. */
  predicate Matches(keyword: string, e: Entry) {
    Classify(keyword, e) != NoMatch
  }

  /** The tier function for one keyword. */
  function TierOf(keyword: string): Entry -> Tier {
    e => Classify(keyword, e)
  }

  /** Membership of tier `t` under the tier function `f`. */
  function Is(f: Entry -> Tier, t: Tier): Entry -> bool {
    e => f(e) == t
  }

  function InTier(keyword: string, t: Tier): Entry -> bool {
    Is(TierOf(keyword), t)
  }

  function IsPhrase(keyword: string): Entry -> bool {
    e => Classify(keyword, e).Phrase?
  }

  function Entries(rs: seq<Ranked>): (es: seq<Entry>)
    ensures |es| == |rs|
    ensures forall i :: 0 <= i < |rs| ==> es[i] == rs[i].entry
  {
    if |rs| == 0 then [] else [rs[0].entry] + Entries(rs[1..])
  }

  /** Each phrase-tier pair carries its record's own match position. */
  predicate RankedRight(keyword: string, rs: seq<Ranked>) {
    forall i :: 0 <= i < |rs| ==> Classify(keyword, rs[i].entry) == Phrase(rs[i].pos)
  }

  datatype Buckets = Buckets(exact: seq<Entry>, phrase: seq<Ranked>, defs: seq<Entry>)

  /** The single pass over the records: each one is appended to the list
      of its tier. */
  function Partition(keyword: string, es: seq<Entry>): (b: Buckets)
    ensures b.exact == Filter(InTier(keyword, Exact), es)
    ensures Entries(b.phrase) == Filter(IsPhrase(keyword), es)
    ensures RankedRight(keyword, b.phrase)
    ensures b.defs == Filter(InTier(keyword, DefinitionMatch), es)
  {
    if |es| == 0 then Buckets([], [], [])
    else
      var b := Partition(keyword, es[1..]);
      var e := es[0];
      match Classify(keyword, e)
      case Exact => b.(exact := [e] + b.exact)
      case Phrase(p) => b.(phrase := [Ranked(e, p)] + b.phrase)
      case DefinitionMatch => b.(defs := [e] + b.defs)
      case NoMatch => b
  }

  // ----- The stable sort of the phrase tier -----

  predicate SortedByPos(rs: seq<Ranked>) {
    forall i, j :: 0 <= i < j < |rs| ==> rs[i].pos <= rs[j].pos
  }

  function AtPos(p: nat): Ranked -> bool {
    (x: Ranked) => x.pos == p
  }

  /** Every key is at least `b`. */
  predicate AllFrom(rs: seq<Ranked>, b: nat) {
    forall i :: 0 <= i < |rs| ==> b <= rs[i].pos
  }

  /** Put `x` before the first element whose key is not smaller. */
  function Insert(x: Ranked, rs: seq<Ranked>): (r: seq<Ranked>)
    ensures multiset(r) == multiset(rs) + multiset{x}
  {
    if |rs| == 0 || x.pos <= rs[0].pos then [x] + rs
    else
      assert rs == [rs[0]] + rs[1..];
      [rs[0]] + Insert(x, rs[1..])
  }

  /** Inserting a key no smaller than `b` keeps every key at least `b`. */
  lemma {:induction false} InsertFrom(x: Ranked, rs: seq<Ranked>, b: nat)
    requires b <= x.pos && AllFrom(rs, b)
    ensures AllFrom(Insert(x, rs), b)
    decreases |rs|
  {
    if |rs| > 0 && x.pos > rs[0].pos {
      InsertFrom(x, rs[1..], b);
    }
  }

  /** Inserting into a list sorted by key keeps it sorted. */
  lemma {:induction false} InsertSorted(x: Ranked, rs: seq<Ranked>)
    requires SortedByPos(rs)
    ensures SortedByPos(Insert(x, rs))
    decreases |rs|
  {
    if |rs| > 0 && x.pos > rs[0].pos {
      var rest := Insert(x, rs[1..]);
      InsertSorted(x, rs[1..]);
      InsertFrom(x, rs[1..], rs[0].pos);
      var r := [rs[0]] + rest;
      assert forall i :: 0 < i < |r| ==> r[i] == rest[i - 1];
    }
  }

  /** The phrase tier sorted stably by position, as insertion sort. */
  function SortByPos(rs: seq<Ranked>): (r: seq<Ranked>)
    ensures SortedByPos(r)
    ensures multiset(r) == multiset(rs)
  {
    if |rs| == 0 then []
    else
      assert rs == [rs[0]] + rs[1..];
      InsertSorted(rs[0], SortByPos(rs[1..]));
      Insert(rs[0], SortByPos(rs[1..]))
  }

  /** The search result: the three tiers concatenated, the phrase tier
      sorted by position. */
  function Results(keyword: string, es: seq<Entry>): seq<Entry> {
    var b := Partition(keyword, es);
    b.exact + Entries(SortByPos(b.phrase)) + b.defs
  }

  // ----- The order of the result -----

  function Rank(t: Tier): nat {
    match t
    case Exact => 0
    case Phrase(_) => 1
    case DefinitionMatch => 2
    case NoMatch => 3
  }

  /** The order of the result: tier first, then position within Phrase. */
  predicate TierLe(a: Tier, b: Tier) {
    Rank(a) < Rank(b) || (Rank(a) == Rank(b) && (a.Phrase? ==> a.pos <= b.pos))
  }

  /** `TierLe` is a total order. */
  lemma TierLeTotalOrder(a: Tier, b: Tier, c: Tier)
    ensures TierLe(a, b) || TierLe(b, a)
    ensures TierLe(a, b) && TierLe(b, a) ==> a == b
    ensures TierLe(a, b) && TierLe(b, c) ==> TierLe(a, c)
  {
  }

  /** `r` is ordered by tier under the tier function `f`. */
  predicate SortedBy(f: Entry -> Tier, r: seq<Entry>) {
    forall i, j :: 0 <= i < j < |r| ==> TierLe(f(r[i]), f(r[j]))
  }

  predicate SortedTiers(keyword: string, r: seq<Entry>) {
    SortedBy(TierOf(keyword), r)
  }

  /** What the tier-`t` records of the result must be: those of the input. */
  function Expected(keyword: string, es: seq<Entry>, t: Tier): seq<Entry> {
    if t == NoMatch then [] else Filter(InTier(keyword, t), es)
  }

  // ----- Stability of the phrase-tier sort -----

  lemma {:induction false} InsertStable(x: Ranked, rs: seq<Ranked>, p: nat)
    ensures Filter(AtPos(p), Insert(x, rs)) == (if x.pos == p then [x] else []) + Filter(AtPos(p), rs)
    decreases |rs|
  {
    if |rs| == 0 || x.pos <= rs[0].pos {
      assert ([x] + rs)[1..] == rs;
    } else {
      var rest := Insert(x, rs[1..]);
      InsertStable(x, rs[1..], p);
      assert ([rs[0]] + rest)[1..] == rest;
    }
  }

  /** Sorting by position keeps, for every position, the records with
      that position in their input order: the sort is stable. */
  lemma {:induction false} SortStable(rs: seq<Ranked>, p: nat)
    ensures Filter(AtPos(p), SortByPos(rs)) == Filter(AtPos(p), rs)
    decreases |rs|
  {
    if |rs| > 0 {
      SortStable(rs[1..], p);
      InsertStable(rs[0], SortByPos(rs[1..]), p);
    }
  }

  /** Sorting moves pairs around without changing any. */
  lemma SortKeepsRanked(keyword: string, rs: seq<Ranked>)
    requires RankedRight(keyword, rs)
    ensures RankedRight(keyword, SortByPos(rs))
  {
    var r := SortByPos(rs);
    forall i | 0 <= i < |r|
      ensures Classify(keyword, r[i].entry) == Phrase(r[i].pos)
    {
      assert r[i] in multiset(r);
      assert r[i] in rs;
    }
  }

  /** Selecting one phrase position commutes with dropping the keys. */
  lemma {:induction false} EntriesAtPos(keyword: string, p: nat, rs: seq<Ranked>)
    requires RankedRight(keyword, rs)
    ensures Filter(InTier(keyword, Phrase(p)), Entries(rs)) == Entries(Filter(AtPos(p), rs))
    decreases |rs|
  {
    if |rs| > 0 {
      EntriesAtPos(keyword, p, rs[1..]);
      assert Entries(rs)[1..] == Entries(rs[1..]);
    }
  }

  // ----- The result, tier by tier -----

  lemma ExactPart(keyword: string, es: seq<Entry>, t: Tier)
    ensures Filter(InTier(keyword, t), Partition(keyword, es).exact)
            == if t == Exact then Filter(InTier(keyword, t), es) else []
  {
    var b := Partition(keyword, es);
    var q := InTier(keyword, t);
    if t == Exact {
      FilterAll(q, b.exact);
    } else {
      FilterNone(q, b.exact);
    }
  }

  lemma DefsPart(keyword: string, es: seq<Entry>, t: Tier)
    ensures Filter(InTier(keyword, t), Partition(keyword, es).defs)
            == if t == DefinitionMatch then Filter(InTier(keyword, t), es) else []
  {
    var b := Partition(keyword, es);
    var q := InTier(keyword, t);
    if t == DefinitionMatch {
      FilterAll(q, b.defs);
    } else {
      FilterNone(q, b.defs);
    }
  }

  lemma PhraseTier(keyword: string, es: seq<Entry>, p: nat)
    ensures var b := Partition(keyword, es);
            Filter(InTier(keyword, Phrase(p)), Entries(SortByPos(b.phrase)))
            == Filter(InTier(keyword, Phrase(p)), es)
  {
    var b := Partition(keyword, es);
    var sorted := SortByPos(b.phrase);
    SortKeepsRanked(keyword, b.phrase);
    EntriesAtPos(keyword, p, sorted);
    SortStable(b.phrase, p);
    EntriesAtPos(keyword, p, b.phrase);
    FilterFilter(InTier(keyword, Phrase(p)), IsPhrase(keyword), es);
  }

  lemma MidPart(keyword: string, es: seq<Entry>, t: Tier)
    ensures Filter(InTier(keyword, t), Entries(SortByPos(Partition(keyword, es).phrase)))
            == if t.Phrase? then Filter(InTier(keyword, t), es) else []
  {
    var b := Partition(keyword, es);
    if t.Phrase? {
      PhraseTier(keyword, es, t.pos);
    } else {
      var sorted := SortByPos(b.phrase);
      SortKeepsRanked(keyword, b.phrase);
      FilterNone(InTier(keyword, t), Entries(sorted));
    }
  }

  /** The records of any one tier appear in the result exactly as they
      appear in the input, same records, same order; records that match
      nothing do not appear. */
  lemma SearchTier(keyword: string, es: seq<Entry>, t: Tier)
    ensures Filter(InTier(keyword, t), Results(keyword, es)) == Expected(keyword, es, t)
  {
    var b := Partition(keyword, es);
    var mid := Entries(SortByPos(b.phrase));
    FilterAppend3(InTier(keyword, t), b.exact, mid, b.defs);
    ExactPart(keyword, es, t);
    MidPart(keyword, es, t);
    DefsPart(keyword, es, t);
  }

  /** A sorted phrase tier, keys dropped, is ordered by tier. */
  lemma MidSorted(keyword: string, rs: seq<Ranked>)
    requires RankedRight(keyword, rs) && SortedByPos(rs)
    ensures SortedTiers(keyword, Entries(rs))
    ensures forall i :: 0 <= i < |rs| ==> TierOf(keyword)(Entries(rs)[i]).Phrase?
  {
  }

  /** Exact records, then tier-ordered Phrase records, then
      DefinitionMatch records, make a tier-ordered sequence. */
  lemma SortedThree(f: Entry -> Tier, a: seq<Entry>, m: seq<Entry>, d: seq<Entry>)
    requires forall i :: 0 <= i < |a| ==> f(a[i]) == Exact
    requires forall i :: 0 <= i < |m| ==> f(m[i]).Phrase?
    requires SortedBy(f, m)
    requires forall i :: 0 <= i < |d| ==> f(d[i]) == DefinitionMatch
    ensures SortedBy(f, a + m + d)
  {
    var r := a + m + d;
    forall i, j | 0 <= i < j < |r|
      ensures TierLe(f(r[i]), f(r[j]))
    {
      if j < |a| {
      } else if i < |a| {
        assert f(r[i]) == Exact;
      } else if j < |a| + |m| {
        assert r[i] == m[i - |a|] && r[j] == m[j - |a|];
      } else if i < |a| + |m| {
        assert f(r[i]).Phrase? && f(r[j]) == DefinitionMatch;
      } else {
        assert r[i] == d[i - |a| - |m|] && r[j] == d[j - |a| - |m|];
      }
    }
  }

  /** The result is ordered: Exact records, then Phrase records by
      ascending position, then DefinitionMatch records. */
  lemma SearchSorted(keyword: string, es: seq<Entry>)
    ensures SortedTiers(keyword, Results(keyword, es))
  {
    var b := Partition(keyword, es);
    var sorted := SortByPos(b.phrase);
    SortKeepsRanked(keyword, b.phrase);
    MidSorted(keyword, sorted);
    SortedThree(TierOf(keyword), b.exact, Entries(sorted), b.defs);
  }

  /** The first element of `r` heads its own tier's selection. */
  lemma FilterHead(f: Entry -> Tier, r: seq<Entry>)
    requires |r| > 0
    ensures Filter(Is(f, f(r[0])), r) == [r[0]] + Filter(Is(f, f(r[0])), r[1..])
  {
  }

  /** The tier of the first element of `r1` occurs in `r2`, so it is not
      below the tier of the first element of `r2`. */
  lemma HeadTierLeast(f: Entry -> Tier, r1: seq<Entry>, r2: seq<Entry>)
    requires |r1| > 0 && |r2| > 0 && SortedBy(f, r2)
    requires Filter(Is(f, f(r1[0])), r1) == Filter(Is(f, f(r1[0])), r2)
    ensures TierLe(f(r2[0]), f(r1[0]))
  {
    var q := Is(f, f(r1[0]));
    assert r1[0] in r1;
    FilterIn(q, r1, r1[0]);
    FilterIn(q, r2, r1[0]);
    var j :| 0 <= j < |r2| && r2[j] == r1[0];
    if j > 0 {
      assert TierLe(f(r2[0]), f(r2[j]));
    }
  }

  /** Equal heads and equal selections per tier leave equal selections
      of the tails. */
  lemma TailsAgree(f: Entry -> Tier, r1: seq<Entry>, r2: seq<Entry>)
    requires |r1| > 0 && |r2| > 0 && r1[0] == r2[0]
    requires forall t :: Filter(Is(f, t), r1) == Filter(Is(f, t), r2)
    ensures forall t :: Filter(Is(f, t), r1[1..]) == Filter(Is(f, t), r2[1..])
  {
    forall t
      ensures Filter(Is(f, t), r1[1..]) == Filter(Is(f, t), r2[1..])
    {
      var q := Is(f, t);
      assert Filter(q, r1) == Filter(q, r2);
      if q(r1[0]) {
        assert Filter(q, r1)[1..] == Filter(q, r1[1..]);
        assert Filter(q, r2)[1..] == Filter(q, r2[1..]);
      }
    }
  }

  /** Two tier-ordered sequences holding the same records of every tier,
      in the same order, are equal. */
  lemma {:induction false} SortedUnique(f: Entry -> Tier, r1: seq<Entry>, r2: seq<Entry>)
    requires SortedBy(f, r1) && SortedBy(f, r2)
    requires forall t :: Filter(Is(f, t), r1) == Filter(Is(f, t), r2)
    ensures r1 == r2
    decreases |r1|
  {
    if |r1| == 0 && |r2| > 0 {
      FilterHead(f, r2);
    } else if |r1| > 0 && |r2| == 0 {
      FilterHead(f, r1);
    } else if |r1| > 0 {
      HeadTierLeast(f, r1, r2);
      HeadTierLeast(f, r2, r1);
      TierLeTotalOrder(f(r1[0]), f(r2[0]), f(r1[0]));
      FilterHead(f, r1);
      FilterHead(f, r2);
      assert Filter(Is(f, f(r1[0])), r1)[0] == r1[0];
      assert r1[0] == r2[0];
      TailsAgree(f, r1, r2);
      SortedUnique(f, r1[1..], r2[1..]);
      assert r1 == [r1[0]] + r1[1..];
      assert r2 == [r2[0]] + r2[1..];
    }
  }

  /** The search result is characterised by what it holds and how it is
      ordered: a sequence is the result exactly when it is tier-ordered and
      holds, tier by tier, the matching input records in input order. */
  lemma SearchCharacterised(keyword: string, es: seq<Entry>, r: seq<Entry>)
    ensures r == Results(keyword, es) <==>
              SortedTiers(keyword, r)
              && forall t :: Filter(InTier(keyword, t), r) == Expected(keyword, es, t)
  {
    var s := Results(keyword, es);
    SearchSorted(keyword, es);
    forall t
      ensures Filter(InTier(keyword, t), s) == Expected(keyword, es, t)
    {
      SearchTier(keyword, es, t);
    }
    if SortedTiers(keyword, r) && forall t :: Filter(InTier(keyword, t), r) == Expected(keyword, es, t) {
      forall t
        ensures Filter(Is(TierOf(keyword), t), r) == Filter(Is(TierOf(keyword), t), s)
      {
        assert InTier(keyword, t) == Is(TierOf(keyword), t);
      }
      SortedUnique(TierOf(keyword), r, s);
    }
  }

  /** No record is duplicated or invented: a matching record occurs in
      the result as often as in the input, any other record never. */
  lemma SearchCount(keyword: string, es: seq<Entry>, e: Entry)
    ensures multiset(Results(keyword, es))[e] == if Matches(keyword, e) then multiset(es)[e] else 0
  {
    var r := Results(keyword, es);
    var t := Classify(keyword, e);
    SearchTier(keyword, es, t);
    FilterCount(InTier(keyword, t), r, e);
    FilterCount(InTier(keyword, t), es, e);
  }

  /** The keyword's case does not matter. */
  lemma KeywordCaseInsensitive(keyword: string, es: seq<Entry>)
    ensures Results(Lower(keyword), es) == Results(keyword, es)
  {
    LowerIdempotent(keyword);
    assert forall e :: Classify(Lower(keyword), e) == Classify(keyword, e);
    assert Partition(Lower(keyword), es) == Partition(keyword, es) by {
      PartitionSameTiers(Lower(keyword), keyword, es);
    }
  }

  lemma {:induction false} PartitionSameTiers(k1: string, k2: string, es: seq<Entry>)
    requires forall e :: Classify(k1, e) == Classify(k2, e)
    ensures Partition(k1, es) == Partition(k2, es)
    decreases |es|
  {
    if |es| > 0 {
      PartitionSameTiers(k1, k2, es[1..]);
    }
  }

  /** The empty keyword matches every record: it is an Exact match when
      some term is empty, and otherwise a Phrase match at position 0. */
  lemma EmptyKeywordMatchesAll(e: Entry)
    ensures Classify("", e) == Exact || Classify("", e) == Phrase(0)
  {
    ClassifySpec("", e);
    assert Lower("") == "";
    assert OccursAt(Terms(e)[0], "", 0);
  }

  /** The result holds exactly the input records that match. */
  lemma SearchMembers(keyword: string, es: seq<Entry>, e: Entry)
    ensures e in Results(keyword, es) <==> e in es && Matches(keyword, e)
  {
    SearchCount(keyword, es, e);
    assert e in Results(keyword, es) <==> multiset(Results(keyword, es))[e] > 0;
    assert e in es <==> multiset(es)[e] > 0;
  }

  /** Input without repeated records gives a result without repeated
      records. */
  lemma SearchNoDuplicates(keyword: string, es: seq<Entry>)
    requires forall e :: multiset(es)[e] <= 1
    ensures forall e :: multiset(Results(keyword, es))[e] <= 1
  {
    forall e
      ensures multiset(Results(keyword, es))[e] <= 1
    {
      SearchCount(keyword, es, e);
    }
  }
}
