/** The results both `searchSmart` functions return and the comparator
    they sort them with: title matches first, then more matched words,
    then full-phrase matches, then the lower average score. */
module Ranking {
  import opened Accumulator
  import opened StableSort

  /** One search result and the keys it is sorted by. */
  datatype Ranked = Ranked(item: Record, averageScore: real, full: bool, matchedCount: nat, inTitle: bool)

  /** The comparator as the scripts write it: negative when `a` goes first. */
  function Compare(a: Ranked, b: Ranked): real {
    if a.inTitle && !b.inTitle then -1.0
    else if !a.inTitle && b.inTitle then 1.0
    else if b.matchedCount != a.matchedCount then (b.matchedCount - a.matchedCount) as real
    else if a.full && !b.full then -1.0
    else if !a.full && b.full then 1.0
    else a.averageScore - b.averageScore
  }

  predicate Before(a: Ranked, b: Ranked) {
    Compare(a, b) < 0.0
  }

  /** The order the comparator encodes, key by key. */
  predicate KeyBefore(a: Ranked, b: Ranked) {
    || (a.inTitle && !b.inTitle)
    || (a.inTitle == b.inTitle && a.matchedCount > b.matchedCount)
    || (a.inTitle == b.inTitle && a.matchedCount == b.matchedCount && a.full && !b.full)
    || (a.inTitle == b.inTitle && a.matchedCount == b.matchedCount && a.full == b.full && a.averageScore < b.averageScore)
  }

  /** The comparator is antisymmetric, as `Array.prototype.sort` needs, and
      it orders results lexicographically by the four keys. */
  lemma CompareKeys(a: Ranked, b: Ranked)
    ensures Compare(a, b) == -Compare(b, a)
    ensures Before(a, b) <==> KeyBefore(a, b)
    ensures Compare(a, b) == 0.0 <==>
      a.inTitle == b.inTitle && a.matchedCount == b.matchedCount && a.full == b.full && a.averageScore == b.averageScore
  {
  }

  /** The comparator is consistent, so the stable sort's result is determined. */
  lemma BeforeIsWeakOrder()
    ensures StrictWeakOrder(Before)
  {
    forall a, b ensures Before(a, b) <==> KeyBefore(a, b) {
      CompareKeys(a, b);
    }
  }

  /** `entry.scoreSum / entry.count`. */
  function Mean(e: Entry): real
    requires e.count > 0
  {
    e.scoreSum / e.count as real
  }

  /** The newer script's average, with its fallback for an entry never counted. */
  function Average(e: Entry): real {
    if e.count > 0 then Mean(e) else 1.0
  }

  /** The newer script's projection of an entry onto a result. */
  function Rank(e: Entry): Ranked {
    Ranked(e.item, Average(e), e.full, |e.matched|, e.inTitle)
  }

  function RankAll(es: seq<Entry>): (rs: seq<Ranked>)
    ensures |rs| == |es|
  {
    seq(|es|, i requires 0 <= i < |es| => Rank(es[i]))
  }

  /** The sorted results: ordered by the comparator, a permutation of the
      input, and results with equal keys keep their relative order. */
  lemma SortedResults(rs: seq<Ranked>, e: Ranked)
    ensures Sorted(Sort(rs, Before), Before)
    ensures multiset(Sort(rs, Before)) == multiset(rs)
    ensures EquivClass(Sort(rs, Before), e, Before) == EquivClass(rs, e, Before)
  {
    BeforeIsWeakOrder();
    SortSorted(rs, Before);
    SortPermutes(rs, Before);
    SortStable(rs, e, Before);
  }
}
