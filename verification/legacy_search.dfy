/** `searchSmart` of the older script. The whole query is looked up first
    and every hit overwrites its record's entry with a full-phrase entry;
    then each search word is looked up with the fuzzy index and every hit
    updates its record's entry. Every entry is ranked by its plain average
    score, none is dropped, and the list is sorted with the shared comparator. */
module LegacySearch {
  import opened Optional
  import opened Text
  import opened StableSort
  import opened QueryWords
  import opened Accumulator
  import opened Passes
  import opened Ranking

  /** The older script's shorter stop-word list. */
  const LegacyStopWords: set<string> := {
    "a", "an", "the", "is", "of", "in", "at", "on", "to", "for", "with", "and", "or",
    "does", "how", "what", "can", "do"
  }

  /** The search words: fields longer than two characters that are not stop words. */
  function Words(query: string): (ws: seq<string>)
    ensures forall k :: 0 <= k < |ws| ==> |ws[k]| >= 3 && ws[k] !in LegacyStopWords
  {
    Terms(query, 2, LegacyStopWords)
  }

  /** The full-phrase pass, then the word pass. */
  function Events(query: string, index: Index, titleIndexed: bool): seq<Event> {
    ResetEvents(index(query)) + IndexEvents(Words(query), index, titleIndexed)
  }

  function Accumulate(query: string, index: Index, titleIndexed: bool): seq<Entry> {
    Run([], Events(query, index, titleIndexed))
  }

  /** Every entry is a bare full-phrase entry: counted once, no word, no title match. */
  ghost predicate PhraseOnly(es: seq<Entry>) {
    forall i :: 0 <= i < |es| ==> es[i].full && !es[i].inTitle && es[i].matched == {} && es[i].count == 1
  }

  /** After the full-phrase pass the map holds one bare full-phrase entry
      per record the whole query found, and nothing else. */
  lemma {:induction false} PhrasePass(hits: seq<Hit>)
    ensures var es := Run([], ResetEvents(hits));
      UniqueIds(es) && PhraseOnly(es) && IdSet(es) == HitIds(hits)
    decreases |hits|
  {
    if hits != [] {
      var init, h := hits[..|hits| - 1], hits[|hits| - 1];
      var evs := ResetEvents(hits);
      assert evs[..|evs| - 1] == ResetEvents(init);
      assert evs[|evs| - 1] == Reset(h);
      PhrasePass(init);
      var mid := Run([], ResetEvents(init));
      ApplyShape(mid, Reset(h));
      assert HitIds(hits) == HitIds(init) + {h.item.id} by {
        assert forall k :: 0 <= k < |init| ==> init[k] == hits[k];
      }
    }
  }

  /** The map after the full-phrase pass satisfies the word pass's invariants. */
  lemma PhraseStart(es: seq<Entry>, ws: set<string>, hits: seq<Hit>)
    requires PhraseOnly(es) && IdSet(es) == HitIds(hits)
    ensures Sound(es, ws)
    ensures FlagExactly(es, FullMatch, HitIds(hits))
    ensures FlagExactly(es, InTitle, {})
    ensures MatchedExactly(es, {})
  {
  }

  /** The accumulated map has one entry per record that the whole query or
      some word found; each entry was counted at least once and matched
      only search words. */
  lemma AccumulateSound(query: string, index: Index, titleIndexed: bool)
    ensures var es := Accumulate(query, index, titleIndexed);
      && UniqueIds(es)
      && Sound(es, set w | w in Words(query))
      && IdSet(es) == HitIds(index(query)) + IndexIds(Words(query), index)
  {
    var ws := Words(query);
    var a, b := ResetEvents(index(query)), IndexEvents(ws, index, titleIndexed);
    RunAppend([], a, b);
    PhrasePass(index(query));
    var es1 := Run([], a);
    var sw := set w | w in ws;
    PhraseStart(es1, sw, index(query));
    IndexPass(ws, index, titleIndexed);
    RunSound(es1, b, sw);
  }

  /** An entry is a full-phrase match exactly when the whole query found
      its record, whatever the words found later; it matched in the title
      exactly when some word found it with that word in its title; and its
      matched words are exactly the words that found it. */
  lemma AccumulateFlags(query: string, index: Index, titleIndexed: bool)
    ensures var es := Accumulate(query, index, titleIndexed);
      && (forall i :: 0 <= i < |es| ==> (es[i].full <==> es[i].item.id in HitIds(index(query))))
      && (forall i :: 0 <= i < |es| ==> (es[i].inTitle <==> es[i].item.id in IndexTitles(Words(query), index, titleIndexed)))
      && (forall i, w :: 0 <= i < |es| ==> (w in es[i].matched <==> (es[i].item.id, w) in IndexPairs(Words(query), index)))
  {
    var ws := Words(query);
    var a, b := ResetEvents(index(query)), IndexEvents(ws, index, titleIndexed);
    RunAppend([], a, b);
    PhrasePass(index(query));
    var es1 := Run([], a);
    PhraseStart(es1, {}, index(query));
    IndexPass(ws, index, titleIndexed);
    RunFlag(es1, b, FullMatch, HitIds(index(query)));
    RunFlag(es1, b, InTitle, {});
    RunMatched(es1, b, {});
  }

  /** The older script's projection of an entry onto a result: the plain
      average, which the script would compute as `NaN` for an entry never
      counted. */
  function MeanRank(e: Entry): (r: Ranked)
    requires e.count > 0
    ensures r.item == e.item && r.full == e.full && r.inTitle == e.inTitle
    ensures r.matchedCount == |e.matched| && r.averageScore * e.count as real == e.scoreSum
  {
    Ranked(e.item, Mean(e), e.full, |e.matched|, e.inTitle)
  }

  /** Every entry ranked, in map order. */
  function MeanRanks(es: seq<Entry>): (rs: seq<Ranked>)
    requires forall i :: 0 <= i < |es| ==> es[i].count > 0
    ensures |rs| == |es|
    ensures forall r :: r in rs <==> exists e :: e in es && r == MeanRank(e)
  {
    var rs := seq(|es|, i requires 0 <= i < |es| => MeanRank(es[i]));
    assert forall r :: r in rs ==> exists e :: e in es && r == MeanRank(e) by {
      forall r | r in rs ensures exists e :: e in es && r == MeanRank(e) {
        var i :| 0 <= i < |rs| && rs[i] == r;
        assert es[i] in es;
      }
    }
    assert forall e :: e in es ==> MeanRank(e) in rs by {
      forall e | e in es ensures MeanRank(e) in rs {
        var i :| 0 <= i < |es| && es[i] == e;
        assert rs[i] == MeanRank(e);
      }
    }
    rs
  }

  /** `searchSmart(query)`. */
  function SearchSmart(query: string, index: Index, titleIndexed: bool): seq<Ranked> {
    var es := Accumulate(query, index, titleIndexed);
    AccumulateSound(query, index, titleIndexed);
    Sort(MeanRanks(es), Before)
  }

  /** The results are every accumulated entry, ranked: none is dropped, not
      even one the words never found. They are sorted by the comparator and
      keep the map's order among results with equal keys. */
  lemma SearchResults(query: string, index: Index, titleIndexed: bool, r: Ranked)
    ensures var es := Accumulate(query, index, titleIndexed);
      && (forall i :: 0 <= i < |es| ==> es[i].count > 0)
      && |SearchSmart(query, index, titleIndexed)| == |es|
      && (r in SearchSmart(query, index, titleIndexed) <==> exists e :: e in es && r == MeanRank(e))
      && Sorted(SearchSmart(query, index, titleIndexed), Before)
      && EquivClass(SearchSmart(query, index, titleIndexed), r, Before) == EquivClass(MeanRanks(es), r, Before)
  {
    var es := Accumulate(query, index, titleIndexed);
    AccumulateSound(query, index, titleIndexed);
    var rs := MeanRanks(es);
    var out := SearchSmart(query, index, titleIndexed);
    SortedResults(rs, r);
    assert |out| == |rs| by {
      assert |multiset(out)| == |multiset(rs)|;
    }
    assert r in out <==> r in rs by {
      assert r in out <==> r in multiset(out);
    }
  }

  /** A record found by the whole query but by no word is still a result,
      with no matched word: the older script keeps phrase-only matches. */
  lemma PhraseOnlyKept(query: string, index: Index, titleIndexed: bool, h: Hit)
    requires h in index(query)
    requires forall w, k :: w in Words(query) && 0 <= k < |index(w)| ==> index(w)[k].item.id != h.item.id
    ensures exists r :: r in SearchSmart(query, index, titleIndexed) && r.item.id == h.item.id && r.full && r.matchedCount == 0
  {
    var es := Accumulate(query, index, titleIndexed);
    AccumulateSound(query, index, titleIndexed);
    AccumulateFlags(query, index, titleIndexed);
    var k :| 0 <= k < |index(query)| && index(query)[k] == h;
    assert h.item.id in HitIds(index(query));
    var i :| 0 <= i < |es| && es[i].item.id == h.item.id;
    assert es[i].matched == {} by {
      forall w ensures w !in es[i].matched {
        assert (h.item.id, w) !in IndexPairs(Words(query), index);
      }
    }
    var r := MeanRank(es[i]);
    SearchResults(query, index, titleIndexed, r);
    assert es[i] in es;
  }
}
