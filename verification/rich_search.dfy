/** `searchSmart` of the newer script and the re-sort `updateList` applies
    to its results. The query's words are split into short words, looked
    up in the records' serialised text, and long words, looked up with the
    fuzzy index; then the whole query is looked up. Every hit updates the
    entry of its record. The script keeps two maps, one for strict and one
    for loose results, but feeds them identical updates, so the model keeps
    one. Strict entries matched every word; loose entries matched some
    word but not all; the two lists together are ranked and sorted. */
module RichSearch {
  import opened Optional
  import opened Text
  import opened Filters
  import opened StableSort
  import opened QueryWords
  import opened Accumulator
  import opened Passes
  import opened Ranking

  /** The search words: fields longer than one character that are not stop words. */
  function Words(query: string): seq<string> {
    Terms(query, 1, StopWords)
  }

  /** Everything the three passes feed to the result map, in order: the
      long words' fuzzy hits, the short words' text matches, and the whole
      query's fuzzy hits. */
  function Events(query: string, index: Index, data: seq<Record>, titleIndexed: bool): seq<Event> {
    var ws := Words(query);
    IndexEvents(LongWords(ws), index, titleIndexed) + HaystackPass(ShortWords(ws), data, titleIndexed) + FullEvents(index(query))
  }

  function Accumulate(query: string, index: Index, data: seq<Record>, titleIndexed: bool): seq<Entry> {
    Run([], Events(query, index, data, titleIndexed))
  }

  /** The record pairs with each word that found it: a long word the fuzzy
      index returned it for, or a short word its text contains. */
  ghost function Found(query: string, index: Index, data: seq<Record>): set<(int, string)> {
    var ws := Words(query);
    IndexPairs(LongWords(ws), index) + HaystackPairs(ShortWords(ws), data)
  }

  /** The records some word found with the word in their title. */
  ghost function FoundInTitle(query: string, index: Index, data: seq<Record>, titleIndexed: bool): set<int> {
    var ws := Words(query);
    IndexTitles(LongWords(ws), index, titleIndexed) + HaystackTitles(ShortWords(ws), data, titleIndexed)
  }

  /** Every record any pass touched. */
  ghost function Touched(query: string, index: Index, data: seq<Record>): set<int> {
    var ws := Words(query);
    IndexIds(LongWords(ws), index) + HaystackIds(ShortWords(ws), data) + HitIds(index(query))
  }

  lemma WordsInMonotone(evs: seq<Event>, ws: set<string>, ws': set<string>)
    requires WordsIn(evs, ws) && ws <= ws'
    ensures WordsIn(evs, ws')
  {
  }

  /** The long and the short words are search words. */
  lemma PartsAreWords(ws: seq<string>)
    ensures (set w | w in LongWords(ws)) <= (set w | w in ws)
    ensures (set w | w in ShortWords(ws)) <= (set w | w in ws)
  {
    ShortLongPartition(ws);
  }

  /** The accumulated map has one entry per touched record; each entry was
      counted at least once, has no more matched words than counts, and has
      matched only search words. */
  lemma AccumulateSound(query: string, index: Index, data: seq<Record>, titleIndexed: bool)
    ensures var es := Accumulate(query, index, data, titleIndexed);
      && UniqueIds(es)
      && Sound(es, set w | w in Words(query))
      && IdSet(es) == Touched(query, index, data)
  {
    var ws := Words(query);
    var sw := set w | w in ws;
    var a := IndexEvents(LongWords(ws), index, titleIndexed);
    var b := HaystackPass(ShortWords(ws), data, titleIndexed);
    var c := FullEvents(index(query));
    IndexPass(LongWords(ws), index, titleIndexed);
    HaystackPassShape(ShortWords(ws), data, titleIndexed);
    FullPassShape(index(query));
    PartsAreWords(ws);
    WordsInMonotone(a, (set w | w in LongWords(ws)), sw);
    WordsInMonotone(b, (set w | w in ShortWords(ws)), sw);
    AppendIds(a, b);
    AppendIds(a + b, c);
    EmptySound(sw);
    RunSound([], a + b + c, sw);
  }

  /** An entry's matched words are exactly the words that found its record. */
  lemma AccumulateMatched(query: string, index: Index, data: seq<Record>, titleIndexed: bool)
    ensures var es := Accumulate(query, index, data, titleIndexed);
      forall i, w :: 0 <= i < |es| ==> (w in es[i].matched <==> (es[i].item.id, w) in Found(query, index, data))
  {
    var ws := Words(query);
    var a := IndexEvents(LongWords(ws), index, titleIndexed);
    var b := HaystackPass(ShortWords(ws), data, titleIndexed);
    var c := FullEvents(index(query));
    IndexPass(LongWords(ws), index, titleIndexed);
    HaystackPassShape(ShortWords(ws), data, titleIndexed);
    FullPassShape(index(query));
    AppendPairs(a, b);
    AppendPairs(a + b, c);
    assert NoResets(a + b + c);
    RunMatched([], a + b + c, {});
  }

  /** An entry is a full-phrase match exactly when the whole query found
      its record, and it matched in the title exactly when some word found
      the record with that word in its title. */
  lemma AccumulateFlags(query: string, index: Index, data: seq<Record>, titleIndexed: bool)
    ensures var es := Accumulate(query, index, data, titleIndexed);
      && (forall i :: 0 <= i < |es| ==> (es[i].full <==> es[i].item.id in HitIds(index(query))))
      && (forall i :: 0 <= i < |es| ==> (es[i].inTitle <==> es[i].item.id in FoundInTitle(query, index, data, titleIndexed)))
  {
    var ws := Words(query);
    var a := IndexEvents(LongWords(ws), index, titleIndexed);
    var b := HaystackPass(ShortWords(ws), data, titleIndexed);
    var c := FullEvents(index(query));
    IndexPass(LongWords(ws), index, titleIndexed);
    HaystackPassShape(ShortWords(ws), data, titleIndexed);
    FullPassShape(index(query));
    AppendRaising(a, b, FullMatch);
    AppendRaising(a + b, c, FullMatch);
    AppendRaising(a, b, InTitle);
    AppendRaising(a + b, c, InTitle);
    assert NoResets(a + b + c);
    RunFlag([], a + b + c, FullMatch, {});
    RunFlag([], a + b + c, InTitle, {});
  }

  /** The short-word pass never changes a score sum. */
  lemma ShortPassKeepsScores(es: seq<Entry>, ws: seq<string>, data: seq<Record>, titleIndexed: bool)
    requires UniqueIds(es)
    ensures var r := Run(es, HaystackPass(ws, data, titleIndexed));
      forall j :: 0 <= j < |r| ==> r[j].scoreSum == ScoreOf(es, r[j].item.id)
  {
    HaystackPassShape(ws, data, titleIndexed);
    RunKeepsScores(es, HaystackPass(ws, data, titleIndexed));
  }

  /** The full-phrase pass never adds a matched word. */
  lemma FullPassKeepsMatched(es: seq<Entry>, hits: seq<Hit>)
    requires UniqueIds(es)
    ensures var r := Run(es, FullEvents(hits));
      forall j :: 0 <= j < |r| ==> r[j].matched == MatchedOf(es, r[j].item.id)
  {
    FullPassShape(hits);
    RunKeepsMatched(es, FullEvents(hits));
  }

  /** The entry matched every search word. */
  predicate AllWords(e: Entry, ws: seq<string>) {
    forall k :: 0 <= k < |ws| ==> ws[k] in e.matched
  }

  /** The entry matched at least one search word. */
  predicate SomeWord(e: Entry, ws: seq<string>) {
    exists k :: 0 <= k < |ws| && ws[k] in e.matched
  }

  function Strict(es: seq<Entry>, ws: seq<string>): seq<Entry> {
    Filter(es, e => AllWords(e, ws))
  }

  /** The loose test: the record is not among the strict ones and the
      entry matched at least one word. */
  predicate NotStrictButSome(e: Entry, strictIds: set<int>, ws: seq<string>) {
    e.item.id !in strictIds && SomeWord(e, ws)
  }

  /** The loose results: entries whose record is not among the strict ones
      and that matched at least one word. */
  function Loose(es: seq<Entry>, ws: seq<string>): seq<Entry> {
    var strictIds := set e | e in Strict(es, ws) :: e.item.id;
    Filter(es, e => NotStrictButSome(e, strictIds, ws))
  }

  /** `[...strictResults, ...looseResults]`. */
  function Combined(es: seq<Entry>, ws: seq<string>): seq<Entry> {
    Strict(es, ws) + Loose(es, ws)
  }

  /** With one entry per record, the strict results are the entries that
      matched every word, the loose results those that matched some but not
      every word, and no entry is in both. */
  lemma StrictLoose(es: seq<Entry>, ws: seq<string>, e: Entry)
    requires UniqueIds(es)
    ensures e in Strict(es, ws) <==> e in es && AllWords(e, ws)
    ensures e in Loose(es, ws) <==> e in es && !AllWords(e, ws) && SomeWord(e, ws)
    ensures !(e in Strict(es, ws) && e in Loose(es, ws))
  {
    var strictIds := set e | e in Strict(es, ws) :: e.item.id;
    FilterMembers(es, e => AllWords(e, ws), e);
    FilterMembers(es, e => NotStrictButSome(e, strictIds, ws), e);
    if e in es && e.item.id in strictIds {
      var e' :| e' in Strict(es, ws) && e'.item.id == e.item.id;
      FilterMembers(es, e => AllWords(e, ws), e');
      var i :| 0 <= i < |es| && es[i] == e;
      var j :| 0 <= j < |es| && es[j] == e';
      assert i == j;
    }
  }

  /** With no search words every entry is strict (`every` holds vacuously)
      and nothing is loose. */
  lemma NoWordsAllStrict(es: seq<Entry>)
    ensures Strict(es, []) == es
    ensures Loose(es, []) == []
    ensures Combined(es, []) == es
  {
    FilterAll(es, e => AllWords(e, []));
    var strictIds := set e | e in Strict(es, []) :: e.item.id;
    FilterNone(es, e => NotStrictButSome(e, strictIds, []));
  }

  /** With search words, the results are exactly the entries that matched
      one of them: a record found only by the whole query is dropped. */
  lemma WordsDropPhraseOnly(es: seq<Entry>, ws: seq<string>, e: Entry)
    requires UniqueIds(es) && ws != []
    ensures e in Combined(es, ws) <==> e in es && SomeWord(e, ws)
  {
    StrictLoose(es, ws, e);
    if AllWords(e, ws) {
      assert ws[0] in e.matched;
    }
  }

  /** `searchSmart(query)`. */
  function SearchSmart(query: string, index: Index, data: seq<Record>, titleIndexed: bool): seq<Ranked> {
    Sort(RankAll(Combined(Accumulate(query, index, data, titleIndexed), Words(query))), Before)
  }

  /** The results are sorted by the comparator, are a permutation of the
      ranked strict and loose entries, and keep the map's order among
      results with equal keys. */
  lemma SearchOrdered(query: string, index: Index, data: seq<Record>, titleIndexed: bool, r: Ranked)
    ensures var rs := RankAll(Combined(Accumulate(query, index, data, titleIndexed), Words(query)));
      && Sorted(SearchSmart(query, index, data, titleIndexed), Before)
      && multiset(SearchSmart(query, index, data, titleIndexed)) == multiset(rs)
      && EquivClass(SearchSmart(query, index, data, titleIndexed), r, Before) == EquivClass(rs, r, Before)
  {
    SortedResults(RankAll(Combined(Accumulate(query, index, data, titleIndexed), Words(query))), r);
  }

  /** A ranked strict or loose entry is the ranking of an entry that
      matched a word, or of any entry when there are no words. */
  lemma CombinedRanksFrom(es: seq<Entry>, ws: seq<string>, r: Ranked)
    requires UniqueIds(es)
    requires forall i :: 0 <= i < |es| ==> es[i].count >= 1
    requires r in RankAll(Combined(es, ws))
    ensures exists e :: e in es && (ws == [] || SomeWord(e, ws)) && r == Rank(e) && e.count > 0 && r.averageScore == Mean(e)
  {
    var c := Combined(es, ws);
    var i :| 0 <= i < |c| && RankAll(c)[i] == r;
    assert c[i] in c;
    if ws == [] {
      NoWordsAllStrict(es);
    } else {
      WordsDropPhraseOnly(es, ws, c[i]);
    }
    var j :| 0 <= j < |es| && es[j] == c[i];
    assert es[j].count >= 1;
  }

  /** Every entry that matched a word, or every entry when there are no
      words, is ranked among the strict and loose entries. */
  lemma CombinedRanksTo(es: seq<Entry>, ws: seq<string>, e: Entry)
    requires UniqueIds(es)
    requires e in es && (ws == [] || SomeWord(e, ws))
    ensures Rank(e) in RankAll(Combined(es, ws))
  {
    var c := Combined(es, ws);
    if ws == [] {
      NoWordsAllStrict(es);
    } else {
      WordsDropPhraseOnly(es, ws, e);
    }
    var i :| 0 <= i < |c| && c[i] == e;
    assert RankAll(c)[i] == Rank(e);
  }

  /** The ranked strict and loose entries, for any map with one entry per
      record each counted at least once. */
  lemma CombinedRanks(es: seq<Entry>, ws: seq<string>, r: Ranked)
    requires UniqueIds(es)
    requires forall i :: 0 <= i < |es| ==> es[i].count >= 1
    ensures r in RankAll(Combined(es, ws)) <==> exists e :: e in es && (ws == [] || SomeWord(e, ws)) && r == Rank(e)
    ensures r in RankAll(Combined(es, ws)) ==> exists e :: e in es && r == Rank(e) && e.count > 0 && r.averageScore == Mean(e)
  {
    if r in RankAll(Combined(es, ws)) {
      CombinedRanksFrom(es, ws, r);
    }
    if exists e :: e in es && (ws == [] || SomeWord(e, ws)) && r == Rank(e) {
      var e :| e in es && (ws == [] || SomeWord(e, ws)) && r == Rank(e);
      CombinedRanksTo(es, ws, e);
    }
  }

  /** A result of the search is the ranking of an accumulated entry; with
      search words, exactly of one that matched a word; without, of any
      entry. Its average is the true average of the entry it ranks: the
      fallback for an entry never counted is never taken. */
  lemma SearchMembers(query: string, index: Index, data: seq<Record>, titleIndexed: bool, r: Ranked)
    ensures var es := Accumulate(query, index, data, titleIndexed);
      r in SearchSmart(query, index, data, titleIndexed)
      <==> exists e :: e in es && (Words(query) == [] || SomeWord(e, Words(query))) && r == Rank(e)
    ensures var es := Accumulate(query, index, data, titleIndexed);
      r in SearchSmart(query, index, data, titleIndexed) ==> exists e :: e in es && r == Rank(e) && e.count > 0 && r.averageScore == Mean(e)
  {
    var es := Accumulate(query, index, data, titleIndexed);
    var rs := RankAll(Combined(es, Words(query)));
    var out := SearchSmart(query, index, data, titleIndexed);
    AccumulateSound(query, index, data, titleIndexed);
    SortedResults(rs, r);
    assert r in out <==> r in rs by {
      assert r in out <==> r in multiset(out);
    }
    CombinedRanks(es, Words(query), r);
  }

  /** The words `updateList` re-sorts by: fields longer than one character, stop words included. */
  function RefineWords(query: string): seq<string> {
    Terms(query, 1, {})
  }

  /** Some word occurs in the field, ignoring case; an absent field matches nothing. */
  predicate FieldHas(field: Option<string>, ws: seq<string>) {
    field.Some? && exists k :: 0 <= k < |ws| && Contains(LowerStr(field.value), ws[k])
  }

  /** The re-sort's comparator: a title match first, then a description match. */
  predicate RefineBefore(ws: seq<string>, a: Ranked, b: Ranked) {
    var at, bt := FieldHas(a.item.title, ws), FieldHas(b.item.title, ws);
    var ad, bd := FieldHas(a.item.description, ws), FieldHas(b.item.description, ws);
    (at && !bt) || (at == bt && ad && !bd)
  }

  /** `searchResults.slice().sort(...)` in `updateList`. */
  function Refine(results: seq<Ranked>, query: string): seq<Ranked> {
    var ws := RefineWords(query);
    Sort(results, (a, b) => RefineBefore(ws, a, b))
  }

  /** The re-sort puts title matches before the rest and, among equals,
      description matches first; it only permutes, and it is stable, so the
      relevance order of `searchSmart` survives inside each group. */
  lemma RefineOrdered(results: seq<Ranked>, query: string, r: Ranked)
    ensures var ws := RefineWords(query);
      var lt := (a, b) => RefineBefore(ws, a, b);
      && StrictWeakOrder(lt)
      && Sorted(Refine(results, query), lt)
      && multiset(Refine(results, query)) == multiset(results)
      && EquivClass(Refine(results, query), r, lt) == EquivClass(results, r, lt)
  {
    var ws := RefineWords(query);
    var lt := (a, b) => RefineBefore(ws, a, b);
    assert StrictWeakOrder(lt);
    SortSorted(results, lt);
    SortPermutes(results, lt);
    SortStable(results, r, lt);
  }

  /** After the re-sort, no result whose title matches follows one whose
      title does not. */
  lemma TitleMatchesFirst(results: seq<Ranked>, query: string, i: nat, j: nat)
    requires i < j < |Refine(results, query)|
    requires FieldHas(Refine(results, query)[j].item.title, RefineWords(query))
    ensures FieldHas(Refine(results, query)[i].item.title, RefineWords(query))
  {
    RefineOrdered(results, query, results[0]);
  }
}
