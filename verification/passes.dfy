/** The passes of the search as event sequences: each `forEach` over the
    hits of a word, over the records, or over the full-phrase hits becomes
    the events it feeds to the result map, in the order it feeds them. */
module Passes {
  import opened Optional
  import opened Text
  import opened Accumulator
  import opened Filters

  /** The fuzzy index as the search sees it: `fuse.search(query)`. */
  type Index = string -> seq<Hit>

  /** `fields.includes("title") && item.title?.toLowerCase().includes(word)`. */
  predicate TitleHas(titleIndexed: bool, item: Record, word: string) {
    titleIndexed && item.title.Some? && Contains(LowerStr(item.title.value), word)
  }

  /** The per-word events of `ws`, one word after the other. */
  function Concat(ws: seq<string>, f: string -> seq<Event>): seq<Event> {
    if ws == [] then [] else Concat(ws[..|ws| - 1], f) + f(ws[|ws| - 1])
  }

  lemma AppendPairs(a: seq<Event>, b: seq<Event>)
    ensures WordPairs(a + b) == WordPairs(a) + WordPairs(b)
  {
    var ab := a + b;
    forall p | p in WordPairs(ab) ensures p in WordPairs(a) + WordPairs(b) {
      var k :| 0 <= k < |ab| && ab[k].Touch? && ab[k].delta.word.Some? && p == (EventId(ab[k]), ab[k].delta.word.value);
      if k >= |a| {
        assert ab[k] == b[k - |a|];
      }
    }
    forall p | p in WordPairs(b) ensures p in WordPairs(ab) {
      var k :| 0 <= k < |b| && b[k].Touch? && b[k].delta.word.Some? && p == (EventId(b[k]), b[k].delta.word.value);
      assert ab[k + |a|] == b[k];
    }
    forall p | p in WordPairs(a) ensures p in WordPairs(ab) {
      var k :| 0 <= k < |a| && a[k].Touch? && a[k].delta.word.Some? && p == (EventId(a[k]), a[k].delta.word.value);
      assert ab[k] == a[k];
    }
  }

  lemma AppendRaising(a: seq<Event>, b: seq<Event>, f: Flag)
    ensures Raising(a + b, f) == Raising(a, f) + Raising(b, f)
  {
    var ab := a + b;
    forall x | x in Raising(ab, f) ensures x in Raising(a, f) + Raising(b, f) {
      var k :| 0 <= k < |ab| && ab[k].Touch? && (if f == FullMatch then ab[k].delta.full else ab[k].delta.inTitle) && x == EventId(ab[k]);
      if k >= |a| {
        assert ab[k] == b[k - |a|];
      }
    }
    forall x | x in Raising(b, f) ensures x in Raising(ab, f) {
      var k :| 0 <= k < |b| && b[k].Touch? && (if f == FullMatch then b[k].delta.full else b[k].delta.inTitle) && x == EventId(b[k]);
      assert ab[k + |a|] == b[k];
    }
    forall x | x in Raising(a, f) ensures x in Raising(ab, f) {
      var k :| 0 <= k < |a| && a[k].Touch? && (if f == FullMatch then a[k].delta.full else a[k].delta.inTitle) && x == EventId(a[k]);
      assert ab[k] == a[k];
    }
  }

  lemma AppendIds(a: seq<Event>, b: seq<Event>)
    ensures EventIds(a + b) == EventIds(a) + EventIds(b)
  {
    var ab := a + b;
    forall x | x in EventIds(ab) ensures x in EventIds(a) + EventIds(b) {
      var k :| 0 <= k < |ab| && x == EventId(ab[k]);
      if k >= |a| {
        assert ab[k] == b[k - |a|];
      }
    }
    forall x | x in EventIds(b) ensures x in EventIds(ab) {
      var k :| 0 <= k < |b| && x == EventId(b[k]);
      assert ab[k + |a|] == b[k];
    }
    forall x | x in EventIds(a) ensures x in EventIds(ab) {
      var k :| 0 <= k < |a| && x == EventId(a[k]);
      assert ab[k] == a[k];
    }
  }

  /** A property of every event of every word holds of every event of the concatenation. */
  lemma {:induction false} ConcatAll(ws: seq<string>, f: string -> seq<Event>, q: Event -> bool)
    requires forall w, k :: w in ws && 0 <= k < |f(w)| ==> q(f(w)[k])
    ensures forall k :: 0 <= k < |Concat(ws, f)| ==> q(Concat(ws, f)[k])
  {
    if ws != [] {
      var init, w := ws[..|ws| - 1], ws[|ws| - 1];
      assert forall v :: v in init ==> v in ws;
      ConcatAll(init, f, q);
      var a := Concat(init, f);
      assert forall k :: |a| <= k < |a| + |f(w)| ==> Concat(ws, f)[k] == f(w)[k - |a|];
    }
  }

  /** The word pairs of the concatenation are those of its words. */
  lemma {:induction false} ConcatPairs(ws: seq<string>, f: string -> seq<Event>)
    ensures forall p :: p in WordPairs(Concat(ws, f)) <==> exists w :: w in ws && p in WordPairs(f(w))
  {
    if ws != [] {
      var init, w := ws[..|ws| - 1], ws[|ws| - 1];
      ConcatPairs(init, f);
      AppendPairs(Concat(init, f), f(w));
      assert ws == init + [w];
    }
  }

  lemma {:induction false} ConcatRaising(ws: seq<string>, f: string -> seq<Event>, fl: Flag)
    ensures forall x :: x in Raising(Concat(ws, f), fl) <==> exists w :: w in ws && x in Raising(f(w), fl)
  {
    if ws != [] {
      var init, w := ws[..|ws| - 1], ws[|ws| - 1];
      ConcatRaising(init, f, fl);
      AppendRaising(Concat(init, f), f(w), fl);
      assert ws == init + [w];
    }
  }

  lemma {:induction false} ConcatIds(ws: seq<string>, f: string -> seq<Event>)
    ensures forall x :: x in EventIds(Concat(ws, f)) <==> exists w :: w in ws && x in EventIds(f(w))
  {
    if ws != [] {
      var init, w := ws[..|ws| - 1], ws[|ws| - 1];
      ConcatIds(init, f);
      AppendIds(Concat(init, f), f(w));
      assert ws == init + [w];
    }
  }

  /** `fuse.search(word).forEach(...)` of the word passes. */
  function HitEvents(hits: seq<Hit>, word: string, titleIndexed: bool): (evs: seq<Event>)
    ensures |evs| == |hits|
  {
    seq(|hits|, k requires 0 <= k < |hits| =>
      Touch(hits[k].item, Delta(hits[k].score, Some(word), TitleHas(titleIndexed, hits[k].item, word), false)))
  }

  /** The record's serialised text contains the word, ignoring case. */
  predicate Finds(item: Record, word: string) {
    Contains(LowerStr(item.haystack), word)
  }

  /** `data.forEach(...)` of the short-word pass: the records whose
      serialised text contains the word, in data order, each counted
      without a score. */
  function HaystackEvents(data: seq<Record>, word: string, titleIndexed: bool): seq<Event> {
    var hs := Filter(data, item => Finds(item, word));
    seq(|hs|, k requires 0 <= k < |hs| => Touch(hs[k], Delta(0.0, Some(word), TitleHas(titleIndexed, hs[k], word), false)))
  }

  /** The full-phrase pass that updates an entry (newer script). */
  function FullEvents(hits: seq<Hit>): (evs: seq<Event>)
    ensures |evs| == |hits|
  {
    seq(|hits|, k requires 0 <= k < |hits| => Touch(hits[k].item, Delta(hits[k].score, None, false, true)))
  }

  /** The full-phrase pass that overwrites an entry (older script). */
  function ResetEvents(hits: seq<Hit>): (evs: seq<Event>)
    ensures |evs| == |hits|
  {
    seq(|hits|, k requires 0 <= k < |hits| => Reset(hits[k]))
  }

  /** The ids of a list of hits. */
  function HitIds(hits: seq<Hit>): set<int> {
    set k | 0 <= k < |hits| :: hits[k].item.id
  }

  /** The pairs (record, word) where the fuzzy index returns the record for the word. */
  ghost function IndexPairs(ws: seq<string>, index: Index): set<(int, string)> {
    set w, k | w in ws && 0 <= k < |index(w)| :: (index(w)[k].item.id, w)
  }

  /** The records the index returns for some word and whose title contains it. */
  ghost function IndexTitles(ws: seq<string>, index: Index, titleIndexed: bool): set<int> {
    set w, k | w in ws && 0 <= k < |index(w)| && TitleHas(titleIndexed, index(w)[k].item, w) :: index(w)[k].item.id
  }

  /** The records the index returns for some word. */
  ghost function IndexIds(ws: seq<string>, index: Index): set<int> {
    set w, k | w in ws && 0 <= k < |index(w)| :: index(w)[k].item.id
  }

  /** The word passes over the fuzzy index. */
  function IndexEvents(ws: seq<string>, index: Index, titleIndexed: bool): seq<Event> {
    Concat(ws, w => HitEvents(index(w), w, titleIndexed))
  }

  /** A word pass over the index touches exactly the records the index
      returns, matches each with the words it was returned for, raises the
      title flag where the title contains the word and never raises the
      full-phrase flag. */
  lemma IndexPass(ws: seq<string>, index: Index, titleIndexed: bool)
    ensures var evs := IndexEvents(ws, index, titleIndexed);
      && NoResets(evs)
      && WordsIn(evs, set w | w in ws)
      && WordPairs(evs) == IndexPairs(ws, index)
      && Raising(evs, InTitle) == IndexTitles(ws, index, titleIndexed)
      && Raising(evs, FullMatch) == {}
      && EventIds(evs) == IndexIds(ws, index)
  {
    var f := w => HitEvents(index(w), w, titleIndexed);
    var evs := IndexEvents(ws, index, titleIndexed);
    ConcatAll(ws, f, (ev: Event) => ev.Touch? && !ev.delta.full && ev.delta.word.Some? && ev.delta.word.value in ws);
    ConcatPairs(ws, f);
    ConcatRaising(ws, f, InTitle);
    ConcatRaising(ws, f, FullMatch);
    ConcatIds(ws, f);
    forall p ensures p in WordPairs(evs) <==> p in IndexPairs(ws, index) {
      if p in IndexPairs(ws, index) {
        var w, k :| w in ws && 0 <= k < |index(w)| && p == (index(w)[k].item.id, w);
        assert f(w)[k] == HitEvents(index(w), w, titleIndexed)[k];
      }
    }
    forall x ensures x in Raising(evs, InTitle) <==> x in IndexTitles(ws, index, titleIndexed) {
      if x in IndexTitles(ws, index, titleIndexed) {
        var w, k :| w in ws && 0 <= k < |index(w)| && TitleHas(titleIndexed, index(w)[k].item, w) && x == index(w)[k].item.id;
        assert f(w)[k] == HitEvents(index(w), w, titleIndexed)[k];
      }
    }
    forall x ensures x in EventIds(evs) <==> x in IndexIds(ws, index) {
      if x in IndexIds(ws, index) {
        var w, k :| w in ws && 0 <= k < |index(w)| && x == index(w)[k].item.id;
        assert f(w)[k] == HitEvents(index(w), w, titleIndexed)[k];
      }
    }
  }

  /** The records whose text contains `word`. */
  ghost function Holders(data: seq<Record>, word: string): set<int> {
    set item | item in data && Finds(item, word) :: item.id
  }

  /** The records whose text contains `word` and whose title contains it too. */
  ghost function TitleHolders(data: seq<Record>, word: string, titleIndexed: bool): set<int> {
    set item | item in data && Finds(item, word) && TitleHas(titleIndexed, item, word) :: item.id
  }

  /** The events of one short word carry it, without a score and without
      the full-phrase flag. */
  lemma HaystackWordEvents(data: seq<Record>, word: string, titleIndexed: bool)
    ensures var evs := HaystackEvents(data, word, titleIndexed);
      forall k :: 0 <= k < |evs| ==>
        evs[k].Touch? && evs[k].delta.score == 0.0 && !evs[k].delta.full && evs[k].delta.word == Some(word)
  {
  }

  /** The records the short-word pass finds for one word: exactly those in
      the data whose text contains it. */
  lemma HaystackHits(data: seq<Record>, word: string, item: Record)
    ensures item in Filter(data, item => Finds(item, word)) <==> item in data && Finds(item, word)
  {
    FilterMembers(data, item => Finds(item, word), item);
  }

  /** The events of one short word are about the records whose text contains it. */
  lemma HaystackWordIds(data: seq<Record>, word: string, titleIndexed: bool)
    ensures EventIds(HaystackEvents(data, word, titleIndexed)) == Holders(data, word)
  {
    var hs := Filter(data, item => Finds(item, word));
    var evs := HaystackEvents(data, word, titleIndexed);
    forall x | x in Holders(data, word) ensures x in EventIds(evs) {
      var item :| item in data && Finds(item, word) && item.id == x;
      HaystackHits(data, word, item);
      var k :| 0 <= k < |hs| && hs[k] == item;
      assert EventId(evs[k]) == x;
    }
    forall x | x in EventIds(evs) ensures x in Holders(data, word) {
      var k :| 0 <= k < |evs| && EventId(evs[k]) == x;
      HaystackHits(data, word, hs[k]);
    }
  }

  /** The events of one short word raise the title flag on the records
      whose title contains it. */
  lemma HaystackWordTitles(data: seq<Record>, word: string, titleIndexed: bool)
    ensures Raising(HaystackEvents(data, word, titleIndexed), InTitle) == TitleHolders(data, word, titleIndexed)
  {
    var hs := Filter(data, item => Finds(item, word));
    var evs := HaystackEvents(data, word, titleIndexed);
    forall x | x in TitleHolders(data, word, titleIndexed) ensures x in Raising(evs, InTitle) {
      var item :| item in data && Finds(item, word) && TitleHas(titleIndexed, item, word) && item.id == x;
      HaystackHits(data, word, item);
      var k :| 0 <= k < |hs| && hs[k] == item;
      assert EventId(evs[k]) == x;
    }
    forall x | x in Raising(evs, InTitle) ensures x in TitleHolders(data, word, titleIndexed) {
      var k :| 0 <= k < |evs| && evs[k].delta.inTitle && EventId(evs[k]) == x;
      HaystackHits(data, word, hs[k]);
    }
  }

  /** Events that all carry `word` pair it with each of their records. */
  lemma OneWordPairs(evs: seq<Event>, word: string)
    requires forall k :: 0 <= k < |evs| ==> evs[k].Touch? && evs[k].delta.word == Some(word)
    ensures WordPairs(evs) == set x | x in EventIds(evs) :: (x, word)
  {
    forall x | x in EventIds(evs) ensures (x, word) in WordPairs(evs) {
      var k :| 0 <= k < |evs| && x == EventId(evs[k]);
    }
  }

  /** The pairs (record, word) where the record's text contains the word. */
  ghost function HaystackPairs(ws: seq<string>, data: seq<Record>): set<(int, string)> {
    set w, x | w in ws && x in Holders(data, w) :: (x, w)
  }

  ghost function HaystackTitles(ws: seq<string>, data: seq<Record>, titleIndexed: bool): set<int> {
    set w, x | w in ws && x in TitleHolders(data, w, titleIndexed) :: x
  }

  ghost function HaystackIds(ws: seq<string>, data: seq<Record>): set<int> {
    set w, x | w in ws && x in Holders(data, w) :: x
  }

  /** The short-word pass. */
  function HaystackPass(ws: seq<string>, data: seq<Record>, titleIndexed: bool): seq<Event> {
    Concat(ws, w => HaystackEvents(data, w, titleIndexed))
  }

  /** The short-word pass touches exactly the records whose text contains a
      word, matches each with those words, adds nothing to any score sum,
      and never raises the full-phrase flag. */
  lemma HaystackPassShape(ws: seq<string>, data: seq<Record>, titleIndexed: bool)
    ensures var evs := HaystackPass(ws, data, titleIndexed);
      && NoResets(evs)
      && ZeroScores(evs)
      && WordsIn(evs, set w | w in ws)
      && WordPairs(evs) == HaystackPairs(ws, data)
      && Raising(evs, InTitle) == HaystackTitles(ws, data, titleIndexed)
      && Raising(evs, FullMatch) == {}
      && EventIds(evs) == HaystackIds(ws, data)
  {
    var f := w => HaystackEvents(data, w, titleIndexed);
    var evs := HaystackPass(ws, data, titleIndexed);
    forall w | w in ws
      ensures forall k :: 0 <= k < |f(w)| ==>
                f(w)[k].Touch? && f(w)[k].delta.score == 0.0 && !f(w)[k].delta.full && f(w)[k].delta.word == Some(w)
      ensures WordPairs(f(w)) == set x | x in Holders(data, w) :: (x, w)
      ensures Raising(f(w), InTitle) == TitleHolders(data, w, titleIndexed)
      ensures EventIds(f(w)) == Holders(data, w)
    {
      HaystackWordEvents(data, w, titleIndexed);
      HaystackWordIds(data, w, titleIndexed);
      HaystackWordTitles(data, w, titleIndexed);
      OneWordPairs(f(w), w);
    }
    ConcatAll(ws, f, (ev: Event) => ev.Touch? && ev.delta.score == 0.0 && !ev.delta.full && ev.delta.word.Some? && ev.delta.word.value in ws);
    ConcatPairs(ws, f);
    ConcatRaising(ws, f, InTitle);
    ConcatRaising(ws, f, FullMatch);
    ConcatIds(ws, f);
  }

  /** The newer full-phrase pass touches exactly the records of its hits,
      raises the full-phrase flag on each of them, and matches no word. */
  lemma FullPassShape(hits: seq<Hit>)
    ensures var evs := FullEvents(hits);
      && NoResets(evs)
      && NoWords(evs)
      && WordPairs(evs) == {}
      && Raising(evs, FullMatch) == HitIds(hits)
      && Raising(evs, InTitle) == {}
      && EventIds(evs) == HitIds(hits)
  {
    var evs := FullEvents(hits);
    forall x | x in HitIds(hits) ensures x in Raising(evs, FullMatch) && x in EventIds(evs) {
      var k :| 0 <= k < |hits| && x == hits[k].item.id;
      assert EventId(evs[k]) == x;
    }
  }
}
