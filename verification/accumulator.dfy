/** The result map both `searchSmart` functions build: one entry per record
    id, in first-insertion order (the iteration order of a `Map`), updated
    hit by hit. The passes of the search are flattened into one sequence of
    events that is folded over the map. */
module Accumulator {
  import opened Optional

  /** A record of the search index. The short-word pass looks for a word in
      the record serialised as JSON (`haystack`), which also holds the key
      names and the id. */
  datatype Record = Record(id: int, title: Option<string>, description: Option<string>, haystack: string)

  /** One result of the fuzzy index: the record and its score (lower is better). */
  datatype Hit = Hit(item: Record, score: real)

  /** The accumulator kept for one record. */
  datatype Entry = Entry(item: Record, matched: set<string>, scoreSum: real, count: nat, inTitle: bool, full: bool)

  /** What one hit adds to its record's entry: a score, possibly a search
      word, and the title and full-phrase flags. */
  datatype Delta = Delta(score: real, word: Option<string>, inTitle: bool, full: bool)

  datatype Event =
    | Touch(item: Record, delta: Delta)   // create the entry if it is missing, then update it
    | Reset(hit: Hit)                     // overwrite the entry with a fresh full-phrase one

  function EventId(ev: Event): int {
    match ev
    case Touch(item, _) => item.id
    case Reset(h) => h.item.id
  }

  /** The entry the map is seeded with. */
  function Fresh(item: Record): Entry {
    Entry(item, {}, 0.0, 0, false, false)
  }

  function Bump(e: Entry, d: Delta): Entry {
    e.(matched := if d.word.Some? then e.matched + {d.word.value} else e.matched,
       scoreSum := e.scoreSum + d.score,
       count := e.count + 1,
       inTitle := e.inTitle || d.inTitle,
       full := e.full || d.full)
  }

  /** `map.has(id)` and `map.get(id)`: the position of the entry for `id`. */
  function Lookup(es: seq<Entry>, id: int): (r: Option<nat>)
    ensures r.Some? ==> r.value < |es| && es[r.value].item.id == id
    ensures r.None? ==> forall i :: 0 <= i < |es| ==> es[i].item.id != id
  {
    if es == [] then None
    else if es[|es| - 1].item.id == id then Some(|es| - 1)
    else Lookup(es[..|es| - 1], id)
  }

  /** The current entry for `item`, or a fresh one. */
  function Current(es: seq<Entry>, item: Record): Entry {
    match Lookup(es, item.id)
    case Some(i) => es[i]
    case None => Fresh(item)
  }

  /** `map.set(e.item.id, e)`: an existing key keeps its place. */
  function Put(es: seq<Entry>, e: Entry): seq<Entry> {
    match Lookup(es, e.item.id)
    case Some(i) => es[i := e]
    case None => es + [e]
  }

  /** The entry an event leaves behind for its record. */
  function After(es: seq<Entry>, ev: Event): Entry {
    match ev
    case Touch(item, d) => Bump(Current(es, item), d)
    case Reset(h) => Entry(h.item, {}, h.score, 1, false, true)
  }

  function Apply(es: seq<Entry>, ev: Event): seq<Entry> {
    Put(es, After(es, ev))
  }

  /** The map after the events, in order. */
  function Run(es: seq<Entry>, evs: seq<Event>): seq<Entry> {
    if evs == [] then es else Apply(Run(es, evs[..|evs| - 1]), evs[|evs| - 1])
  }

  ghost predicate UniqueIds(es: seq<Entry>) {
    forall i, j :: 0 <= i < j < |es| ==> es[i].item.id != es[j].item.id
  }

  function IdSet(es: seq<Entry>): set<int> {
    set i | 0 <= i < |es| :: es[i].item.id
  }

  function EventIds(evs: seq<Event>): set<int> {
    set k | 0 <= k < |evs| :: EventId(evs[k])
  }

  /** One event changes the entry of its own record and nothing else, and
      appends an entry only when the record had none. */
  lemma ApplyShape(es: seq<Entry>, ev: Event)
    requires UniqueIds(es)
    ensures UniqueIds(Apply(es, ev))
    ensures IdSet(Apply(es, ev)) == IdSet(es) + {EventId(ev)}
    ensures forall j :: 0 <= j < |Apply(es, ev)| ==>
      if Apply(es, ev)[j].item.id == EventId(ev) then Apply(es, ev)[j] == After(es, ev)
      else j < |es| && Apply(es, ev)[j] == es[j]
  {
    var r := Apply(es, ev);
    var e := After(es, ev);
    assert e.item.id == EventId(ev);
    match Lookup(es, e.item.id)
    case Some(i) =>
      assert r == es[i := e];
      assert IdSet(r) == IdSet(es) + {EventId(ev)} by {
        assert forall j :: 0 <= j < |r| ==> r[j].item.id == es[j].item.id;
      }
    case None =>
      assert r == es + [e];
      assert IdSet(r) == IdSet(es) + {EventId(ev)} by {
        assert r[|es|].item.id == EventId(ev);
        assert forall j :: 0 <= j < |es| ==> r[j] == es[j];
      }
  }

  lemma {:induction false} RunAppend(es: seq<Entry>, a: seq<Event>, b: seq<Event>)
    ensures Run(es, a + b) == Run(Run(es, a), b)
    decreases |b|
  {
    if b != [] {
      assert (a + b)[..|a + b| - 1] == a + b[..|b| - 1];
      assert (a + b)[|a + b| - 1] == b[|b| - 1];
      RunAppend(es, a, b[..|b| - 1]);
      assert a + b != [];
      assert Run(es, a + b) == Apply(Run(es, a + b[..|b| - 1]), b[|b| - 1]);
    } else {
      assert a + b == a;
    }
  }

  /** The ids after one more event: those of the prefix and the event's. */
  lemma EventIdsSnoc(evs: seq<Event>)
    requires evs != []
    ensures EventIds(evs) == EventIds(evs[..|evs| - 1]) + {EventId(evs[|evs| - 1])}
  {
    var init := evs[..|evs| - 1];
    assert forall k :: 0 <= k < |init| ==> init[k] == evs[k];
  }

  /** Every entry has been counted at least once, has no more matched words
      than counts, and has matched only words of `ws`. */
  ghost predicate Sound(es: seq<Entry>, ws: set<string>) {
    forall i :: 0 <= i < |es| ==>
      && es[i].count >= 1
      && |es[i].matched| <= es[i].count
      && es[i].matched <= ws
  }

  /** Every word an event carries is one of `ws`. */
  ghost predicate WordsIn(evs: seq<Event>, ws: set<string>) {
    forall k :: 0 <= k < |evs| && evs[k].Touch? && evs[k].delta.word.Some? ==> evs[k].delta.word.value in ws
  }

  lemma AfterSound(es: seq<Entry>, ev: Event, ws: set<string>)
    requires Sound(es, ws)
    requires ev.Touch? && ev.delta.word.Some? ==> ev.delta.word.value in ws
    ensures After(es, ev).count >= 1
    ensures |After(es, ev).matched| <= After(es, ev).count
    ensures After(es, ev).matched <= ws
  {
    if ev.Touch? {
      var c := Current(es, ev.item);
      assert c.count >= 1 ==> |c.matched| <= c.count && c.matched <= ws;
      assert c.count == 0 ==> c.matched == {};
    }
  }

  /** The map stays keyed by id and sound under any events whose words are
      in `ws`, and it gains exactly the events' records. */
  lemma {:induction false} RunSound(es: seq<Entry>, evs: seq<Event>, ws: set<string>)
    requires UniqueIds(es) && Sound(es, ws) && WordsIn(evs, ws)
    ensures UniqueIds(Run(es, evs))
    ensures Sound(Run(es, evs), ws)
    ensures IdSet(Run(es, evs)) == IdSet(es) + EventIds(evs)
  {
    if evs != [] {
      var init, ev := evs[..|evs| - 1], evs[|evs| - 1];
      assert WordsIn(init, ws);
      RunSound(es, init, ws);
      var mid := Run(es, init);
      ApplyShape(mid, ev);
      AfterSound(mid, ev, ws);
      EventIdsSnoc(evs);
    }
  }

  /** The map with no events yet. */
  lemma EmptySound(ws: set<string>)
    ensures UniqueIds([]) && Sound([], ws) && IdSet([]) == {}
  {
  }

  datatype Flag = FullMatch | InTitle

  function EntryFlag(e: Entry, f: Flag): bool {
    match f
    case FullMatch => e.full
    case InTitle => e.inTitle
  }

  /** The records whose update raises flag `f`. */
  function Raising(evs: seq<Event>, f: Flag): set<int> {
    set k | 0 <= k < |evs| && evs[k].Touch? && (if f == FullMatch then evs[k].delta.full else evs[k].delta.inTitle) :: EventId(evs[k])
  }

  /** Flag `f` is up on exactly the entries whose ids are in `s`. */
  ghost predicate FlagExactly(es: seq<Entry>, f: Flag, s: set<int>) {
    && s <= IdSet(es)
    && forall i :: 0 <= i < |es| ==> (EntryFlag(es[i], f) <==> es[i].item.id in s)
  }

  ghost predicate NoResets(evs: seq<Event>) {
    forall k :: 0 <= k < |evs| ==> evs[k].Touch?
  }

  lemma RaisingSnoc(evs: seq<Event>, f: Flag)
    requires evs != []
    ensures var ev := evs[|evs| - 1];
      Raising(evs, f) == Raising(evs[..|evs| - 1], f)
        + (if ev.Touch? && (if f == FullMatch then ev.delta.full else ev.delta.inTitle) then {EventId(ev)} else {})
  {
    var init := evs[..|evs| - 1];
    assert forall k :: 0 <= k < |init| ==> init[k] == evs[k];
  }

  /** A flag, once up, stays up, and it goes up on the entries of exactly
      the events that raise it. */
  lemma {:induction false} RunFlag(es: seq<Entry>, evs: seq<Event>, f: Flag, s: set<int>)
    requires UniqueIds(es) && NoResets(evs) && FlagExactly(es, f, s)
    ensures UniqueIds(Run(es, evs))
    ensures FlagExactly(Run(es, evs), f, s + Raising(evs, f))
  {
    if evs != [] {
      var init, ev := evs[..|evs| - 1], evs[|evs| - 1];
      assert NoResets(init);
      RunFlag(es, init, f, s);
      var mid := Run(es, init);
      ApplyShape(mid, ev);
      RaisingSnoc(evs, f);
      var c := Current(mid, ev.item);
      assert EntryFlag(c, f) <==> ev.item.id in s + Raising(init, f);
    }
  }

  /** The (record, word) pairs the events match. */
  function WordPairs(evs: seq<Event>): set<(int, string)> {
    set k | 0 <= k < |evs| && evs[k].Touch? && evs[k].delta.word.Some? :: (EventId(evs[k]), evs[k].delta.word.value)
  }

  /** The matched words of every entry are exactly the words paired with its id in `m`. */
  ghost predicate MatchedExactly(es: seq<Entry>, m: set<(int, string)>) {
    && (forall p :: p in m ==> p.0 in IdSet(es))
    && forall i, w :: 0 <= i < |es| ==> (w in es[i].matched <==> (es[i].item.id, w) in m)
  }

  lemma WordPairsSnoc(evs: seq<Event>)
    requires evs != []
    ensures var ev := evs[|evs| - 1];
      WordPairs(evs) == WordPairs(evs[..|evs| - 1])
        + (if ev.Touch? && ev.delta.word.Some? then {(EventId(ev), ev.delta.word.value)} else {})
  {
    var init := evs[..|evs| - 1];
    assert forall k :: 0 <= k < |init| ==> init[k] == evs[k];
  }

  /** An entry's matched words are exactly the words of the events about its record. */
  lemma {:induction false} RunMatched(es: seq<Entry>, evs: seq<Event>, m: set<(int, string)>)
    requires UniqueIds(es) && NoResets(evs) && MatchedExactly(es, m)
    ensures UniqueIds(Run(es, evs))
    ensures MatchedExactly(Run(es, evs), m + WordPairs(evs))
  {
    if evs != [] {
      var init, ev := evs[..|evs| - 1], evs[|evs| - 1];
      assert NoResets(init);
      RunMatched(es, init, m);
      var mid := Run(es, init);
      var m' := m + WordPairs(init);
      ApplyShape(mid, ev);
      WordPairsSnoc(evs);
      var c := Current(mid, ev.item);
      assert forall w :: w in c.matched <==> (ev.item.id, w) in m';
      var r := Run(es, evs);
      forall p | p in m + WordPairs(evs) ensures p.0 in IdSet(r) {
        if p !in m' {
          assert p.0 == EventId(ev);
        }
      }
    }
  }

  /** A record the earlier map knew is still known to the later one. */
  lemma KnownStaysKnown(es: seq<Entry>, es': seq<Entry>, id: int)
    requires IdSet(es) <= IdSet(es')
    ensures Lookup(es', id).None? ==> Lookup(es, id).None?
  {
    if Lookup(es, id).Some? {
      assert es[Lookup(es, id).value].item.id in IdSet(es);
    }
  }

  /** The score sum the map holds for `id`: zero for a record it lacks. */
  function ScoreOf(es: seq<Entry>, id: int): real {
    match Lookup(es, id)
    case Some(i) => es[i].scoreSum
    case None => 0.0
  }

  ghost predicate ZeroScores(evs: seq<Event>) {
    forall k :: 0 <= k < |evs| ==> evs[k].Touch? && evs[k].delta.score == 0.0
  }

  /** Events that score nothing leave every score sum as it was. */
  lemma {:induction false} RunKeepsScores(es: seq<Entry>, evs: seq<Event>)
    requires UniqueIds(es) && ZeroScores(evs)
    ensures UniqueIds(Run(es, evs)) && IdSet(es) <= IdSet(Run(es, evs))
    ensures forall j :: 0 <= j < |Run(es, evs)| ==> Run(es, evs)[j].scoreSum == ScoreOf(es, Run(es, evs)[j].item.id)
  {
    if evs != [] {
      var init, ev := evs[..|evs| - 1], evs[|evs| - 1];
      assert ZeroScores(init);
      RunKeepsScores(es, init);
      var mid := Run(es, init);
      ApplyShape(mid, ev);
      KnownStaysKnown(es, mid, ev.item.id);
      assert Current(mid, ev.item).scoreSum == ScoreOf(es, ev.item.id);
    }
  }

  /** The matched words the map holds for `id`: none for a record it lacks. */
  function MatchedOf(es: seq<Entry>, id: int): set<string> {
    match Lookup(es, id)
    case Some(i) => es[i].matched
    case None => {}
  }

  ghost predicate NoWords(evs: seq<Event>) {
    forall k :: 0 <= k < |evs| ==> evs[k].Touch? && evs[k].delta.word.None?
  }

  /** Events that carry no word leave every set of matched words as it was. */
  lemma {:induction false} RunKeepsMatched(es: seq<Entry>, evs: seq<Event>)
    requires UniqueIds(es) && NoWords(evs)
    ensures UniqueIds(Run(es, evs)) && IdSet(es) <= IdSet(Run(es, evs))
    ensures forall j :: 0 <= j < |Run(es, evs)| ==> Run(es, evs)[j].matched == MatchedOf(es, Run(es, evs)[j].item.id)
  {
    if evs != [] {
      var init, ev := evs[..|evs| - 1], evs[|evs| - 1];
      assert NoWords(init);
      RunKeepsMatched(es, init);
      var mid := Run(es, init);
      ApplyShape(mid, ev);
      KnownStaysKnown(es, mid, ev.item.id);
      assert Current(mid, ev.item).matched == MatchedOf(es, ev.item.id);
    }
  }
}
