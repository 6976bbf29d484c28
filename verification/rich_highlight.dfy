/** `highlightWords` of the newer script. The text is cut into its `\w+`
    words; each word is checked against the queries in order, and the first
    query that matches it in one of three tiers yields one span: the whole
    word (exact match of a short query), the first occurrence of the query
    inside the word, or the closest window of the word by edit distance.
    The spans are sorted by position, spans overlapping their predecessor
    are dropped, and every span is wrapped in the highlight element. */
module RichHighlight {
  import opened Text
  import opened Optional
  import opened FuzzyWindow
  import opened Runs
  import opened Markup
  import opened StableSort

  /** The `maxDistance` every caller passes (the parameter's default). */
  const DefaultMaxDistance: int := 2

  /** A stretch of the text to wrap: offset and length. */
  datatype Span = Span(index: nat, length: nat)

  function SpanEnd(m: Span): nat {
    m.index + m.length
  }

  /** Tier 1: a query shorter than five characters equal to the word, ignoring case. */
  predicate ExactTier(lw: string, q: string) {
    |q| < 5 && lw == LowerStr(q)
  }

  /** Tier 2: a query longer than three characters contained in the word, ignoring case. */
  predicate IncludesTier(lw: string, q: string) {
    |q| > 3 && Contains(lw, LowerStr(q))
  }

  /** Tier 3: a query of five or more characters within `maxDistance`
      edits of some window of two or more characters of the word. */
  ghost predicate FuzzyTier(lw: string, q: string, maxDistance: int) {
    |q| >= 5 && exists s, l :: IsWindow(|lw|, s, l) && WindowDist(lw, LowerStr(q), s, l) <= maxDistance
  }

  /** What one query contributes for one word; the span always lies inside the word. */
  function SpanFor(tok: Token, q: string, maxDistance: int): (r: Option<Span>)
    ensures r.Some? ==> tok.start <= r.value.index && SpanEnd(r.value) <= End(tok)
  {
    var lw, lq := LowerStr(tok.word), LowerStr(q);
    if |q| < 5 && lw == lq then Some(Span(tok.start, |tok.word|))
    else if |q| > 3 && Contains(lw, lq) then Some(Span(tok.start + IndexOf(lw, lq), |q|))
    else if |q| >= 5 then
      match BestWindow(lw, lq)
      case Some(b) => if b.dist <= maxDistance then Some(Span(tok.start + b.start, b.len)) else None
      case None => None
    else None
  }

  /** A query yields a span for a word exactly when one of the three tiers holds. */
  lemma SpanForTiers(tok: Token, q: string, maxDistance: int)
    ensures var lw := LowerStr(tok.word);
      SpanFor(tok, q, maxDistance).Some?
      <==> ExactTier(lw, q) || IncludesTier(lw, q) || FuzzyTier(lw, q, maxDistance)
  {
    var lw, lq := LowerStr(tok.word), LowerStr(q);
    if |q| >= 5 && !IncludesTier(lw, q) {
      if |lw| >= 2 {
        BestWithin(lw, lq, maxDistance);
      } else {
        assert !FuzzyTier(lw, q, maxDistance);
      }
    }
  }

  /** Tier 1 marks the whole word. */
  lemma ExactSpan(tok: Token, q: string, maxDistance: int)
    requires ExactTier(LowerStr(tok.word), q)
    ensures SpanFor(tok, q, maxDistance) == Some(Span(tok.start, |tok.word|))
  {
  }

  /** Tier 2 marks the first occurrence of the query inside the word,
      ignoring case. */
  lemma IncludesSpan(text: string, tok: Token, q: string, maxDistance: int)
    requires IsRun(text, IsWordChar, tok)
    requires !ExactTier(LowerStr(tok.word), q) && IncludesTier(LowerStr(tok.word), q)
    ensures SpanFor(tok, q, maxDistance).Some?
    ensures var m := SpanFor(tok, q, maxDistance).value;
      && m.length == |q| && OccursAt(LowerStr(text), LowerStr(q), m.index)
      && forall j :: tok.start <= j < m.index ==> !OccursAt(LowerStr(text), LowerStr(q), j)
  {
    var lw, lq := LowerStr(tok.word), LowerStr(q);
    var r := IndexOf(lw, lq);
    IncludesOffset(tok, q, maxDistance);
    FirstInWord(text, tok, lq, r);
  }

  lemma IncludesOffset(tok: Token, q: string, maxDistance: int)
    requires !ExactTier(LowerStr(tok.word), q) && IncludesTier(LowerStr(tok.word), q)
    ensures 0 <= IndexOf(LowerStr(tok.word), LowerStr(q))
    ensures SpanFor(tok, q, maxDistance) == Some(Span(tok.start + IndexOf(LowerStr(tok.word), LowerStr(q)), |q|))
  {
  }

  /** The first occurrence inside a word is the first in the text from the
      word's start on. */
  lemma FirstInWord(text: string, tok: Token, p: string, r: int)
    requires End(tok) <= |text| && text[tok.start..End(tok)] == tok.word
    requires r == IndexOf(LowerStr(tok.word), p) && r >= 0
    ensures OccursAt(LowerStr(text), p, tok.start + r)
    ensures forall j :: tok.start <= j < tok.start + r ==> !OccursAt(LowerStr(text), p, j)
  {
    WordOccurrence(text, tok, p, r);
    forall j | tok.start <= j < tok.start + r
      ensures !OccursAt(LowerStr(text), p, j)
    {
      WordOccurrence(text, tok, p, j - tok.start);
    }
  }

  /** An occurrence inside a word of the text is an occurrence in the text. */
  lemma WordOccurrence(text: string, tok: Token, p: string, r: nat)
    requires End(tok) <= |text| && text[tok.start..End(tok)] == tok.word && r + |p| <= |tok.word|
    ensures OccursAt(LowerStr(tok.word), p, r) <==> OccursAt(LowerStr(text), p, tok.start + r)
  {
    SliceOfSlice(text, tok.start, End(tok), r, r + |p|);
    LowerSlice(tok.word, r, r + |p|);
    LowerSlice(text, tok.start + r, tok.start + r + |p|);
  }

  /** Tier 3 marks the optimal window of the word, when it is close enough. */
  lemma FuzzySpan(tok: Token, q: string, maxDistance: int)
    requires SpanFor(tok, q, maxDistance).Some?
    requires !ExactTier(LowerStr(tok.word), q) && !IncludesTier(LowerStr(tok.word), q)
    ensures |q| >= 5
    ensures exists b :: && Optimal(LowerStr(tok.word), LowerStr(q), b) && b.dist <= maxDistance
                        && SpanFor(tok, q, maxDistance) == Some(Span(tok.start + b.start, b.len))
  {
    var b := BestWindow(LowerStr(tok.word), LowerStr(q)).value;
    assert Optimal(LowerStr(tok.word), LowerStr(q), b);
  }

  /** The span of the first query, in list order, that yields one. */
  function FirstSpan(tok: Token, qs: seq<string>, maxDistance: int): (r: Option<Span>)
    ensures r.Some? ==> tok.start <= r.value.index && SpanEnd(r.value) <= End(tok)
    ensures r.Some? ==> exists k :: 0 <= k < |qs| && r == SpanFor(tok, qs[k], maxDistance)
                                   && forall j :: 0 <= j < k ==> SpanFor(tok, qs[j], maxDistance).None?
    ensures r.None? ==> forall k :: 0 <= k < |qs| ==> SpanFor(tok, qs[k], maxDistance).None?
  {
    if qs == [] then None
    else
      match SpanFor(tok, qs[0], maxDistance)
      case Some(m) => Some(m)
      case None =>
        var r := FirstSpan(tok, qs[1..], maxDistance);
        assert forall k :: 1 <= k < |qs| ==> qs[k] == qs[1..][k - 1];
        r
  }

  /** The spans present in `rs`, in order. */
  function Somes(rs: seq<Option<Span>>): (ms: seq<Span>)
    ensures |ms| <= |rs|
  {
    if rs == [] then []
    else Somes(rs[..|rs| - 1]) + (if rs[|rs| - 1].Some? then [rs[|rs| - 1].value] else [])
  }

  lemma {:induction false} SomesExactly(rs: seq<Option<Span>>, m: Span)
    ensures m in Somes(rs) <==> Some(m) in rs
  {
    if rs != [] {
      SomesExactly(rs[..|rs| - 1], m);
      assert rs == rs[..|rs| - 1] + [rs[|rs| - 1]];
    }
  }

  /** Spans in order, each ending no later than the next one starts. */
  ghost predicate Disjoint(ms: seq<Span>) {
    forall k, n :: 0 <= k < n < |ms| ==> SpanEnd(ms[k]) <= ms[n].index
  }

  ghost predicate Within(ms: seq<Span>, lo: nat, hi: nat) {
    forall k :: 0 <= k < |ms| ==> lo <= ms[k].index && SpanEnd(ms[k]) <= hi
  }

  /** Each present span ends before any later present span starts. */
  ghost predicate OptionsInOrder(rs: seq<Option<Span>>) {
    forall j, k :: 0 <= j < k < |rs| && rs[j].Some? && rs[k].Some? ==> SpanEnd(rs[j].value) <= rs[k].value.index
  }

  ghost predicate OptionsWithin(rs: seq<Option<Span>>, lo: nat, hi: nat) {
    forall j :: 0 <= j < |rs| && rs[j].Some? ==> lo <= rs[j].value.index && SpanEnd(rs[j].value) <= hi
  }

  lemma {:induction false} SomesWithin(rs: seq<Option<Span>>, lo: nat, hi: nat)
    requires OptionsWithin(rs, lo, hi)
    ensures Within(Somes(rs), lo, hi)
  {
    if rs != [] {
      SomesWithin(rs[..|rs| - 1], lo, hi);
    }
  }

  lemma {:induction false} SomesDisjoint(rs: seq<Option<Span>>)
    requires OptionsInOrder(rs)
    ensures Disjoint(Somes(rs))
  {
    if rs != [] {
      var init, last := rs[..|rs| - 1], rs[|rs| - 1];
      SomesDisjoint(init);
      if last.Some? {
        SomesWithin(init, 0, last.value.index);
      }
    }
  }

  /** The first span of every word, in word order. */
  function Firsts(ts: seq<Token>, qs: seq<string>, maxDistance: int): (rs: seq<Option<Span>>)
    ensures |rs| == |ts|
  {
    seq(|ts|, j requires 0 <= j < |ts| => FirstSpan(ts[j], qs, maxDistance))
  }

  /** The spans of the words, in word order: at most one per word. */
  function Collect(ts: seq<Token>, qs: seq<string>, maxDistance: int): (ms: seq<Span>)
    ensures |ms| <= |ts|
  {
    Somes(Firsts(ts, qs, maxDistance))
  }

  /** Every collected span is the first span of some word, and every word
      with a first span contributes it. */
  ghost predicate SomeWordGives(ts: seq<Token>, qs: seq<string>, maxDistance: int, m: Span) {
    exists j :: 0 <= j < |ts| && FirstSpan(ts[j], qs, maxDistance) == Some(m)
  }

  lemma CollectExactly(ts: seq<Token>, qs: seq<string>, maxDistance: int, m: Span)
    ensures m in Collect(ts, qs, maxDistance) <==> SomeWordGives(ts, qs, maxDistance, m)
  {
    var rs := Firsts(ts, qs, maxDistance);
    SomesExactly(rs, m);
    if Some(m) in rs {
      var j :| 0 <= j < |rs| && rs[j] == Some(m);
      assert FirstSpan(ts[j], qs, maxDistance) == Some(m);
    }
    if SomeWordGives(ts, qs, maxDistance, m) {
      var j :| 0 <= j < |ts| && FirstSpan(ts[j], qs, maxDistance) == Some(m);
      assert rs[j] == Some(m);
    }
  }

  /** The spans of words lie inside the words, so words in text order
      give spans in text order. */
  lemma CollectInOrder(text: string, ts: seq<Token>, qs: seq<string>, maxDistance: int)
    requires Ordered(ts) && forall j :: 0 <= j < |ts| ==> End(ts[j]) <= |text|
    ensures Disjoint(Collect(ts, qs, maxDistance)) && Within(Collect(ts, qs, maxDistance), 0, |text|)
  {
    var rs := Firsts(ts, qs, maxDistance);
    assert OptionsInOrder(rs) by {
      forall j, k | 0 <= j < k < |rs| && rs[j].Some? && rs[k].Some?
        ensures SpanEnd(rs[j].value) <= rs[k].value.index
      {
        assert End(ts[j]) < ts[k].start;
      }
    }
    SomesDisjoint(rs);
    SomesWithin(rs, 0, |text|);
  }

  /** The comparator `(a, b) => a.index - b.index`. */
  predicate IndexBefore(a: Span, b: Span) {
    a.index < b.index
  }

  /** The overlap filter: keeps the first span, and every later one that
      starts no earlier than its predecessor in the array ends. */
  function DropOverlaps(arr: seq<Span>): (r: seq<Span>)
    ensures |r| <= |arr|
    ensures forall m :: m in r ==> m in arr
    ensures |arr| > 0 ==> |r| > 0 && r[0] == arr[0]
  {
    if |arr| <= 1 then arr
    else
      var last := arr[|arr| - 1];
      DropOverlaps(arr[..|arr| - 1]) + (if last.index >= SpanEnd(arr[|arr| - 2]) then [last] else [])
  }

  /** The filter drops nothing exactly when no span starts before its predecessor ends. */
  lemma {:induction false} DropOverlapsKeepsAll(arr: seq<Span>)
    ensures DropOverlaps(arr) == arr <==> forall i :: 0 < i < |arr| ==> arr[i].index >= SpanEnd(arr[i - 1])
  {
    if |arr| > 1 {
      var init := arr[..|arr| - 1];
      DropOverlapsKeepsAll(init);
      assert forall i :: 0 <= i < |init| ==> init[i] == arr[i];
      if DropOverlaps(arr) == arr {
        assert arr[|arr| - 1].index >= SpanEnd(arr[|arr| - 2]);
        assert DropOverlaps(init) == init;
      }
    }
  }

  /** The span at position `i` passes the filter's test: it is the first,
      or it starts no earlier than its predecessor in the array ends. */
  predicate KeptAt(arr: seq<Span>, i: nat)
    requires i < |arr|
  {
    i == 0 || arr[i].index >= SpanEnd(arr[i - 1])
  }

  /** A span survives the filter exactly when it sits at some position
      whose test passes. */
  lemma {:induction false} DropOverlapsKept(arr: seq<Span>, m: Span)
    ensures m in DropOverlaps(arr) <==> exists i :: 0 <= i < |arr| && arr[i] == m && KeptAt(arr, i)
    decreases |arr|
  {
    if |arr| > 1 {
      var init := arr[..|arr| - 1];
      DropOverlapsKept(init, m);
      assert forall i :: 0 <= i < |init| ==> init[i] == arr[i];
      assert forall i :: 0 <= i < |init| ==> (KeptAt(init, i) <==> KeptAt(arr, i));
      if exists i :: 0 <= i < |arr| && arr[i] == m && KeptAt(arr, i) {
        var i :| 0 <= i < |arr| && arr[i] == m && KeptAt(arr, i);
        if i < |init| {
          assert init[i] == m && KeptAt(init, i);
        }
      }
      if m in DropOverlaps(arr) && m !in DropOverlaps(init) {
        assert KeptAt(arr, |arr| - 1);
      }
    } else if |arr| == 1 {
      if m in DropOverlaps(arr) {
        assert arr[0] == m && KeptAt(arr, 0);
      }
    }
  }

  /** The filter compares a span with its predecessor in the sorted array,
      not with the last span it kept: after a dropped span, a span that
      overlaps an earlier kept one can survive. */
  lemma DropOverlapsPredecessorOnly()
    ensures DropOverlaps([Span(0, 10), Span(2, 1), Span(5, 1)]) == [Span(0, 10), Span(5, 1)]
  {
    assert [Span(0, 10), Span(2, 1), Span(5, 1)][..2] == [Span(0, 10), Span(2, 1)];
    assert [Span(0, 10), Span(2, 1)][..1] == [Span(0, 10)];
  }

  /** The text cut at the spans, starting from offset `last`: the plain
      text before each span, the span, and finally the rest of the text. */
  function Splice(text: string, ms: seq<Span>, last: nat): (ps: seq<Piece>)
    ensures |ps| == 2 * |ms| + 1
    decreases |ms|
  {
    if ms == [] then [Plain(Slice(text, last, |text|))]
    else
      [Plain(Slice(text, last, ms[0].index)), Marked(Slice(text, ms[0].index, SpanEnd(ms[0])))]
      + Splice(text, ms[1..], SpanEnd(ms[0]))
  }

  /** One marked piece per span. */
  lemma {:induction false} SpliceMarkCount(text: string, ms: seq<Span>, last: nat)
    ensures MarkCount(Splice(text, ms, last)) == |ms|
    decreases |ms|
  {
    if ms != [] {
      var head := [Plain(Slice(text, last, ms[0].index)), Marked(Slice(text, ms[0].index, SpanEnd(ms[0])))];
      SpliceMarkCount(text, ms[1..], SpanEnd(ms[0]));
      MarkCountAppend(head, Splice(text, ms[1..], SpanEnd(ms[0])));
      assert head[..1] == [head[0]];
    } else {
      assert Splice(text, ms, last)[..0] == [];
    }
  }

  /** Plain and marked pieces alternate, the marked ones holding the spans' text in order. */
  lemma {:induction false} SpliceShape(text: string, ms: seq<Span>, last: nat)
    ensures forall k :: 0 <= k < |ms| ==> Splice(text, ms, last)[2 * k + 1] == Marked(Slice(text, ms[k].index, SpanEnd(ms[k])))
    ensures forall k :: 0 <= k <= |ms| ==> Splice(text, ms, last)[2 * k].Plain?
    decreases |ms|
  {
    if ms != [] {
      var ps, rest := Splice(text, ms, last), Splice(text, ms[1..], SpanEnd(ms[0]));
      SpliceShape(text, ms[1..], SpanEnd(ms[0]));
      assert forall i :: 2 <= i < |ps| ==> ps[i] == rest[i - 2];
      forall k | 1 <= k < |ms| ensures ps[2 * k + 1] == Marked(Slice(text, ms[k].index, SpanEnd(ms[k]))) {
        assert ms[k] == ms[1..][k - 1];
        assert ps[2 * k + 1] == rest[2 * (k - 1) + 1];
      }
      forall k | 1 <= k <= |ms| ensures ps[2 * k].Plain? {
        assert ps[2 * k] == rest[2 * (k - 1)];
      }
    }
  }

  lemma ContentPair(a: string, b: string)
    ensures Content([Plain(a), Marked(b)]) == a + b
  {
    assert [Plain(a), Marked(b)] == [Plain(a)] + [Marked(b)];
    ContentAppend([Plain(a)], [Marked(b)]);
    JoinOne(Plain(a), PieceText);
    JoinOne(Marked(b), PieceText);
  }

  /** The first two pieces of a splice, and the splice after them. */
  lemma SpliceHead(text: string, ms: seq<Span>, last: nat)
    requires ms != []
    ensures Content(Splice(text, ms, last))
         == Slice(text, last, ms[0].index) + Slice(text, ms[0].index, SpanEnd(ms[0]))
            + Content(Splice(text, ms[1..], SpanEnd(ms[0])))
  {
    var head := [Plain(Slice(text, last, ms[0].index)), Marked(Slice(text, ms[0].index, SpanEnd(ms[0])))];
    ContentAppend(head, Splice(text, ms[1..], SpanEnd(ms[0])));
    ContentPair(Slice(text, last, ms[0].index), Slice(text, ms[0].index, SpanEnd(ms[0])));
  }

  lemma TailInOrder(ms: seq<Span>, last: nat, hi: nat)
    requires ms != [] && Disjoint(ms) && Within(ms, last, hi)
    ensures Disjoint(ms[1..]) && Within(ms[1..], SpanEnd(ms[0]), hi)
  {
    assert forall k :: 0 <= k < |ms[1..]| ==> ms[1..][k] == ms[k + 1];
  }

  lemma SliceThree(text: string, i: nat, a: nat, b: nat)
    requires i <= a <= b <= |text|
    ensures Slice(text, i, a) + Slice(text, a, b) + text[b..] == text[i..]
  {
    assert text[i..] == text[i..a] + text[a..b] + text[b..];
  }

  /** Cutting and reassembling loses nothing: the pieces cover the text from `last` on. */
  lemma {:induction false} SpliceContent(text: string, ms: seq<Span>, last: nat)
    requires last <= |text| && Disjoint(ms) && Within(ms, last, |text|)
    ensures Content(Splice(text, ms, last)) == text[last..]
    decreases |ms|
  {
    if ms == [] {
      var p := Plain(Slice(text, last, |text|));
      assert Content([p]) == Content([p][..0]) + p.s;
    } else {
      var a, b := ms[0].index, SpanEnd(ms[0]);
      assert last <= a <= b <= |text|;
      TailInOrder(ms, last, |text|);
      SpliceContent(text, ms[1..], b);
      SpliceHead(text, ms, last);
      SliceThree(text, last, a, b);
    }
  }

  /** The spans `highlightWords` finds in `text`. */
  function Spans(text: string, qs: seq<string>, maxDistance: int): seq<Span> {
    Collect(Tokens(text, IsWordChar), qs, maxDistance)
  }

  /** The pieces `highlightWords` assembles: spans sorted, filtered, spliced. */
  function Highlighted(text: string, qs: seq<string>, maxDistance: int): seq<Piece> {
    Splice(text, DropOverlaps(Sort(Spans(text, qs, maxDistance), IndexBefore)), 0)
  }

  /** `highlightWords(text, queryWords, maxDistance)`. */
  function HighlightWords(text: string, qs: seq<string>, maxDistance: int): string {
    Render(Highlighted(text, qs, maxDistance))
  }

  /** The spans of distinct words never overlap, so sorting and filtering
      change nothing. */
  lemma SpansInOrder(text: string, qs: seq<string>, maxDistance: int)
    ensures Disjoint(Spans(text, qs, maxDistance)) && Within(Spans(text, qs, maxDistance), 0, |text|)
    ensures DropOverlaps(Sort(Spans(text, qs, maxDistance), IndexBefore)) == Spans(text, qs, maxDistance)
  {
    var ts := Tokens(text, IsWordChar);
    var ms := Spans(text, qs, maxDistance);
    CollectInOrder(text, ts, qs, maxDistance);
    assert Sorted(ms, IndexBefore);
    SortIdentity(ms, IndexBefore);
    DropOverlapsKeepsAll(ms);
  }

  /** Highlighting only inserts markers: the pieces cover the text exactly. */
  lemma HighlightContent(text: string, qs: seq<string>, maxDistance: int)
    ensures Content(Highlighted(text, qs, maxDistance)) == text
  {
    SpansInOrder(text, qs, maxDistance);
    SpliceContent(text, Spans(text, qs, maxDistance), 0);
  }

  /** Round trip: removing the markers gives back the text, when the text
      has no `<` of its own. */
  lemma HighlightRoundTrip(text: string, qs: seq<string>, maxDistance: int)
    requires NoAngle(text)
    ensures Strip(HighlightWords(text, qs, maxDistance)) == text
  {
    HighlightContent(text, qs, maxDistance);
    StripRender(Highlighted(text, qs, maxDistance));
  }

  /** The marked pieces are the words' first spans, one per matched word, in text order. */
  lemma HighlightMarks(text: string, qs: seq<string>, maxDistance: int)
    ensures Highlighted(text, qs, maxDistance) == Splice(text, Spans(text, qs, maxDistance), 0)
    ensures Within(Spans(text, qs, maxDistance), 0, |text|)
    ensures var ps, ms := Highlighted(text, qs, maxDistance), Spans(text, qs, maxDistance);
      && MarkCount(ps) == |ms|
      && (forall k :: 0 <= k < |ms| ==> ps[2 * k + 1] == Marked(text[ms[k].index..SpanEnd(ms[k])]))
      && (forall m :: m in ms <==> SomeWordGives(Tokens(text, IsWordChar), qs, maxDistance, m))
  {
    var ms := Spans(text, qs, maxDistance);
    SpansInOrder(text, qs, maxDistance);
    SpliceMarkCount(text, ms, 0);
    SpliceShape(text, ms, 0);
    forall m ensures m in ms <==> SomeWordGives(Tokens(text, IsWordChar), qs, maxDistance, m) {
      CollectExactly(Tokens(text, IsWordChar), qs, maxDistance, m);
    }
  }

  /** Without queries, or without words, nothing is highlighted. */
  lemma HighlightNothing(text: string, qs: seq<string>, maxDistance: int)
    requires qs == [] || forall p :: 0 <= p < |text| ==> !IsWordChar(text[p])
    ensures HighlightWords(text, qs, maxDistance) == text
  {
    var ms := Spans(text, qs, maxDistance);
    if qs == [] {
      NoQueriesNoSpans(Tokens(text, IsWordChar), maxDistance);
    } else {
      NoRunsNoTokens(text, IsWordChar);
    }
    SpansInOrder(text, qs, maxDistance);
    SpliceMarkCount(text, ms, 0);
    HighlightContent(text, qs, maxDistance);
    RenderUnmarked(Highlighted(text, qs, maxDistance));
  }

  lemma NoQueriesNoSpans(ts: seq<Token>, maxDistance: int)
    ensures Collect(ts, [], maxDistance) == []
  {
    SomesNone(Firsts(ts, [], maxDistance));
  }

  lemma {:induction false} SomesNone(rs: seq<Option<Span>>)
    requires forall j :: 0 <= j < |rs| ==> rs[j].None?
    ensures Somes(rs) == []
  {
    if rs != [] {
      SomesNone(rs[..|rs| - 1]);
    }
  }
}
