/** `getExcerpt` of the newer script. The search words are split into
    high-priority words and low-priority stop words; the description is
    anchored at the first of its words that some high-priority word
    matches (exactly, by inclusion, or within the edit-distance budget on
    a window of the query's length), falling back to the low-priority
    words only when no high-priority word matches anywhere. The window
    around the anchor is then highlighted with every search word. */
module RichExcerpt {
  import opened Text
  import opened Optional
  import opened Levenshtein
  import opened Runs
  import opened Markup
  import opened ExcerptWindow
  import opened RichHighlight
  import opened Filters
  import opened QueryWords

  /** A low-priority word: one of the stop words, compared lower-cased. */
  predicate IsStopWord(w: string) {
    LowerStr(w) in StopWords
  }

  /** The words that are not stop words, in order. */
  function HighPriority(words: seq<string>): (r: seq<string>)
    ensures forall k :: 0 <= k < |r| ==> !IsStopWord(r[k])
  {
    Filter(words, w => !IsStopWord(w))
  }

  /** The stop words, in order. */
  function LowPriority(words: seq<string>): (r: seq<string>)
    ensures forall k :: 0 <= k < |r| ==> IsStopWord(r[k])
  {
    Filter(words, w => IsStopWord(w))
  }

  /** Every word lands in exactly one of the two lists, as often as it occurs. */
  lemma PriorityPartition(words: seq<string>)
    ensures multiset(HighPriority(words)) + multiset(LowPriority(words)) == multiset(words)
  {
    FilterPartition(words, w => !IsStopWord(w), w => IsStopWord(w));
  }

  /** The window of `|lq|` characters of `lt` at `j` is within `maxDistance` edits of `lq`. */
  predicate CloseAt(lt: string, lq: string, maxDistance: int, j: nat) {
    j + |lq| <= |lt| && Distance(lt[j..j + |lq|], lq) <= maxDistance
  }

  /** Some window of exactly `|lq|` characters of `lt`, starting at `i` or
      later, is within `maxDistance` edits of `lq`. */
  function AnyWindow(lt: string, lq: string, maxDistance: int, i: nat): (r: bool)
    ensures r <==> exists j :: i <= j && CloseAt(lt, lq, maxDistance, j)
    decreases |lt| - i
  {
    if i + |lq| > |lt| then false
    else CloseAt(lt, lq, maxDistance, i) || AnyWindow(lt, lq, maxDistance, i + 1)
  }

  /** The three tests `findFuzzyMatch` applies to a word of the description. */
  predicate Qualifies(lt: string, q: string, maxDistance: int) {
    || ExactTier(lt, q)
    || IncludesTier(lt, q)
    || (|q| >= 5 && AnyWindow(lt, LowerStr(q), maxDistance, 0))
  }

  predicate AnyQualifies(tok: Token, qs: seq<string>, maxDistance: int) {
    exists k :: 0 <= k < |qs| && Qualifies(LowerStr(tok.word), qs[k], maxDistance)
  }

  /** `findFuzzyMatch(wordList)`: the offset of the first word some query qualifies for. */
  function FindMatch(ts: seq<Token>, qs: seq<string>, maxDistance: int): (r: Option<nat>)
    ensures r.Some? ==> exists j :: && 0 <= j < |ts| && r.value == ts[j].start
                                   && AnyQualifies(ts[j], qs, maxDistance)
                                   && forall i :: 0 <= i < j ==> !AnyQualifies(ts[i], qs, maxDistance)
    ensures r.None? ==> forall j :: 0 <= j < |ts| ==> !AnyQualifies(ts[j], qs, maxDistance)
  {
    if ts == [] then None
    else if AnyQualifies(ts[0], qs, maxDistance) then Some(ts[0].start)
    else
      var r := FindMatch(ts[1..], qs, maxDistance);
      assert forall j :: 1 <= j < |ts| ==> ts[j] == ts[1..][j - 1];
      r
  }

  /** The words of the lower-cased description. */
  function DescWords(desc: string): seq<Token> {
    Tokens(LowerStr(desc), IsWordChar)
  }

  /** Where the excerpt is anchored: the high-priority match, else the
      low-priority match when there are low-priority words. */
  function Anchor(desc: string, words: seq<string>, maxDistance: int): Option<nat> {
    var ts := DescWords(desc);
    var high := FindMatch(ts, HighPriority(words), maxDistance);
    if high.Some? then high
    else if |LowPriority(words)| > 0 then FindMatch(ts, LowPriority(words), maxDistance)
    else None
  }

  /** `getExcerpt(description, words, maxDistance)`: the window, highlighted
      with the default distance whatever `maxDistance` was. */
  function GetExcerpt(desc: string, words: seq<string>, maxDistance: int): string {
    HighlightWords(Window(desc, Anchor(desc, words, maxDistance)), words, DefaultMaxDistance)
  }

  /** A high-priority match anywhere wins over every low-priority match. */
  lemma AnchorPriority(desc: string, words: seq<string>, maxDistance: int)
    ensures var ts := DescWords(desc);
      (exists j :: 0 <= j < |ts| && AnyQualifies(ts[j], HighPriority(words), maxDistance))
        ==> Anchor(desc, words, maxDistance) == FindMatch(ts, HighPriority(words), maxDistance)
    ensures var ts := DescWords(desc);
      (forall j :: 0 <= j < |ts| ==> !AnyQualifies(ts[j], HighPriority(words), maxDistance))
        ==> Anchor(desc, words, maxDistance) == FindMatch(ts, LowPriority(words), maxDistance)
  {
  }

  /** Some search word qualifies for the word `tok` exactly when a
      high-priority or a low-priority one does. */
  lemma QualifiesSplit(tok: Token, words: seq<string>, maxDistance: int)
    ensures AnyQualifies(tok, words, maxDistance)
        <==> AnyQualifies(tok, HighPriority(words), maxDistance) || AnyQualifies(tok, LowPriority(words), maxDistance)
  {
    PriorityPartition(words);
    var lt := LowerStr(tok.word);
    if AnyQualifies(tok, words, maxDistance) {
      var k :| 0 <= k < |words| && Qualifies(lt, words[k], maxDistance);
      assert words[k] in multiset(words);
      if words[k] in HighPriority(words) {
        var i :| 0 <= i < |HighPriority(words)| && HighPriority(words)[i] == words[k];
      } else {
        assert words[k] in multiset(LowPriority(words));
        var i :| 0 <= i < |LowPriority(words)| && LowPriority(words)[i] == words[k];
      }
    }
    if AnyQualifies(tok, HighPriority(words), maxDistance) {
      var i :| 0 <= i < |HighPriority(words)| && Qualifies(lt, HighPriority(words)[i], maxDistance);
      assert HighPriority(words)[i] in multiset(words);
    }
    if AnyQualifies(tok, LowPriority(words), maxDistance) {
      var i :| 0 <= i < |LowPriority(words)| && Qualifies(lt, LowPriority(words)[i], maxDistance);
      assert LowPriority(words)[i] in multiset(words);
    }
  }

  /** The excerpt is anchored exactly when some search word qualifies for
      some word of the description, and then at the start of a word. */
  lemma AnchorFound(desc: string, words: seq<string>, maxDistance: int)
    ensures var ts := DescWords(desc);
      Anchor(desc, words, maxDistance).Some?
      <==> exists j :: 0 <= j < |ts| && AnyQualifies(ts[j], words, maxDistance)
    ensures Anchor(desc, words, maxDistance).Some? ==> WordStart(desc, Anchor(desc, words, maxDistance).value)
  {
    var ts := DescWords(desc);
    forall j | 0 <= j < |ts|
      ensures AnyQualifies(ts[j], words, maxDistance)
          <==> AnyQualifies(ts[j], HighPriority(words), maxDistance) || AnyQualifies(ts[j], LowPriority(words), maxDistance)
    {
      QualifiesSplit(ts[j], words, maxDistance);
    }
    var a := Anchor(desc, words, maxDistance);
    if a.Some? {
      var j :| 0 <= j < |ts| && a.value == ts[j].start;
      RunStartIsWordStart(desc, ts[j]);
    }
  }

  /** Offset `i` is where a word of the description begins. */
  predicate WordStart(desc: string, i: nat) {
    i < |desc| && IsWordChar(desc[i]) && (i == 0 || !IsWordChar(desc[i - 1]))
  }

  lemma RunStartIsWordStart(desc: string, t: Token)
    requires IsRun(LowerStr(desc), IsWordChar, t)
    ensures WordStart(desc, t.start)
  {
    NotEmptyHasRunChar(LowerStr(desc), IsWordChar, t);
    LowerKeepsClasses(desc[t.start]);
    if t.start > 0 {
      LowerKeepsClasses(desc[t.start - 1]);
    }
  }

  /** Removing the markers from the excerpt gives back the window of the
      description, when the description has no `<` of its own. */
  lemma ExcerptRoundTrip(desc: string, words: seq<string>, maxDistance: int)
    requires NoAngle(desc)
    ensures Strip(GetExcerpt(desc, words, maxDistance)) == Window(desc, Anchor(desc, words, maxDistance))
  {
    var w := Window(desc, Anchor(desc, words, maxDistance));
    WindowNoAngle(desc, Anchor(desc, words, maxDistance));
    HighlightRoundTrip(w, words, DefaultMaxDistance);
  }
}
