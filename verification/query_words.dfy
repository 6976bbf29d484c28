/** Turning a query into search words: `query.trim().toLowerCase()
    .split(/\s+/)` followed by a length and stop-word filter. */
module QueryWords {
  import opened Text
  import opened Runs
  import opened Filters

  /** The words the newer script ignores, both when searching and when
      choosing where to anchor an excerpt. */
  const StopWords: set<string> := {
    "a", "an", "the", "is", "of", "in", "at", "on", "to", "for", "with", "and", "or",
    "does", "how", "what", "can", "do", "you", "your", "are", "am", "could"
  }

  predicate NotSpace(c: char) {
    !IsSpace(c)
  }

  /** The pieces `split(/\s+/)` yields from the trimmed text, without the
      single empty piece it yields from an empty text: the maximal runs of
      non-space characters. */
  function Fields(s: string): (ws: seq<string>)
    ensures |ws| == |Tokens(s, NotSpace)|
    ensures forall k :: 0 <= k < |ws| ==> ws[k] == Tokens(s, NotSpace)[k].word
  {
    var ts := Tokens(s, NotSpace);
    seq(|ts|, k requires 0 <= k < |ts| => ts[k].word)
  }

  /** A field is a non-empty stretch of the text without white space. */
  lemma FieldShape(s: string, k: nat)
    requires k < |Fields(s)|
    ensures var t := Tokens(s, NotSpace)[k];
      && Fields(s)[k] == s[t.start..End(t)]
      && |Fields(s)[k]| > 0
      && forall i :: 0 <= i < |Fields(s)[k]| ==> !IsSpace(Fields(s)[k][i])
  {
    var t := Tokens(s, NotSpace)[k];
    assert IsRun(s, NotSpace, t);
    forall i | 0 <= i < |t.word| ensures !IsSpace(t.word[i]) {
      assert t.word[i] == s[t.start + i];
    }
  }

  /** Every maximal run of non-space characters is a field. */
  lemma RunIsField(s: string, t: Token)
    requires IsRun(s, NotSpace, t)
    ensures t.word in Fields(s)
  {
    RunIsToken(s, NotSpace, t);
    var k :| 0 <= k < |Tokens(s, NotSpace)| && Tokens(s, NotSpace)[k] == t;
    assert Fields(s)[k] == t.word;
  }

  predicate Significant(w: string, minLen: nat, stops: set<string>) {
    |w| > minLen && w !in stops
  }

  /** The search words of `query`: its lower-cased fields longer than
      `minLen` characters that are not in `stops`, in query order. */
  function Terms(query: string, minLen: nat, stops: set<string>): (ws: seq<string>)
    ensures forall k :: 0 <= k < |ws| ==> |ws[k]| > minLen && ws[k] !in stops
  {
    Filter(Fields(LowerStr(query)), w => Significant(w, minLen, stops))
  }

  /** A word is a search word exactly when it is a field of the lower-cased
      query that passes both filters. */
  lemma TermsExactly(query: string, minLen: nat, stops: set<string>, w: string)
    ensures w in Terms(query, minLen, stops)
        <==> w in Fields(LowerStr(query)) && |w| > minLen && w !in stops
  {
    FilterMembers(Fields(LowerStr(query)), w => Significant(w, minLen, stops), w);
  }

  /** Search words are already lower-case and contain no white space. */
  lemma TermsLowered(query: string, minLen: nat, stops: set<string>, w: string)
    requires w in Terms(query, minLen, stops)
    ensures LowerStr(w) == w
    ensures forall i :: 0 <= i < |w| ==> !IsSpace(w[i])
  {
    var lq := LowerStr(query);
    TermsExactly(query, minLen, stops, w);
    var k :| 0 <= k < |Fields(lq)| && Fields(lq)[k] == w;
    FieldShape(lq, k);
    var t := Tokens(lq, NotSpace)[k];
    LowerSlice(query, t.start, End(t));
    LowerIdempotent(query[t.start..End(t)]);
  }

  /** Words of fewer than five characters: matched against the records' text. */
  function ShortWords(ws: seq<string>): (r: seq<string>)
    ensures forall k :: 0 <= k < |r| ==> |r[k]| < 5
  {
    Filter(ws, w => |w| < 5)
  }

  /** Words of five or more characters: looked up with the fuzzy index. */
  function LongWords(ws: seq<string>): (r: seq<string>)
    ensures forall k :: 0 <= k < |r| ==> |r[k]| >= 5
  {
    Filter(ws, w => |w| >= 5)
  }

  /** The short and the long words split the words between them: each word
      lands in exactly one list, as often as it occurs, and each list keeps
      query order. */
  lemma ShortLongPartition(ws: seq<string>)
    ensures multiset(ShortWords(ws)) + multiset(LongWords(ws)) == multiset(ws)
    ensures forall w :: w in ShortWords(ws) <==> w in ws && |w| < 5
    ensures forall w :: w in LongWords(ws) <==> w in ws && |w| >= 5
    ensures |Kept(ws, w => |w| < 5)| == |ShortWords(ws)|
    ensures forall k :: 0 <= k < |ShortWords(ws)| ==> ws[Kept(ws, w => |w| < 5)[k]] == ShortWords(ws)[k]
    ensures |Kept(ws, w => |w| >= 5)| == |LongWords(ws)|
    ensures forall k :: 0 <= k < |LongWords(ws)| ==> ws[Kept(ws, w => |w| >= 5)[k]] == LongWords(ws)[k]
  {
    FilterPartition(ws, w => |w| < 5, w => |w| >= 5);
    forall w ensures w in ShortWords(ws) <==> w in ws && |w| < 5 {
      FilterMembers(ws, w => |w| < 5, w);
    }
    forall w ensures w in LongWords(ws) <==> w in ws && |w| >= 5 {
      FilterMembers(ws, w => |w| >= 5, w);
    }
    FilterSubsequence(ws, w => |w| < 5);
    FilterSubsequence(ws, w => |w| >= 5);
  }
}
