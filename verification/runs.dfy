/** Maximal runs of characters drawn from one class. With the `\w` class
    these are the matches of the global regular expression `/\b\w+\b/g`
    (each match starts at a word boundary and the greedy `\w+` runs to the
    next one); with the complement of `\s` they are the pieces that
    `split(/\s+/)` yields from a trimmed string. */
module Runs {
  import opened Text

  /** A run: its offset in the text and the characters it covers. */
  datatype Token = Token(start: nat, word: string)

  function End(t: Token): nat {
    t.start + |t.word|
  }

  /** `t` is a maximal, non-empty run of `inRun` characters of `text`. */
  ghost predicate IsRun(text: string, inRun: char -> bool, t: Token) {
    && 0 < |t.word|
    && End(t) <= |text|
    && text[t.start..End(t)] == t.word
    && (forall k :: t.start <= k < End(t) ==> inRun(text[k]))
    && (t.start == 0 || !inRun(text[t.start - 1]))
    && (End(t) == |text| || !inRun(text[End(t)]))
  }

  /** The runs come in text order, separated by at least one other character. */
  ghost predicate Ordered(ts: seq<Token>) {
    forall k, m :: 0 <= k < m < |ts| ==> End(ts[k]) < ts[m].start
  }

  /** The offset just past the run of `inRun` characters that starts at `i`. */
  function RunEnd(text: string, inRun: char -> bool, i: nat): (e: nat)
    requires i <= |text|
    ensures i <= e <= |text|
    ensures forall k :: i <= k < e ==> inRun(text[k])
    ensures e == |text| || !inRun(text[e])
    decreases |text| - i
  {
    if i == |text| || !inRun(text[i]) then i else RunEnd(text, inRun, i + 1)
  }

  /** Offset `i` does not sit inside a run: no run character on both sides. */
  predicate AtBoundary(text: string, inRun: char -> bool, i: nat)
    requires i <= |text|
  {
    i == 0 || i == |text| || !inRun(text[i - 1]) || !inRun(text[i])
  }

  /** The runs found by scanning from offset `i` to the end of the text. */
  function RunsFrom(text: string, inRun: char -> bool, i: nat): (ts: seq<Token>)
    requires i <= |text| && AtBoundary(text, inRun, i)
    ensures forall k :: 0 <= k < |ts| ==> IsRun(text, inRun, ts[k]) && i <= ts[k].start
    ensures Ordered(ts)
    decreases |text| - i
  {
    if i == |text| then []
    else if !inRun(text[i]) then RunsFrom(text, inRun, i + 1)
    else
      var e := RunEnd(text, inRun, i);
      [Token(i, text[i..e])] + RunsFrom(text, inRun, e)
  }

  /** Every maximal run of the text, in order. */
  function Tokens(text: string, inRun: char -> bool): (ts: seq<Token>)
    ensures forall k :: 0 <= k < |ts| ==> IsRun(text, inRun, ts[k])
    ensures Ordered(ts)
  {
    RunsFrom(text, inRun, 0)
  }

  /** The token of `ts` that covers offset `p`, if any. */
  ghost predicate Covered(ts: seq<Token>, p: nat) {
    exists k :: 0 <= k < |ts| && ts[k].start <= p < End(ts[k])
  }

  lemma {:induction false} RunsFromComplete(text: string, inRun: char -> bool, i: nat, p: nat)
    requires i <= p < |text| && AtBoundary(text, inRun, i) && inRun(text[p])
    ensures Covered(RunsFrom(text, inRun, i), p)
    decreases |text| - i
  {
    var ts := RunsFrom(text, inRun, i);
    if !inRun(text[i]) {
      RunsFromComplete(text, inRun, i + 1, p);
    } else {
      var e := RunEnd(text, inRun, i);
      var rest := RunsFrom(text, inRun, e);
      assert ts == [Token(i, text[i..e])] + rest;
      if p < e {
        assert ts[0].start <= p < End(ts[0]);
      } else {
        RunsFromComplete(text, inRun, e, p);
        var k :| 0 <= k < |rest| && rest[k].start <= p < End(rest[k]);
        assert ts[k + 1] == rest[k];
      }
    }
  }

  /** Every run character lies inside some token. */
  lemma TokensComplete(text: string, inRun: char -> bool, p: nat)
    requires p < |text| && inRun(text[p])
    ensures Covered(Tokens(text, inRun), p)
  {
    RunsFromComplete(text, inRun, 0, p);
  }

  /** Every maximal run of the text is one of the tokens: the scan misses none. */
  lemma RunIsToken(text: string, inRun: char -> bool, t: Token)
    requires IsRun(text, inRun, t)
    ensures t in Tokens(text, inRun)
  {
    var ts := Tokens(text, inRun);
    TokensComplete(text, inRun, t.start);
    var k :| 0 <= k < |ts| && ts[k].start <= t.start < End(ts[k]);
    var u := ts[k];
    if u.start < t.start {
      assert false;
    }
    if t.start < u.start {
      assert false;
    }
    if End(u) < End(t) {
      assert false;
    }
    if End(t) < End(u) {
      assert false;
    }
    assert u.word == text[t.start..End(t)];
  }

  /** A text without any run character has no tokens. */
  lemma NoRunsNoTokens(text: string, inRun: char -> bool)
    requires forall p :: 0 <= p < |text| ==> !inRun(text[p])
    ensures Tokens(text, inRun) == []
  {
    var ts := Tokens(text, inRun);
    if ts != [] {
      NotEmptyHasRunChar(text, inRun, ts[0]);
    }
  }

  lemma NotEmptyHasRunChar(text: string, inRun: char -> bool, t: Token)
    requires IsRun(text, inRun, t)
    ensures t.start < |text| && inRun(text[t.start])
  {
  }
}
