/** `highlightText` of the older script: `text.replace(/(w1|w2|...)/gi,
    '<span data-fuse-highlight>$1</span>')` with every word escaped, so each
    alternative matches literally. The global replace scans left to right;
    at each position the alternatives are tried in list order and the first
    one that matches (ignoring case) wins, even when a later one is longer.
    After a match the scan resumes at its end; after an empty match it
    copies one character and resumes just past it. */
module LegacyHighlight {
  import opened Text
  import opened Optional
  import opened Markup

  /** The alternatives of the pattern: the words, or the single empty
      alternative of `()` when there are none. */
  function Alternatives(words: seq<string>): (alts: seq<string>)
    ensures |alts| > 0
    ensures words != [] ==> alts == words
  {
    if words == [] then [""] else words
  }

  /** Alternative `a` matches the text at `i`, ignoring case. */
  predicate MatchesAt(t: string, a: string, i: nat) {
    i + |a| <= |t| && LowerStr(t[i..i + |a|]) == LowerStr(a)
  }

  /** The first alternative from position `k` of the list on that matches at `i`. */
  function FirstFrom(t: string, alts: seq<string>, i: nat, k: nat): (r: Option<nat>)
    ensures r.Some? ==> k <= r.value < |alts| && MatchesAt(t, alts[r.value], i)
                        && forall j :: k <= j < r.value ==> !MatchesAt(t, alts[j], i)
    ensures r.None? ==> forall j :: k <= j < |alts| ==> !MatchesAt(t, alts[j], i)
    decreases |alts| - k
  {
    if k >= |alts| then None
    else if MatchesAt(t, alts[k], i) then Some(k)
    else FirstFrom(t, alts, i, k + 1)
  }

  /** The alternation tried at `i`: the position in the list of the first
      alternative that matches there, whatever the later ones would match. */
  function FirstMatch(t: string, alts: seq<string>, i: nat): (r: Option<nat>)
    ensures r.Some? ==> r.value < |alts| && MatchesAt(t, alts[r.value], i)
                        && forall j :: 0 <= j < r.value ==> !MatchesAt(t, alts[j], i)
    ensures r.None? ==> forall j :: 0 <= j < |alts| ==> !MatchesAt(t, alts[j], i)
  {
    FirstFrom(t, alts, i, 0)
  }

  /** The global replace from position `i` on, as plain and marked pieces. */
  function Scan(t: string, alts: seq<string>, i: nat): seq<Piece>
    requires i <= |t|
    decreases |t| - i
  {
    match FirstMatch(t, alts, i)
    case Some(k) =>
      var n := |alts[k]|;
      if n > 0 then [Marked(t[i..i + n])] + Scan(t, alts, i + n)
      else if i < |t| then [Marked(""), Plain([t[i]])] + Scan(t, alts, i + 1)
      else [Marked("")]
    case None =>
      if i < |t| then [Plain([t[i]])] + Scan(t, alts, i + 1) else []
  }

  /** `highlightText(text, words)`. */
  function HighlightText(text: string, words: seq<string>): string {
    Render(Scan(text, Alternatives(words), 0))
  }

  lemma ContentCons(p: Piece, ps: seq<Piece>)
    ensures Content([p] + ps) == p.s + Content(ps)
  {
    ContentAppend([p], ps);
    JoinOne(p, PieceText);
  }

  /** A match of `n` characters at `i` followed by pieces spelling the rest. */
  lemma ContentAfterMatch(t: string, i: nat, n: nat, rest: seq<Piece>)
    requires i + n <= |t| && Content(rest) == t[i + n..]
    ensures Content([Marked(t[i..i + n])] + rest) == t[i..]
  {
    ContentCons(Marked(t[i..i + n]), rest);
    assert t[i..] == t[i..i + n] + t[i + n..];
  }

  /** One copied character followed by pieces spelling the rest. */
  lemma ContentAfterChar(t: string, i: nat, rest: seq<Piece>)
    requires i < |t| && Content(rest) == t[i + 1..]
    ensures Content([Plain([t[i]])] + rest) == t[i..]
  {
    ContentCons(Plain([t[i]]), rest);
    assert t[i..] == [t[i]] + t[i + 1..];
  }

  /** An empty match, then one copied character, then the rest. */
  lemma ContentAfterEmpty(t: string, i: nat, rest: seq<Piece>)
    requires i < |t| && Content(rest) == t[i + 1..]
    ensures Content([Marked(""), Plain([t[i]])] + rest) == t[i..]
  {
    ContentAfterChar(t, i, rest);
    ContentCons(Marked(""), [Plain([t[i]])] + rest);
    assert [Marked(""), Plain([t[i]])] + rest == [Marked("")] + ([Plain([t[i]])] + rest);
  }

  /** One step of the scan spells out its characters, given that the
      scans from every later position spell out theirs. */
  lemma ScanStep(t: string, alts: seq<string>, i: nat)
    requires i <= |t|
    requires forall j :: i < j <= |t| ==> Content(Scan(t, alts, j)) == t[j..]
    ensures Content(Scan(t, alts, i)) == t[i..]
  {
    match FirstMatch(t, alts, i)
    case Some(k) =>
      var n := |alts[k]|;
      if n > 0 {
        ContentAfterMatch(t, i, n, Scan(t, alts, i + n));
      } else if i < |t| {
        ContentAfterEmpty(t, i, Scan(t, alts, i + 1));
      } else {
        JoinOne(Marked(""), PieceText);
      }
    case None =>
      if i < |t| {
        ContentAfterChar(t, i, Scan(t, alts, i + 1));
      }
  }

  /** The pieces spell out the rest of the text, from every position on. */
  lemma {:induction false} ScanContent(t: string, alts: seq<string>, i: nat)
    requires i <= |t|
    ensures forall j :: i <= j <= |t| ==> Content(Scan(t, alts, j)) == t[j..]
    decreases |t| - i
  {
    if i < |t| {
      ScanContent(t, alts, i + 1);
    }
    ScanStep(t, alts, i);
  }

  /** Removing the markers gives back the text, when the text has no `<`
      of its own; with no words this holds too, although the empty group
      then marks every position. */
  lemma HighlightRoundTrip(text: string, words: seq<string>)
    requires NoAngle(text)
    ensures Strip(HighlightText(text, words)) == text
  {
    var ps := Scan(text, Alternatives(words), 0);
    ScanContent(text, Alternatives(words), 0);
    StripRender(ps);
  }

  /** Every marked stretch equals one of the alternatives, ignoring case. */
  ghost predicate MarksAreAlternatives(ps: seq<Piece>, alts: seq<string>) {
    forall j :: 0 <= j < |ps| && ps[j].Marked? ==> exists k :: 0 <= k < |alts| && LowerStr(ps[j].s) == LowerStr(alts[k])
  }

  lemma MarksCons(ps: seq<Piece>, qs: seq<Piece>, alts: seq<string>)
    requires MarksAreAlternatives(ps, alts) && MarksAreAlternatives(qs, alts)
    ensures MarksAreAlternatives(ps + qs, alts)
  {
    forall j | 0 <= j < |ps + qs| && (ps + qs)[j].Marked?
      ensures exists k :: 0 <= k < |alts| && LowerStr((ps + qs)[j].s) == LowerStr(alts[k])
    {
      if j >= |ps| {
        assert (ps + qs)[j] == qs[j - |ps|];
      } else {
        assert (ps + qs)[j] == ps[j];
      }
    }
  }

  lemma {:induction false} ScanMarks(t: string, alts: seq<string>, i: nat)
    requires i <= |t|
    ensures MarksAreAlternatives(Scan(t, alts, i), alts)
    decreases |t| - i
  {
    match FirstMatch(t, alts, i)
    case Some(k) =>
      var n := |alts[k]|;
      if n > 0 {
        ScanMarks(t, alts, i + n);
        assert LowerStr([Marked(t[i..i + n])][0].s) == LowerStr(alts[k]);
        MarksCons([Marked(t[i..i + n])], Scan(t, alts, i + n), alts);
      } else if i < |t| {
        ScanMarks(t, alts, i + 1);
        assert LowerStr("") == LowerStr(alts[k]);
        MarksCons([Marked(""), Plain([t[i]])], Scan(t, alts, i + 1), alts);
      } else {
        assert LowerStr("") == LowerStr(alts[k]);
      }
    case None =>
      if i < |t| {
        ScanMarks(t, alts, i + 1);
        MarksCons([Plain([t[i]])], Scan(t, alts, i + 1), alts);
      }
  }

  /** With words, every highlighted stretch is one of the words, ignoring
      case; with none, every highlighted stretch is empty. */
  lemma HighlightedAreWords(text: string, words: seq<string>)
    ensures words != [] ==> MarksAreAlternatives(Scan(text, Alternatives(words), 0), words)
    ensures words == [] ==> forall j :: 0 <= j < |Scan(text, [""], 0)| && Scan(text, [""], 0)[j].Marked?
                                   ==> Scan(text, [""], 0)[j].s == ""
  {
    ScanMarks(text, Alternatives(words), 0);
    if words == [] {
      var ps := Scan(text, [""], 0);
      forall j | 0 <= j < |ps| && ps[j].Marked? ensures ps[j].s == "" {
        var k :| 0 <= k < 1 && LowerStr(ps[j].s) == LowerStr([""][k]);
      }
    }
  }

  /** With no words the empty group matches at every position, the end
      included: one empty highlight before each character and one after the last. */
  lemma {:induction false} EmptyGroupEverywhere(t: string, i: nat)
    requires i <= |t|
    ensures MarkCount(Scan(t, [""], i)) == |t| - i + 1
    ensures |Scan(t, [""], i)| == 2 * (|t| - i) + 1
    decreases |t| - i
  {
    assert FirstMatch(t, [""], i) == Some(0) by {
      assert MatchesAt(t, "", i);
    }
    if i < |t| {
      EmptyGroupEverywhere(t, i + 1);
      MarkCountAppend([Marked(""), Plain([t[i]])], Scan(t, [""], i + 1));
      assert MarkCount([Marked(""), Plain([t[i]])]) == 1 by {
        MarkCountAppend([Marked("")], [Plain([t[i]])]);
      }
    }
  }

  /** The first alternative in list order wins, not the longest: with
      `foo` listed before `foobar`, only `foo` is highlighted in `foobar`. */
  lemma FirstNotLongest()
    ensures Scan("foobar", ["foo", "foobar"], 0) == [Marked("foo"), Plain("b"), Plain("a"), Plain("r")]
  {
    var t, alts := "foobar", ["foo", "foobar"];
    assert !MatchesAt(t, "foo", 6) && !MatchesAt(t, "foobar", 6);
    assert Scan(t, alts, 6) == [];
    assert !MatchesAt(t, "foo", 5) && !MatchesAt(t, "foobar", 5);
    assert Scan(t, alts, 5) == [Plain("r")];
    assert !MatchesAt(t, "foo", 4) && !MatchesAt(t, "foobar", 4);
    assert Scan(t, alts, 4) == [Plain("a"), Plain("r")];
    assert !MatchesAt(t, "foo", 3) && !MatchesAt(t, "foobar", 3) by {
      assert LowerStr(t[3..6]) == "bar";
    }
    assert Scan(t, alts, 3) == [Plain("b"), Plain("a"), Plain("r")];
    assert MatchesAt(t, alts[0], 0) by {
      assert LowerStr(t[0..3]) == "foo";
    }
    assert FirstMatch(t, alts, 0) == Some(0);
    assert t[0..3] == "foo";
    assert Scan(t, alts, 0) == [Marked("foo")] + Scan(t, alts, 3);
  }
}
