/** `getExcerpt` of the older script. The anchor is the position of the
    first word, in list order, that occurs in the description ignoring
    case; failing that, and when there are words at all, the position of
    the first word whose three-character prefix occurs. The window around
    the anchor is then highlighted with `highlightText`. */
module LegacyExcerpt {
  import opened Text
  import opened Optional
  import opened Markup
  import opened ExcerptWindow
  import opened LegacyHighlight

  /** The word is found in `ld` ignoring case. */
  predicate Found(ld: string, w: string) {
    IndexOf(ld, LowerStr(w)) != -1
  }

  /** The position in the list, from `k` on, of the first word found in `ld`. */
  function ExactFrom(ld: string, words: seq<string>, k: nat): (r: Option<nat>)
    ensures r.Some? ==> k <= r.value < |words| && Found(ld, words[r.value])
                        && forall i :: k <= i < r.value ==> !Found(ld, words[i])
    ensures r.None? ==> forall i :: k <= i < |words| ==> !Found(ld, words[i])
    decreases |words| - k
  {
    if k >= |words| then None
    else if Found(ld, words[k]) then Some(k)
    else ExactFrom(ld, words, k + 1)
  }

  /** `word.slice(0, 3)`. */
  function Prefix(word: string): (p: string)
    ensures |p| == Min(3, |word|) && p == word[..Min(3, |word|)]
  {
    Slice(word, 0, 3)
  }

  /** The position in the list, from `k` on, of the first word whose prefix
      is found in `ld`. The prefix is searched for as literal text. */
  function PrefixFrom(ld: string, words: seq<string>, k: nat): (r: Option<nat>)
    ensures r.Some? ==> k <= r.value < |words| && Found(ld, Prefix(words[r.value]))
                        && forall i :: k <= i < r.value ==> !Found(ld, Prefix(words[i]))
    ensures r.None? ==> forall i :: k <= i < |words| ==> !Found(ld, Prefix(words[i]))
    decreases |words| - k
  {
    if k >= |words| then None
    else if Found(ld, Prefix(words[k])) then Some(k)
    else PrefixFrom(ld, words, k + 1)
  }

  /** `matchIndex`: the exact phase, then the prefix phase when there are
      words. The anchor is where the first word in list order that is found
      occurs first, or failing every word, where the first prefix found
      occurs first; there is none exactly when neither any word nor any
      prefix is found. */
  function Anchor(desc: string, words: seq<string>): (a: Option<nat>)
    ensures a.Some? ==>
      exists j :: 0 <= j < |words| &&
        (OccursAt(LowerStr(desc), LowerStr(words[j]), a.value) || OccursAt(LowerStr(desc), LowerStr(Prefix(words[j])), a.value))
    ensures a.None? <==> forall j :: 0 <= j < |words| ==> !Found(LowerStr(desc), words[j]) && !Found(LowerStr(desc), Prefix(words[j]))
  {
    var ld := LowerStr(desc);
    match ExactFrom(ld, words, 0)
    case Some(j) => Some(IndexOf(ld, LowerStr(words[j])) as nat)
    case None =>
      if |words| == 0 then None
      else match PrefixFrom(ld, words, 0)
        case Some(j) => Some(IndexOf(ld, LowerStr(Prefix(words[j]))) as nat)
        case None => None
  }

  /** `getExcerpt(description, words)`. */
  function GetExcerpt(desc: string, words: seq<string>): string {
    HighlightText(Window(desc, Anchor(desc, words)), words)
  }

  /** A word found in the description wins over every later word, and the
      prefix phase runs only when no word is found whole. */
  lemma AnchorListOrder(desc: string, words: seq<string>, j: nat)
    requires j < |words| && Found(LowerStr(desc), words[j])
    requires forall i :: 0 <= i < j ==> !Found(LowerStr(desc), words[i])
    ensures Anchor(desc, words) == Some(IndexOf(LowerStr(desc), LowerStr(words[j])) as nat)
  {
    var r := ExactFrom(LowerStr(desc), words, 0);
    assert r == Some(j);
  }

  /** When no word is found whole, the anchor is where the prefix of the
      first word, in list order, whose prefix is found occurs first. */
  lemma AnchorPrefixOrder(desc: string, words: seq<string>, j: nat)
    requires forall i :: 0 <= i < |words| ==> !Found(LowerStr(desc), words[i])
    requires j < |words| && Found(LowerStr(desc), Prefix(words[j]))
    requires forall i :: 0 <= i < j ==> !Found(LowerStr(desc), Prefix(words[i]))
    ensures Anchor(desc, words) == Some(IndexOf(LowerStr(desc), LowerStr(Prefix(words[j]))) as nat)
  {
    var ld := LowerStr(desc);
    assert ExactFrom(ld, words, 0) == None;
    var r := PrefixFrom(ld, words, 0);
    assert r == Some(j);
  }

  /** The later word `beta` occurs earlier in `beta alpha`, but `alpha`
      comes first in the list, so the excerpt anchors at `alpha`. */
  lemma ExampleListOrder()
    ensures Anchor("beta alpha", ["alpha", "beta"]) == Some(5)
  {
    var ld := LowerStr("beta alpha");
    assert ld == "beta alpha";
    assert OccursAt(ld, "alpha", 5);
    assert forall i :: 0 <= i < 5 ==> !OccursAt(ld, "alpha", i) by {
      assert ld[0] != 'a' && ld[1] != 'l' && ld[2] != 'p' && ld[3] != 'h' && ld[4] != 'a';
      forall i | 0 <= i < 5 ensures !OccursAt(ld, "alpha", i) {
        assert ld[i..i + 5][0] == ld[i];
        assert ld[i..i + 5][1] == ld[i + 1];
      }
    }
    assert IndexOf(ld, LowerStr("alpha")) == 5 by {
      assert LowerStr("alpha") == "alpha";
    }
    AnchorListOrder("beta alpha", ["alpha", "beta"], 0);
  }

  /** Before highlighting the excerpt is at most 86 characters; removing the
      markers gives that window back when the description has no `<`. */
  lemma ExcerptRoundTrip(desc: string, words: seq<string>)
    requires NoAngle(desc)
    ensures |Window(desc, Anchor(desc, words))| <= Fallback + 2 * |Ellipsis|
    ensures Strip(GetExcerpt(desc, words)) == Window(desc, Anchor(desc, words))
  {
    var w := Window(desc, Anchor(desc, words));
    WindowNoAngle(desc, Anchor(desc, words));
    HighlightRoundTrip(w, words);
  }
}
