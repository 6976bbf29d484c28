/** The pagination strip of the older script. Page 1, the last page and
    the current page are shown, plus page 2 and 3 from page 1, page 3 from
    page 2, and symmetrically at the end; an ellipsis follows page 1 when
    the current page is past 2 and precedes the last page when it is
    before t - 1, but only when there are more than five pages.

    With exactly five pages that last condition hides pages without
    drawing an ellipsis for them: `Render` is the rule as written and
    `RenderFixed` the rule with the threshold lowered to four pages, which
    marks every hidden stretch for every page count. */
module LegacyPagination {
  import opened Paging

  /** The button-visibility rule for page `i` when `c` of `t` is current. */
  predicate Visible(c: int, t: int, i: int) {
    || i == 1 || i == t || i == c
    || (c == 1 && (i == 2 || i == 3))
    || (c == 2 && i == 3)
    || (c == t && (i == t - 1 || i == t - 2))
    || (c == t - 1 && i == t - 2)
  }

  /** The ellipsis rule as written: only with more than five pages. */
  predicate Ellipsis(c: int, t: int, i: int) {
    ((c > 2 && i == 1) || (c < t - 1 && i == t - 1)) && t > 5
  }

  /** The ellipsis rule with the page-count threshold lowered to four. */
  predicate EllipsisFixed(c: int, t: int, i: int) {
    ((c > 2 && i == 1) || (c < t - 1 && i == t - 1)) && t > 4
  }

  function Shown(c: int, t: int): int -> bool {
    i => Visible(c, t, i)
  }

  function Dotted(c: int, t: int): int -> bool {
    i => Ellipsis(c, t, i)
  }

  function DottedFixed(c: int, t: int): int -> bool {
    i => EllipsisFixed(c, t, i)
  }

  /** `renderPaginationControls` as written, with page `c` of `t` current. */
  function Render(c: int, t: int): Controls {
    Controls(c != 1, c != t, Strip(Shown(c, t), Dotted(c, t), 1, t + 1))
  }

  /** `renderPaginationControls` with the corrected ellipsis threshold. */
  function RenderFixed(c: int, t: int): Controls {
    Controls(c != 1, c != t, Strip(Shown(c, t), DottedFixed(c, t), 1, t + 1))
  }

  /** The shown pages other than 1 and t form the run Low .. High. */
  function Low(c: int, t: int): int {
    if c <= 2 then 2 else if c <= t - 2 then c else t - 2
  }

  function High(c: int, t: int): int {
    if c >= t - 1 then t - 1 else if c >= 3 then c else 3
  }

  lemma VisibleRun(c: int, t: int)
    requires 1 <= c <= t && t > 4
    ensures 2 <= Low(c, t) <= High(c, t) <= t - 1
    ensures forall i :: 2 <= i <= t - 1 ==> (Visible(c, t, i) <==> Low(c, t) <= i <= High(c, t))
    ensures (Low(c, t) > 2 <==> c > 2) && (High(c, t) < t - 1 <==> c < t - 1)
  {
  }

  /** With four pages or fewer every page is shown and there is no ellipsis,
      under either rule. */
  lemma ShortLayout(c: int, t: int)
    requires 1 <= c <= t <= 4
    ensures Render(c, t).strip == Run(1, t + 1) == RenderFixed(c, t).strip
    ensures Render(c, t).strip == Gapped(PagesIn(Shown(c, t), 1, t + 1))
  {
    FullStrip(Shown(c, t), Dotted(c, t), t);
    FullStrip(Shown(c, t), DottedFixed(c, t), t);
  }

  /** With five pages or more the corrected strip is page 1, an ellipsis
      when c > 2, the run around c, an ellipsis when c < t - 1, and page t:
      an ellipsis exactly where the numbering jumps. */
  lemma FixedLongLayout(c: int, t: int)
    requires 1 <= c <= t && t > 4
    ensures RenderFixed(c, t).strip
         == [Page(1)] + DotsIf(c > 2) + Run(Low(c, t), High(c, t) + 1) + DotsIf(c < t - 1) + [Page(t)]
    ensures RenderFixed(c, t).strip == Gapped(PagesIn(Shown(c, t), 1, t + 1))
  {
    VisibleRun(c, t);
    RunStrip(Shown(c, t), DottedFixed(c, t), t, Low(c, t), High(c, t));
  }

  /** The first half of `FixedLongLayout` alone. */
  lemma FixedLongShape(c: int, t: int)
    requires 1 <= c <= t && t > 4
    ensures RenderFixed(c, t).strip
         == [Page(1)] + DotsIf(c > 2) + Run(Low(c, t), High(c, t) + 1) + DotsIf(c < t - 1) + [Page(t)]
  {
    FixedLongLayout(c, t);
  }

  /** The corrected strip marks every run of hidden pages with one ellipsis,
      whatever the page count. */
  lemma FixedHonest(c: int, t: int)
    requires 1 <= c <= t
    ensures RenderFixed(c, t).strip == Gapped(PagesIn(Shown(c, t), 1, t + 1))
  {
    if t > 4 {
      FixedLongLayout(c, t);
    } else {
      ShortLayout(c, t);
    }
  }

  /** Away from five pages the rule as written draws the corrected strip. */
  lemma AsWrittenAgrees(c: int, t: int)
    requires t != 5
    ensures Render(c, t) == RenderFixed(c, t)
  {
    StripCongruent(Shown(c, t), Dotted(c, t), Shown(c, t), DottedFixed(c, t), 1, t + 1);
  }

  /** Hence, away from five pages, the rule as written is honest too. */
  lemma AsWrittenHonest(c: int, t: int)
    requires 1 <= c <= t && t != 5
    ensures Render(c, t).strip == Gapped(PagesIn(Shown(c, t), 1, t + 1))
  {
    AsWrittenAgrees(c, t);
    FixedHonest(c, t);
  }

  /** With exactly five pages the rule as written draws no ellipsis at all:
      page 1, the run around c, page 5. */
  lemma FiveLayout(c: int)
    requires 1 <= c <= 5
    ensures Render(c, 5).strip == [Page(1)] + Run(Low(c, 5), High(c, 5) + 1) + [Page(5)]
  {
    VisibleRun(c, 5);
    StripWithoutDots(Shown(c, 5), Dotted(c, 5), 1, 6);
    PagesInThreeParts(Shown(c, 5), 5, Low(c, 5), High(c, 5));
  }

  /** Yet on every page of five some pages are hidden, so the strip as
      written is always shorter than the honest one by a missing ellipsis. */
  lemma FiveLosesEllipsis(c: int)
    requires 1 <= c <= 5
    ensures |Render(c, 5).strip| < |Gapped(PagesIn(Shown(c, 5), 1, 6))|
    ensures Render(c, 5).strip != RenderFixed(c, 5).strip
  {
    FiveLayout(c);
    FixedLongLayout(c, 5);
  }

  /** On page 3 of 5 the buttons read 1, 3, 5 with nothing between them. */
  lemma ExampleFiveMiddle()
    ensures Render(3, 5).strip == [Page(1), Page(3), Page(5)]
  {
    FiveLayout(3);
    assert Low(3, 5) == 3 && High(3, 5) == 3;
    assert Run(3, 4) == [Page(3)];
  }

  /** Pages 1, t and c are always among the buttons, both of the strip as
      written and of the corrected strip, and the pages shown run in
      increasing order. */
  lemma PagesShown(c: int, t: int)
    requires 1 <= c <= t
    ensures Page(1) in Render(c, t).strip && Page(t) in Render(c, t).strip
    ensures Page(c) in Render(c, t).strip
    ensures Page(1) in RenderFixed(c, t).strip && Page(t) in RenderFixed(c, t).strip
    ensures Page(c) in RenderFixed(c, t).strip
    ensures IncreasingPages(PagesIn(Shown(c, t), 1, t + 1), Shown(c, t), 1, t + 1)
  {
    FixedPagesShown(c, t);
    if t == 5 {
      FivePagesShown(c);
    } else {
      AsWrittenAgrees(c, t);
    }
  }

  /** Pages 1, 5 and c are among the buttons of the five-page strip as written. */
  lemma FivePagesShown(c: int)
    requires 1 <= c <= 5
    ensures Page(1) in Render(c, 5).strip && Page(5) in Render(c, 5).strip
    ensures Page(c) in Render(c, 5).strip
  {
    FiveLayout(c);
    var run := Run(Low(c, 5), High(c, 5) + 1);
    var s := [Page(1)] + run + [Page(5)];
    assert s[0] == Page(1) && s[|s| - 1] == Page(5);
    if c != 1 && c != 5 {
      VisibleRun(c, 5);
      assert run[c - Low(c, 5)] == Page(c);
      assert s[1 + c - Low(c, 5)] == Page(c);
    }
  }

  /** Pages 1, t and c are among the buttons of the corrected strip. */
  lemma FixedPagesShown(c: int, t: int)
    requires 1 <= c <= t
    ensures Page(1) in RenderFixed(c, t).strip && Page(t) in RenderFixed(c, t).strip
    ensures Page(c) in RenderFixed(c, t).strip
    ensures IncreasingPages(PagesIn(Shown(c, t), 1, t + 1), Shown(c, t), 1, t + 1)
  {
    PagesInIncreasing(Shown(c, t), 1, t + 1);
    if t > 4 {
      FixedLongShape(c, t);
      VisibleRun(c, t);
      if c != 1 && c != t {
        assert Run(Low(c, t), High(c, t) + 1)[c - Low(c, t)] == Page(c);
      }
    } else {
      ShortLayout(c, t);
      assert Run(1, t + 1)[t - 1] == Page(t) && Run(1, t + 1)[c - 1] == Page(c) && Run(1, t + 1)[0] == Page(1);
    }
  }

  /** The previous button is hidden exactly on page 1, the next button
      exactly on the last page. */
  lemma Buttons(c: int, t: int)
    ensures !Render(c, t).prev <==> c == 1
    ensures !Render(c, t).next <==> c == t
  {
  }

  /** Reading the corrected strip right to left, with pages renumbered
      t + 1 - n, gives the strip of the mirrored current page. */
  lemma Mirrored(c: int, t: int)
    requires 1 <= c <= t
    ensures RenderFixed(t + 1 - c, t).strip == Mirror(RenderFixed(c, t).strip, t)
  {
    if t > 4 {
      MirroredLong(c, t);
    } else {
      ShortLayout(c, t);
      ShortLayout(t + 1 - c, t);
      MirrorRun(1, t + 1, t);
    }
  }

  lemma MirroredLong(c: int, t: int)
    requires 1 <= c <= t && t > 4
    ensures RenderFixed(t + 1 - c, t).strip == Mirror(RenderFixed(c, t).strip, t)
  {
    var c' := t + 1 - c;
    FixedLongShape(c, t);
    FixedLongShape(c', t);
    assert Low(c', t) == t + 1 - High(c, t) && High(c', t) == t + 1 - Low(c, t);
    MirrorShape(t, c > 2, Low(c, t), High(c, t), c < t - 1);
  }
}
