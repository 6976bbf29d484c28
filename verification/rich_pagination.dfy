/** The pagination strip of the newer script: page 1, the last page and
    the current page are always shown, with neighbours of the current page
    near either end; an ellipsis follows page 1 when the current page is
    past 3 and precedes the last page when it is before t - 2, but only
    when there are more than four pages. */
module RichPagination {
  import opened Paging

  /** The button-visibility rule for page `i` when `c` of `t` is current. */
  predicate Visible(c: int, t: int, i: int) {
    || i == 1 || i == t || i == c
    || (c == 3 && i == 2)
    || (c == 1 && (i == 2 || i == 3))
    || (c == 2 && i == 3)
    || (c == t && (i == t - 1 || i == t - 2))
    || (c == t - 1 && i == t - 2)
    || (c == t - 2 && i == t - 1)
  }

  /** The rule that appends an ellipsis after iteration `i`. */
  predicate Ellipsis(c: int, t: int, i: int) {
    ((c > 3 && i == 1) || (c < t - 2 && i == t - 1)) && t > 4
  }

  function Shown(c: int, t: int): int -> bool {
    i => Visible(c, t, i)
  }

  function Dotted(c: int, t: int): int -> bool {
    i => Ellipsis(c, t, i)
  }

  /** `renderPaginationControls` with page `c` of `t` current. */
  function Render(c: int, t: int): Controls {
    Controls(c != 1, c != t, Strip(Shown(c, t), Dotted(c, t), 1, t + 1))
  }

  /** The shown pages other than 1 and t form the run Low .. High. */
  function Low(c: int, t: int): int {
    if c <= 3 then 2 else if c < t - 2 then c else t - 2
  }

  function High(c: int, t: int): int {
    if c >= t - 2 then t - 1 else if c > 3 then c else 3
  }

  lemma VisibleRun(c: int, t: int)
    requires 1 <= c <= t && t > 4
    ensures 2 <= Low(c, t) <= c || c == 1 || c == t
    ensures 2 <= Low(c, t) <= High(c, t) <= t - 1
    ensures forall i :: 2 <= i <= t - 1 ==> (Visible(c, t, i) <==> Low(c, t) <= i <= High(c, t))
  {
  }

  /** The strip, exactly: with more than four pages it is page 1, an
      ellipsis when c > 3, the run of pages around c, an ellipsis when
      c < t - 2, and page t; with at most four pages every page is shown
      and there is no ellipsis. Either way it is the reference strip of
      the visible pages: an ellipsis exactly where the numbering jumps. */
  lemma StripLayout(c: int, t: int)
    requires 1 <= c <= t
    ensures t > 4 ==>
      Render(c, t).strip == [Page(1)] + DotsIf(c > 3) + Run(Low(c, t), High(c, t) + 1) + DotsIf(c < t - 2) + [Page(t)]
    ensures t <= 4 ==> Render(c, t).strip == Run(1, t + 1)
    ensures Render(c, t).strip == Gapped(PagesIn(Shown(c, t), 1, t + 1))
  {
    if t > 4 {
      LongLayout(c, t);
    } else {
      ShortLayout(c, t);
    }
  }

  lemma LongLayout(c: int, t: int)
    requires 1 <= c <= t && t > 4
    ensures Render(c, t).strip == [Page(1)] + DotsIf(c > 3) + Run(Low(c, t), High(c, t) + 1) + DotsIf(c < t - 2) + [Page(t)]
    ensures Render(c, t).strip == Gapped(PagesIn(Shown(c, t), 1, t + 1))
  {
    VisibleRun(c, t);
    RunStrip(Shown(c, t), Dotted(c, t), t, Low(c, t), High(c, t));
  }

  /** The first half of `LongLayout` alone, for use on concrete pages. */
  lemma LongShape(c: int, t: int)
    requires 1 <= c <= t && t > 4
    ensures Render(c, t).strip == [Page(1)] + DotsIf(c > 3) + Run(Low(c, t), High(c, t) + 1) + DotsIf(c < t - 2) + [Page(t)]
  {
    LongLayout(c, t);
  }

  lemma ShortLayout(c: int, t: int)
    requires 1 <= c <= t <= 4
    ensures Render(c, t).strip == Run(1, t + 1)
    ensures Render(c, t).strip == Gapped(PagesIn(Shown(c, t), 1, t + 1))
  {
    FullStrip(Shown(c, t), Dotted(c, t), t);
  }

  /** Pages 1, t and c are always among the buttons, and every button is a
      page of 1 .. t, in increasing order. */
  lemma PagesShown(c: int, t: int)
    requires 1 <= c <= t
    ensures Page(1) in Render(c, t).strip && Page(t) in Render(c, t).strip && Page(c) in Render(c, t).strip
    ensures IncreasingPages(PagesIn(Shown(c, t), 1, t + 1), Shown(c, t), 1, t + 1)
  {
    StripLayout(c, t);
    PagesInIncreasing(Shown(c, t), 1, t + 1);
    if t > 4 {
      var run := Run(Low(c, t), High(c, t) + 1);
      VisibleRun(c, t);
      if c != 1 && c != t {
        assert run[c - Low(c, t)] == Page(c);
      }
    } else {
      assert Run(1, t + 1)[t - 1] == Page(t) && Run(1, t + 1)[c - 1] == Page(c) && Run(1, t + 1)[0] == Page(1);
    }
  }

  /** The previous button is hidden exactly on page 1, the next button
      exactly on the last page. */
  lemma Buttons(c: int, t: int)
    ensures !Render(c, t).prev <==> c == 1
    ensures !Render(c, t).next <==> c == t
  {
  }

  /** An ellipsis stands where a page would have been: the page after 1
      and the page before t are hidden when one is drawn there. */
  lemma EllipsisHidesPage(c: int, t: int)
    requires 1 <= c <= t
    ensures Ellipsis(c, t, 1) ==> !Visible(c, t, 2)
    ensures Ellipsis(c, t, t - 1) ==> !Visible(c, t, t - 1)
    ensures forall i :: Ellipsis(c, t, i) ==> i == 1 || i == t - 1
  {
  }

  /** Reading the strip right to left, with pages renumbered t + 1 - n,
      gives the strip of the mirrored current page. */
  lemma Mirrored(c: int, t: int)
    requires 1 <= c <= t
    ensures Render(t + 1 - c, t).strip == Mirror(Render(c, t).strip, t)
  {
    if t > 4 {
      MirroredLong(c, t);
    } else {
      MirroredShort(c, t);
    }
  }

  lemma MirroredLong(c: int, t: int)
    requires 1 <= c <= t && t > 4
    ensures Render(t + 1 - c, t).strip == Mirror(Render(c, t).strip, t)
  {
    var c' := t + 1 - c;
    LongShape(c, t);
    LongShape(c', t);
    assert Low(c', t) == t + 1 - High(c, t) && High(c', t) == t + 1 - Low(c, t);
    MirrorShape(t, c > 3, Low(c, t), High(c, t), c < t - 2);
  }

  lemma MirroredShort(c: int, t: int)
    requires 1 <= c <= t <= 4
    ensures Render(t + 1 - c, t).strip == Mirror(Render(c, t).strip, t)
  {
    ShortLayout(c, t);
    ShortLayout(t + 1 - c, t);
    MirrorRun(1, t + 1, t);
  }

  /** On page 1 of 10: pages 1 to 3, an ellipsis, page 10. */
  lemma ExampleFirstPage()
    ensures Render(1, 10).strip == [Page(1), Page(2), Page(3), Dots, Page(10)]
  {
    LongShape(1, 10);
    assert Low(1, 10) == 2 && High(1, 10) == 3;
    assert DotsIf(1 > 3) == [] && DotsIf(1 < 10 - 2) == [Dots];
    assert Run(2, 4) == [Page(2), Page(3)];
    var s := Render(1, 10).strip;
    assert s == [Page(1)] + [] + [Page(2), Page(3)] + [Dots] + [Page(10)];
    assert [Page(1)] + [] + [Page(2), Page(3)] + [Dots] + [Page(10)] == [Page(1), Page(2), Page(3), Dots, Page(10)];
  }

  /** On page 5 of 10: page 1, an ellipsis, page 5, an ellipsis, page 10. */
  lemma ExampleMiddlePage()
    ensures Render(5, 10).strip == [Page(1), Dots, Page(5), Dots, Page(10)]
  {
    LongShape(5, 10);
    assert Low(5, 10) == 5 && High(5, 10) == 5;
    assert DotsIf(5 > 3) == [Dots] && DotsIf(5 < 10 - 2) == [Dots];
    assert Run(5, 6) == [Page(5)];
    var s := Render(5, 10).strip;
    assert s == [Page(1)] + [Dots] + [Page(5)] + [Dots] + [Page(10)];
    assert [Page(1)] + [Dots] + [Page(5)] + [Dots] + [Page(10)] == [Page(1), Dots, Page(5), Dots, Page(10)];
  }
}
