/** The page-button strip of `renderPaginationControls`. The script walks
    i = 1 .. totalPages, appending the button for page i when a visibility
    rule holds and then an ellipsis when an ellipsis rule holds; the two
    variants differ only in these rules. A strip is modelled as the
    sequence of what was appended. */
module Paging {

  datatype Slot = Page(n: int) | Dots

  /** What iteration `i` appends. */
  function Emit(shown: int -> bool, dots: int -> bool, i: int): seq<Slot> {
    (if shown(i) then [Page(i)] else []) + (if dots(i) then [Dots] else [])
  }

  /** What iterations lo .. hi-1 append, in order. */
  function Strip(shown: int -> bool, dots: int -> bool, lo: int, hi: int): seq<Slot>
    decreases hi - lo
  {
    if lo >= hi then [] else Emit(shown, dots, lo) + Strip(shown, dots, lo + 1, hi)
  }

  /** The shown pages among lo .. hi-1, in increasing order. */
  function PagesIn(shown: int -> bool, lo: int, hi: int): seq<Slot>
    decreases hi - lo
  {
    if lo >= hi then [] else (if shown(lo) then [Page(lo)] else []) + PagesIn(shown, lo + 1, hi)
  }

  /** Only shown pages of the range, in strictly increasing order. */
  ghost predicate IncreasingPages(r: seq<Slot>, shown: int -> bool, lo: int, hi: int) {
    && (forall k :: 0 <= k < |r| ==> r[k].Page? && lo <= r[k].n < hi && shown(r[k].n))
    && (forall j, k :: 0 <= j < k < |r| ==> r[j].n < r[k].n)
  }

  lemma {:induction false} PagesInIncreasing(shown: int -> bool, lo: int, hi: int)
    ensures IncreasingPages(PagesIn(shown, lo, hi), shown, lo, hi)
    decreases hi - lo
  {
    if lo < hi {
      PagesInIncreasing(shown, lo + 1, hi);
    }
  }

  /** Every shown page of the range is there. */
  lemma {:induction false} PagesInComplete(shown: int -> bool, lo: int, hi: int, n: int)
    requires lo <= n < hi && shown(n)
    ensures Page(n) in PagesIn(shown, lo, hi)
    decreases hi - lo
  {
    if n > lo {
      PagesInComplete(shown, lo + 1, hi, n);
    }
  }

  /** The range splits at any point. */
  lemma {:induction false} PagesInSplit(shown: int -> bool, lo: int, mid: int, hi: int)
    requires lo <= mid <= hi
    ensures PagesIn(shown, lo, hi) == PagesIn(shown, lo, mid) + PagesIn(shown, mid, hi)
    decreases mid - lo
  {
    if lo < mid {
      PagesInSplit(shown, lo + 1, mid, hi);
    }
  }

  lemma {:induction false} StripSplit(shown: int -> bool, dots: int -> bool, lo: int, mid: int, hi: int)
    requires lo <= mid <= hi
    ensures Strip(shown, dots, lo, hi) == Strip(shown, dots, lo, mid) + Strip(shown, dots, mid, hi)
    decreases mid - lo
  {
    if lo < mid {
      StripSplit(shown, dots, lo + 1, mid, hi);
    }
  }

  /** Where no ellipsis rule fires, the strip is just the shown pages. */
  lemma {:induction false} StripWithoutDots(shown: int -> bool, dots: int -> bool, lo: int, hi: int)
    requires forall i :: lo <= i < hi ==> !dots(i)
    ensures Strip(shown, dots, lo, hi) == PagesIn(shown, lo, hi)
    decreases hi - lo
  {
    if lo < hi {
      StripWithoutDots(shown, dots, lo + 1, hi);
    }
  }

  /** Rules that agree on every iteration of the range give the same strip. */
  lemma {:induction false} StripCongruent(shown: int -> bool, dots: int -> bool, shown': int -> bool, dots': int -> bool, lo: int, hi: int)
    requires forall i :: lo <= i < hi ==> shown(i) == shown'(i) && dots(i) == dots'(i)
    ensures Strip(shown, dots, lo, hi) == Strip(shown', dots', lo, hi)
    decreases hi - lo
  {
    if lo < hi {
      StripCongruent(shown, dots, shown', dots', lo + 1, hi);
    }
  }

  function DotsIf(b: bool): seq<Slot> {
    if b then [Dots] else []
  }

  /** The shape of every strip of three or more pages whose ellipsis rules
      fire only right after page 1 or right before page t: page 1, an optional ellipsis, the shown
      pages strictly between, an optional ellipsis, page t. */
  lemma StripShape(shown: int -> bool, dots: int -> bool, t: int)
    requires t >= 3 && shown(1) && shown(t)
    requires forall i :: 1 < i < t - 1 ==> !dots(i)
    requires !dots(t)
    ensures Strip(shown, dots, 1, t + 1)
         == [Page(1)] + DotsIf(dots(1)) + PagesIn(shown, 2, t) + DotsIf(dots(t - 1)) + [Page(t)]
  {
    var head := Strip(shown, dots, 1, 2);
    var mid := Strip(shown, dots, 2, t - 1);
    var tail := Strip(shown, dots, t - 1, t + 1);
    StripSplit(shown, dots, 1, 2, t + 1);
    StripSplit(shown, dots, 2, t - 1, t + 1);
    StripWithoutDots(shown, dots, 2, t - 1);
    StripHead(shown, dots);
    StripTail(shown, dots, t);
    PagesInSplit(shown, 2, t - 1, t);
    var d1, pm, pt, d2 := DotsIf(dots(1)), PagesIn(shown, 2, t - 1), PagesIn(shown, t - 1, t), DotsIf(dots(t - 1));
    calc {
      Strip(shown, dots, 1, t + 1);
      head + (mid + tail);
      ([Page(1)] + d1) + (pm + ((pt + d2) + [Page(t)]));
      [Page(1)] + d1 + (pm + pt) + d2 + [Page(t)];
    }
  }

  lemma StripHead(shown: int -> bool, dots: int -> bool)
    requires shown(1)
    ensures Strip(shown, dots, 1, 2) == [Page(1)] + DotsIf(dots(1))
  {
    assert Strip(shown, dots, 2, 2) == [];
  }

  lemma StripTail(shown: int -> bool, dots: int -> bool, t: int)
    requires shown(t) && !dots(t)
    ensures Strip(shown, dots, t - 1, t + 1) == PagesIn(shown, t - 1, t) + DotsIf(dots(t - 1)) + [Page(t)]
  {
    assert Strip(shown, dots, t + 1, t + 1) == [] && PagesIn(shown, t, t) == [];
    assert Strip(shown, dots, t, t + 1) == [Page(t)];
  }

  /** A slot with page n renumbered t + 1 - n. */
  function Flip(s: Slot, t: int): Slot {
    if s.Page? then Page(t + 1 - s.n) else Dots
  }

  /** The strip read right to left, page n renumbered t + 1 - n. */
  function Mirror(s: seq<Slot>, t: int): (r: seq<Slot>)
    ensures |r| == |s|
    ensures forall k :: 0 <= k < |s| ==> r[k] == Flip(s[|s| - 1 - k], t)
  {
    seq(|s|, k requires 0 <= k < |s| => Flip(s[|s| - 1 - k], t))
  }

  lemma MirrorAppend(a: seq<Slot>, b: seq<Slot>, t: int)
    ensures Mirror(a + b, t) == Mirror(b, t) + Mirror(a, t)
  {
  }

  /** Mirrored visibility rules give the mirrored page list. */
  lemma {:induction false} MirrorPagesIn(shown: int -> bool, shown': int -> bool, t: int, lo: int, hi: int)
    requires lo <= hi
    requires forall i :: lo <= i < hi ==> shown'(t + 1 - i) == shown(i)
    ensures Mirror(PagesIn(shown, lo, hi), t) == PagesIn(shown', t + 2 - hi, t + 2 - lo)
    decreases hi - lo
  {
    if lo < hi {
      MirrorPagesIn(shown, shown', t, lo + 1, hi);
      MirrorPagesInStep(shown, shown', t, lo, hi);
    } else {
      assert PagesIn(shown, lo, hi) == [];
    }
  }

  lemma MirrorPagesInStep(shown: int -> bool, shown': int -> bool, t: int, lo: int, hi: int)
    requires lo < hi
    requires shown'(t + 1 - lo) == shown(lo)
    requires Mirror(PagesIn(shown, lo + 1, hi), t) == PagesIn(shown', t + 2 - hi, t + 1 - lo)
    ensures Mirror(PagesIn(shown, lo, hi), t) == PagesIn(shown', t + 2 - hi, t + 2 - lo)
  {
    var head := if shown(lo) then [Page(lo)] else [];
    var head' := if shown'(t + 1 - lo) then [Page(t + 1 - lo)] else [];
    assert PagesIn(shown, lo, hi) == head + PagesIn(shown, lo + 1, hi);
    MirrorAppend(head, PagesIn(shown, lo + 1, hi), t);
    assert Mirror(head, t) == head';
    PagesInSplit(shown', t + 2 - hi, t + 1 - lo, t + 2 - lo);
    assert PagesIn(shown', t + 1 - lo, t + 2 - lo) == head' by {
      assert PagesIn(shown', t + 2 - lo, t + 2 - lo) == [];
    }
  }

  /** Pages a .. b-1, every one of them. */
  function Run(a: int, b: int): (r: seq<Slot>)
    ensures |r| == if a <= b then b - a else 0
    ensures forall k :: 0 <= k < |r| ==> r[k] == Page(a + k)
    decreases b - a
  {
    if a >= b then [] else [Page(a)] + Run(a + 1, b)
  }

  /** A visibility rule that, inside lo .. hi-1, shows exactly the pages
      L .. R lists exactly those pages. */
  lemma {:induction false} PagesInRange(shown: int -> bool, lo: int, hi: int, L: int, R: int)
    requires lo <= L <= R + 1 <= hi
    requires forall i :: lo <= i < hi ==> (shown(i) <==> L <= i <= R)
    ensures PagesIn(shown, lo, hi) == Run(L, R + 1)
    decreases hi - lo
  {
    if lo < hi {
      if lo < L {
        PagesInRange(shown, lo + 1, hi, L, R);
      } else if L <= R {
        PagesInRange(shown, lo + 1, hi, L + 1, R);
      } else {
        PagesInRange(shown, lo + 1, hi, lo + 1, lo);
        assert Run(L, R + 1) == [] && Run(lo + 1, lo + 1) == [];
      }
    } else {
      assert Run(L, R + 1) == [];
    }
  }

  lemma {:induction false} RunSnoc(a: int, b: int)
    requires a <= b
    ensures Run(a, b + 1) == Run(a, b) + [Page(b)]
    decreases b - a
  {
    if a < b {
      RunSnoc(a + 1, b);
    }
  }

  function Num(s: Slot): int {
    if s.Page? then s.n else 0
  }

  /** The reference strip: the given pages in order, with one ellipsis
      wherever the numbering jumps, that is, wherever pages are left out. */
  function Gapped(ps: seq<Slot>): seq<Slot> {
    if |ps| <= 1 then ps
    else
      var init, last := ps[..|ps| - 1], ps[|ps| - 1];
      Gapped(init) + DotsIf(Num(last) > Num(init[|init| - 1]) + 1) + [last]
  }

  /** Appending a last page to a gapped strip. */
  lemma GappedSnoc(ps: seq<Slot>, t: int)
    requires ps != []
    ensures Gapped(ps + [Page(t)]) == Gapped(ps) + DotsIf(t > Num(ps[|ps| - 1]) + 1) + [Page(t)]
  {
    var q := ps + [Page(t)];
    assert |q| > 1;
    assert q[..|q| - 1] == ps;
    assert q[|q| - 1] == Page(t);
  }

  /** Page 1 followed by the unbroken run L .. R: one ellipsis after page 1
      exactly when the run does not start at 2. */
  lemma {:induction false} GappedHeadRun(L: int, R: int)
    requires 2 <= L <= R + 1
    ensures Gapped([Page(1)] + Run(L, R + 1)) == [Page(1)] + (if L <= R then DotsIf(L > 2) else []) + Run(L, R + 1)
    decreases R - L
  {
    if L < R {
      GappedHeadRun(L, R - 1);
      GappedHeadRunStep(L, R);
    } else if L == R {
      GappedHeadOne(L);
    } else {
      assert Run(L, R + 1) == [];
    }
  }

  lemma GappedHeadOne(L: int)
    ensures Gapped([Page(1)] + Run(L, L + 1)) == [Page(1)] + DotsIf(L > 2) + Run(L, L + 1)
  {
    assert Run(L, L + 1) == [Page(L)];
    GappedSnoc([Page(1)], L);
  }

  lemma GappedHeadRunStep(L: int, R: int)
    requires 2 <= L < R
    requires Gapped([Page(1)] + Run(L, R)) == [Page(1)] + DotsIf(L > 2) + Run(L, R)
    ensures Gapped([Page(1)] + Run(L, R + 1)) == [Page(1)] + DotsIf(L > 2) + Run(L, R + 1)
  {
    GappedRunSnoc(L, R);
    RunSnoc(L, R);
  }

  lemma GappedRunSnoc(L: int, R: int)
    requires 2 <= L < R
    ensures Gapped([Page(1)] + Run(L, R + 1)) == Gapped([Page(1)] + Run(L, R)) + [Page(R)]
  {
    var q := [Page(1)] + Run(L, R);
    RunSnoc(L, R);
    assert q[|q| - 1] == Page(R - 1);
    GappedSnoc(q, R);
    assert [Page(1)] + Run(L, R + 1) == q + [Page(R)];
  }

  /** The full run of pages, mirrored, is itself. */
  lemma MirrorRun(a: int, b: int, t: int)
    requires a <= b
    ensures Mirror(Run(a, b), t) == Run(t + 2 - b, t + 2 - a)
  {
  }

  /** The mirror image of a strip in the shape `RunStrip` produces. */
  lemma MirrorShape(t: int, b1: bool, L: int, R: int, b2: bool)
    requires L <= R + 1
    ensures Mirror([Page(1)] + DotsIf(b1) + Run(L, R + 1) + DotsIf(b2) + [Page(t)], t)
         == [Page(1)] + DotsIf(b2) + Run(t + 1 - R, t + 2 - L) + DotsIf(b1) + [Page(t)]
  {
    var head := [Page(1)] + DotsIf(b1) + Run(L, R + 1);
    var tail := DotsIf(b2) + [Page(t)];
    assert head + tail == [Page(1)] + DotsIf(b1) + Run(L, R + 1) + DotsIf(b2) + [Page(t)];
    MirrorAppend(head, tail, t);
    MirrorHead(t, b1, L, R);
    MirrorTail(t, b2);
  }

  lemma MirrorHead(t: int, b1: bool, L: int, R: int)
    requires L <= R + 1
    ensures Mirror([Page(1)] + DotsIf(b1) + Run(L, R + 1), t) == Run(t + 1 - R, t + 2 - L) + DotsIf(b1) + [Page(t)]
  {
    MirrorAppend([Page(1)] + DotsIf(b1), Run(L, R + 1), t);
    MirrorAppend([Page(1)], DotsIf(b1), t);
    MirrorRun(L, R + 1, t);
  }

  lemma MirrorTail(t: int, b2: bool)
    ensures Mirror(DotsIf(b2) + [Page(t)], t) == [Page(1)] + DotsIf(b2)
  {
    MirrorAppend(DotsIf(b2), [Page(t)], t);
  }

  /** Page 1, the run L .. R and page t, as a list of pages. */
  lemma PagesInThreeParts(shown: int -> bool, t: int, L: int, R: int)
    requires 2 <= L <= R + 1 <= t
    requires shown(1) && shown(t)
    requires forall i :: 2 <= i <= t - 1 ==> (shown(i) <==> L <= i <= R)
    ensures PagesIn(shown, 1, t + 1) == [Page(1)] + Run(L, R + 1) + [Page(t)]
  {
    PagesInSplit(shown, 1, 2, t + 1);
    PagesInSplit(shown, 2, t, t + 1);
    PagesInRange(shown, 2, t, L, R);
    assert PagesIn(shown, 2, 2) == [] && PagesIn(shown, t + 1, t + 1) == [];
    assert PagesIn(shown, 1, 2) == [Page(1)];
    assert PagesIn(shown, t, t + 1) == [Page(t)];
  }

  /** Page 1, an unbroken run L .. R strictly inside, page t: the gapped
      form puts an ellipsis exactly where the run leaves pages out. */
  lemma GappedThreeParts(t: int, L: int, R: int)
    requires 2 <= L <= R < t
    ensures Gapped([Page(1)] + Run(L, R + 1) + [Page(t)])
         == [Page(1)] + DotsIf(L > 2) + Run(L, R + 1) + DotsIf(R < t - 1) + [Page(t)]
  {
    var q := [Page(1)] + Run(L, R + 1);
    GappedHeadRun(L, R);
    assert q[|q| - 1] == Page(R);
    GappedSnoc(q, t);
  }

  /** The strip of a rule that shows page 1, an unbroken run L .. R and
      page t, and puts an ellipsis after page 1 exactly when the run starts
      past 2 and before page t exactly when it ends before t - 1. */
  lemma RunStrip(shown: int -> bool, dots: int -> bool, t: int, L: int, R: int)
    requires 2 <= L <= R < t
    requires shown(1) && shown(t)
    requires forall i :: 2 <= i <= t - 1 ==> (shown(i) <==> L <= i <= R)
    requires forall i :: 1 < i < t - 1 ==> !dots(i)
    requires !dots(t) && dots(1) == (L > 2) && dots(t - 1) == (R < t - 1)
    ensures Strip(shown, dots, 1, t + 1)
         == [Page(1)] + DotsIf(L > 2) + Run(L, R + 1) + DotsIf(R < t - 1) + [Page(t)]
    ensures Strip(shown, dots, 1, t + 1) == Gapped(PagesIn(shown, 1, t + 1))
  {
    StripShape(shown, dots, t);
    PagesInRange(shown, 2, t, L, R);
    PagesInThreeParts(shown, t, L, R);
    GappedThreeParts(t, L, R);
  }

  /** A rule that shows every page and no ellipsis: the strip is 1 .. t. */
  lemma FullStrip(shown: int -> bool, dots: int -> bool, t: int)
    requires t >= 1
    requires forall i :: 1 <= i <= t ==> shown(i) && !dots(i)
    ensures Strip(shown, dots, 1, t + 1) == Run(1, t + 1)
    ensures Strip(shown, dots, 1, t + 1) == Gapped(PagesIn(shown, 1, t + 1))
  {
    StripWithoutDots(shown, dots, 1, t + 1);
    PagesInRange(shown, 1, t + 1, 1, t);
    GappedHeadRun(2, t);
    assert Run(1, t + 1) == [Page(1)] + Run(2, t + 1);
  }

  /** The controls drawn for page `c` of `t`: whether the previous and
      next buttons are visible, and the page strip. */
  datatype Controls = Controls(prev: bool, next: bool, strip: seq<Slot>)
}
