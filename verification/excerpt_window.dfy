/** The excerpt window both `getExcerpt` variants cut before highlighting:
    40 characters either side of the anchor, with `...` marking each side
    that was cut off, or the first 80 characters when nothing anchored. */
module ExcerptWindow {
  import opened Text
  import opened Optional
  import opened Markup

  const Radius: nat := 40
  const Fallback: nat := 80
  const Ellipsis: string := "..."

  /** `...` when that side of the description was cut off. */
  function Marker(cut: bool): string {
    if cut then Ellipsis else ""
  }

  /** The window around `anchor` (a character offset of the description),
      or the head of the description when there is no anchor. */
  function Window(desc: string, anchor: Option<nat>): (r: string)
    ensures |r| <= Fallback + 2 * |Ellipsis|
  {
    match anchor
    case Some(idx) =>
      var start := Max(0, idx - Radius);
      var end := Min(|desc|, idx + Radius);
      Marker(start > 0) + Slice(desc, start, end) + Marker(end < |desc|)
    case None =>
      Slice(desc, 0, Fallback) + Marker(|desc| > Fallback)
  }

  /** With an anchor inside the description the window is one contiguous
      slice of at most 80 characters that contains the anchor, reaching 40
      characters to each side unless the description ends first, and it
      carries a marker exactly on the sides where it was cut. */
  lemma AnchoredWindow(desc: string, idx: nat)
    requires idx <= |desc|
    ensures exists lo, hi ::
      && 0 <= lo <= idx <= hi <= |desc| && hi - lo <= 2 * Radius
      && (lo > 0 <==> idx > Radius) && (lo > 0 ==> lo == idx - Radius)
      && (hi < |desc| <==> idx + Radius < |desc|) && (hi < |desc| ==> hi == idx + Radius)
      && Window(desc, Some(idx)) == Marker(lo > 0) + desc[lo..hi] + Marker(hi < |desc|)
  {
    var lo := Max(0, idx - Radius);
    var hi := Min(|desc|, idx + Radius);
    assert Window(desc, Some(idx)) == Marker(lo > 0) + desc[lo..hi] + Marker(hi < |desc|);
  }

  /** Without an anchor the window is the first 80 characters, followed by
      `...` exactly when the description is longer. */
  lemma HeadWindow(desc: string)
    ensures |desc| <= Fallback ==> Window(desc, None) == desc
    ensures |desc| > Fallback ==> Window(desc, None) == desc[..Fallback] + Ellipsis
  {
    assert desc[0..|desc|] == desc;
  }

  /** The window never introduces a `<`: the markers are dots. */
  lemma WindowNoAngle(desc: string, anchor: Option<nat>)
    requires NoAngle(desc)
    ensures NoAngle(Window(desc, anchor))
  {
    match anchor
    case Some(idx) =>
      SliceNoAngle(desc, Max(0, idx - Radius), Min(|desc|, idx + Radius));
    case None =>
      SliceNoAngle(desc, 0, Fallback);
  }

  lemma SliceNoAngle(desc: string, a: int, b: int)
    requires NoAngle(desc)
    ensures NoAngle(Slice(desc, a, b))
  {
    var r := Slice(desc, a, b);
    var from, to := ClampIndex(a, |desc|), ClampIndex(b, |desc|);
    if from < to {
      assert r == desc[from..to];
      assert forall k :: 0 <= k < |r| ==> r[k] == desc[from + k];
    }
  }
}
