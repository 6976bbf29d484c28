/** Highlighted output. Both highlighters produce the text cut into plain
    and marked pieces; rendering wraps each marked piece in the
    `<span data-fuse-highlight>` ... `</span>` element. Stripping the
    markers from the rendering gives back the text, provided the text
    holds no `<` of its own (otherwise it could already contain marker
    strings). */
module Markup {
  datatype Piece = Plain(s: string) | Marked(s: string)

  const Open: string := "<span data-fuse-highlight>"
  const Close: string := "</span>"

  /** The concatenation of `f` applied to each piece. */
  function Join(ps: seq<Piece>, f: Piece -> string): string {
    if ps == [] then "" else Join(ps[..|ps| - 1], f) + f(ps[|ps| - 1])
  }

  function PieceText(p: Piece): string {
    p.s
  }

  /** One piece as it appears in the output. */
  function Wrap(p: Piece): string {
    if p.Marked? then Open + p.s + Close else p.s
  }

  /** The text the pieces cover, markers left out. */
  function Content(ps: seq<Piece>): string {
    Join(ps, PieceText)
  }

  /** The string the highlighter returns. */
  function Render(ps: seq<Piece>): string {
    Join(ps, Wrap)
  }

  /** Removes every marker, scanning from the left. */
  function Strip(s: string): (r: string)
    ensures |r| <= |s|
  {
    if s == [] then ""
    else if |Open| <= |s| && s[..|Open|] == Open then Strip(s[|Open|..])
    else if |Close| <= |s| && s[..|Close|] == Close then Strip(s[|Close|..])
    else [s[0]] + Strip(s[1..])
  }

  predicate NoAngle(s: string) {
    '<' !in s
  }

  /** The number of marked pieces. */
  function MarkCount(ps: seq<Piece>): (n: nat)
    ensures n <= |ps|
  {
    if ps == [] then 0 else MarkCount(ps[..|ps| - 1]) + (if ps[|ps| - 1].Marked? then 1 else 0)
  }

  lemma {:induction false} JoinAppend(ps: seq<Piece>, qs: seq<Piece>, f: Piece -> string)
    ensures Join(ps + qs, f) == Join(ps, f) + Join(qs, f)
    decreases |qs|
  {
    if qs == [] {
      assert ps + qs == ps;
    } else {
      var init, last := qs[..|qs| - 1], qs[|qs| - 1];
      JoinAppend(ps, init, f);
      assert (ps + qs)[..|ps + qs| - 1] == ps + init;
      calc {
        Join(ps + qs, f);
        Join(ps + init, f) + f(last);
        (Join(ps, f) + Join(init, f)) + f(last);
        Join(ps, f) + (Join(init, f) + f(last));
      }
    }
  }

  lemma JoinOne(p: Piece, f: Piece -> string)
    ensures Join([p], f) == f(p)
  {
    assert [p][..0] == [];
  }

  lemma ContentAppend(ps: seq<Piece>, qs: seq<Piece>)
    ensures Content(ps + qs) == Content(ps) + Content(qs)
  {
    JoinAppend(ps, qs, PieceText);
  }

  lemma RenderAppend(ps: seq<Piece>, qs: seq<Piece>)
    ensures Render(ps + qs) == Render(ps) + Render(qs)
  {
    JoinAppend(ps, qs, Wrap);
  }

  lemma {:induction false} MarkCountAppend(ps: seq<Piece>, qs: seq<Piece>)
    ensures MarkCount(ps + qs) == MarkCount(ps) + MarkCount(qs)
    decreases |qs|
  {
    if qs == [] {
      assert ps + qs == ps;
    } else {
      MarkCountAppend(ps, qs[..|qs| - 1]);
      assert (ps + qs)[..|ps + qs| - 1] == ps + qs[..|qs| - 1];
    }
  }

  /** Plain text without `<` passes through `Strip` unchanged. */
  lemma {:induction false} StripPlain(s: string, rest: string)
    requires NoAngle(s)
    ensures Strip(s + rest) == s + Strip(rest)
    decreases |s|
  {
    if s != [] {
      var t := s + rest;
      assert t[0] == s[0] && t[0] != '<';
      assert |t| < |Open| || t[..|Open|][0] != Open[0];
      assert |t| < |Close| || t[..|Close|][0] != Close[0];
      assert t[1..] == s[1..] + rest;
      StripPlain(s[1..], rest);
      calc {
        Strip(t);
        [s[0]] + Strip(s[1..] + rest);
        [s[0]] + (s[1..] + Strip(rest));
        { assert s == [s[0]] + s[1..]; }
        s + Strip(rest);
      }
    } else {
      assert s + rest == rest;
    }
  }

  lemma StripOpen(rest: string)
    ensures Strip(Open + rest) == Strip(rest)
  {
    assert (Open + rest)[..|Open|] == Open;
    assert (Open + rest)[|Open|..] == rest;
  }

  lemma StripClose(rest: string)
    ensures Strip(Close + rest) == Strip(rest)
  {
    var t := Close + rest;
    assert t[..|Close|] == Close;
    assert t[|Close|..] == rest;
    assert |t| < |Open| || t[..|Open|][1] != Open[1];
  }

  /** Every piece's text is part of the content. */
  lemma {:induction false} PieceInContent(ps: seq<Piece>, k: nat, c: char)
    requires k < |ps| && c in ps[k].s
    ensures c in Content(ps)
  {
    if k < |ps| - 1 {
      PieceInContent(ps[..|ps| - 1], k, c);
    }
  }

  /** Pieces whose texts have no `<`. */
  ghost predicate PiecesNoAngle(ps: seq<Piece>) {
    forall k :: 0 <= k < |ps| ==> NoAngle(ps[k].s)
  }

  lemma ContentNoAngle(ps: seq<Piece>)
    requires NoAngle(Content(ps))
    ensures PiecesNoAngle(ps)
  {
    forall k | 0 <= k < |ps| ensures NoAngle(ps[k].s) {
      if !NoAngle(ps[k].s) {
        PieceInContent(ps, k, '<');
      }
    }
  }

  /** One wrapped piece strips back to its text. */
  lemma StripPiece(p: Piece, rest: string)
    requires NoAngle(p.s)
    ensures Strip(Wrap(p) + rest) == p.s + Strip(rest)
  {
    if p.Marked? {
      assert Wrap(p) + rest == Open + (p.s + (Close + rest));
      StripOpen(p.s + (Close + rest));
      StripPlain(p.s, Close + rest);
      StripClose(rest);
    } else {
      StripPlain(p.s, rest);
    }
  }

  /** Strip(Render(ps) + rest) == Content(ps) + Strip(rest), piece by piece. */
  lemma {:induction false} StripRenderPrefix(ps: seq<Piece>, rest: string)
    requires PiecesNoAngle(ps)
    ensures Strip(Render(ps) + rest) == Content(ps) + Strip(rest)
    decreases |ps|
  {
    if ps != [] {
      var init, last := ps[..|ps| - 1], ps[|ps| - 1];
      assert PiecesNoAngle(init) by {
        forall k | 0 <= k < |init| ensures NoAngle(init[k].s) {
          assert init[k] == ps[k];
        }
      }
      var tail := Wrap(last);
      assert Render(ps) + rest == Render(init) + (tail + rest);
      StripRenderPrefix(init, tail + rest);
      StripPiece(last, rest);
      assert Content(ps) + Strip(rest) == Content(init) + (last.s + Strip(rest));
    } else {
      assert Render(ps) + rest == rest;
    }
  }

  /** Round trip: removing the markers from the rendering gives back the
      text, when the text has no `<` of its own. */
  lemma StripRender(ps: seq<Piece>)
    requires NoAngle(Content(ps))
    ensures Strip(Render(ps)) == Content(ps)
  {
    ContentNoAngle(ps);
    StripRenderPrefix(ps, "");
    assert Render(ps) + "" == Render(ps);
    assert Content(ps) + "" == Content(ps);
  }

  /** Rendering only adds characters. */
  lemma {:induction false} RenderLength(ps: seq<Piece>)
    ensures |Render(ps)| == |Content(ps)| + MarkCount(ps) * (|Open| + |Close|)
  {
    if ps != [] {
      RenderLength(ps[..|ps| - 1]);
    }
  }

  /** Pieces without any marked one render to their plain text. */
  lemma {:induction false} RenderUnmarked(ps: seq<Piece>)
    requires MarkCount(ps) == 0
    ensures Render(ps) == Content(ps)
  {
    if ps != [] {
      RenderUnmarked(ps[..|ps| - 1]);
    }
  }
}
