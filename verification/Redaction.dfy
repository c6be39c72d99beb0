/** The marker, and what it means for one text to be a redaction of another. */
module Redaction {
  import opened Text

  const MARKER: string := "<redacted>"

  /** A redaction keeps characters and cuts stretches of text; a cut may be empty. */
  datatype Piece = Keep(c: char) | Cut(text: string)

  function Original(ps: seq<Piece>): string {
    if ps == [] then [] else
    (match ps[0] case Keep(c) => [c] case Cut(text) => text) + Original(ps[1..])
  }

  function Redacted(ps: seq<Piece>): string {
    if ps == [] then [] else
    (match ps[0] case Keep(c) => [c] case Cut(_) => MARKER) + Redacted(ps[1..])
  }

  /** `o` is `s` with an ordered list of disjoint stretches each replaced by the marker. */
  ghost predicate IsRedaction(s: string, o: string) {
    exists ps: seq<Piece> :: Original(ps) == s && Redacted(ps) == o
  }

  predicate AngleFree(w: string) { forall i | 0 <= i < |w| :: w[i] != '<' && w[i] != '>' }

  lemma NothingIsCut()
    ensures IsRedaction([], [])
  {
    assert Original([]) == [] && Redacted([]) == [];
  }

  lemma KeepOne(c: char, s: string, o: string)
    requires IsRedaction(s, o)
    ensures IsRedaction([c] + s, [c] + o)
  {
    var ps :| Original(ps) == s && Redacted(ps) == o;
    var qs := [Keep(c)] + ps;
    assert qs[1..] == ps;
    assert Original(qs) == [c] + s && Redacted(qs) == [c] + o;
  }

  lemma {:induction false} KeepAll(w: string, s: string, o: string)
    requires IsRedaction(s, o)
    ensures IsRedaction(w + s, w + o)
  {
    if w == [] {
      assert w + s == s && w + o == o;
    } else {
      KeepAll(w[1..], s, o);
      KeepOne(w[0], w[1..] + s, w[1..] + o);
      assert [w[0]] + (w[1..] + s) == w + s && [w[0]] + (w[1..] + o) == w + o;
    }
  }

  lemma CutOne(text: string, s: string, o: string)
    requires IsRedaction(s, o)
    ensures IsRedaction(text + s, MARKER + o)
  {
    var ps :| Original(ps) == s && Redacted(ps) == o;
    var qs := [Cut(text)] + ps;
    assert qs[1..] == ps;
    assert Original(qs) == text + s && Redacted(qs) == MARKER + o;
  }

  /** Text free of angle brackets at the front of a redaction was at the front before it. */
  lemma {:induction false} PiecesFront(ps: seq<Piece>, n: nat)
    requires n <= |Redacted(ps)| && AngleFree(Redacted(ps)[..n])
    ensures n <= |Original(ps)| && Original(ps)[..n] == Redacted(ps)[..n]
  {
    if n > 0 {
      var o, o' := Redacted(ps), Redacted(ps[1..]);
      assert o[0] == o[..n][0] && MARKER[0] == '<';
      assert ps[0].Keep?;
      assert o[1..] == o' && o[..n] == [o[0]] + o'[..n - 1];
      var w := o'[..n - 1];
      forall i | 0 <= i < |w|
        ensures w[i] != '<' && w[i] != '>'
      {
        assert o[..n][i + 1] == w[i];
      }
      PiecesFront(ps[1..], n - 1);
      assert Original(ps)[..n] == [o[0]] + Original(ps[1..])[..n - 1];
    }
  }

  /** The same, of the relation. */
  lemma FrontWasThere(s: string, o: string, n: nat)
    requires IsRedaction(s, o) && n <= |o| && AngleFree(o[..n])
    ensures n <= |s| && s[..n] == o[..n]
  {
    var ps :| Original(ps) == s && Redacted(ps) == o;
    PiecesFront(ps, n);
  }

  /** Shifted by `d`, the text `w` and the marker agree wherever they meet. */
  predicate Overlaps(w: string, d: int) {
    forall i | 0 <= i < |w| && 0 <= i + d < |MARKER| :: w[i] == MARKER[i + d]
  }

  /** No shift lets `w` and the marker meet and agree. */
  predicate ClearOfMarker(w: string) {
    forall d | -|w| < d < |MARKER| :: !Overlaps(w, d)
  }

  lemma OverlapIsInWord(w: string, d: int)
    requires w != [] && AngleFree(w) && -|w| < d < |MARKER| && Overlaps(w, d)
    ensures Contains("redacted", w)
  {
    var word := "redacted";
    assert MARKER[1..9] == word;
    var i: int := if d <= 0 then 0 - d else 0;
    assert w[i] != '<';
    assert 1 <= d;
    i := if 9 - d < |w| then 9 - d else 0;
    assert w[i] != '>';
    assert |w| + d <= 9;
    forall j | 0 <= j < |w|
      ensures w[j] == word[d - 1..][j]
    {
      assert w[j] == MARKER[j + d] == word[d - 1 + j];
    }
    assert w <= word[d - 1..];
  }

  /** Without angle brackets, only a part of the marker's word is not clear of it. */
  lemma PlainTextIsClear(w: string)
    requires w != [] && AngleFree(w)
    ensures ClearOfMarker(w) <==> !Contains("redacted", w)
  {
    var word := "redacted";
    assert MARKER[1..9] == word;
    if Contains(word, w) {
      var p :| 0 <= p <= |word| && w <= word[p..];
      assert forall i | 0 <= i < |w| :: w[i] == word[p..][i] == MARKER[i + (p + 1)];
      assert Overlaps(w, p + 1);
    }
    if !ClearOfMarker(w) {
      var d :| -|w| < d < |MARKER| && Overlaps(w, d);
      OverlapIsInWord(w, d);
    }
  }

  /** Where `w` is found with its position `j` at the front of a marker, the two overlap. */
  lemma MarkerMeets(w: string, j: int, o: string)
    requires MARKER <= o && -|MARKER| < j < |w|
    requires if j >= 0 then w[j..] <= o else w <= o[0 - j..]
    ensures Overlaps(w, 0 - j)
  {
    var u, v := if j >= 0 then w[j..] else w, if j >= 0 then o else o[0 - j..];
    forall i | 0 <= i < |w| && 0 <= i + (0 - j) < |MARKER|
      ensures w[i] == MARKER[i + (0 - j)]
    {
      assert o[i - j] == MARKER[i - j];
      if j >= 0 {
        assert u[i - j] == v[i - j] && u[i - j] == w[i];
      } else {
        assert u[i] == v[i] && v[i] == o[i - j];
      }
    }
  }

  /** A clear text matched from its position `j` on at the front of a redaction was copied. */
  lemma {:induction false} ClearFront(ps: seq<Piece>, w: string, j: nat)
    requires ClearOfMarker(w) && j <= |w| && w[j..] <= Redacted(ps)
    ensures w[j..] <= Original(ps)
  {
    if j < |w| {
      hide Overlaps;
      var o, o' := Redacted(ps), Redacted(ps[1..]);
      if ps[0].Cut? {
        MarkerMeets(w, j, o);
      }
      assert o[1..] == o';
      assert w[j + 1..] == w[j..][1..];
      ClearFront(ps[1..], w, j + 1);
      assert w[j..] == [w[j]] + w[j + 1..];
    }
  }

  lemma {:induction false} PiecesCreateNothing(ps: seq<Piece>, w: string, p: nat)
    requires w != [] && ClearOfMarker(w)
    requires p <= |Redacted(ps)| && w <= Redacted(ps)[p..]
    ensures Contains(Original(ps), w)
  {
    hide Overlaps;
    var s, o := Original(ps), Redacted(ps);
    if p == 0 {
      assert w[0..] == w;
      ClearFront(ps, w, 0);
      assert w <= s[0..];
    } else {
      var s', o' := Original(ps[1..]), Redacted(ps[1..]);
      var k, m := |s| - |s'|, |o| - |o'|;
      assert s[k..] == s' && o[m..] == o';
      if p < m {
        MarkerMeets(w, 0 - p, o);
      }
      Suffixes(o, m, p, p - m);
      PiecesCreateNothing(ps[1..], w, p - m);
      var q :| 0 <= q <= |s'| && w <= s'[q..];
      Suffixes(s, k, k + q, q);
    }
  }

  /**
   * The key fact about the marker: a redaction cannot create a text that is clear of it.
   */
  lemma RedactionCreatesNothing(s: string, o: string, w: string)
    requires IsRedaction(s, o) && w != [] && ClearOfMarker(w)
    requires !Contains(s, w)
    ensures !Contains(o, w)
  {
    if Contains(o, w) {
      var ps :| Original(ps) == s && Redacted(ps) == o;
      var p :| 0 <= p <= |o| && w <= o[p..];
      PiecesCreateNothing(ps, w, p);
    }
  }
}
