/** The first pass: every known sensitive value is replaced, one value after the other. */
module KnownValues {
  import opened Text
  import opened Redaction

  /** The characters with the Unicode property White_Space. */
  predicate IsWhiteSpace(c: char) {
    || '\t' <= c <= '\r' || c == ' ' || c == '\U{85}' || c == '\U{A0}' || c == '\U{1680}'
    || '\U{2000}' <= c <= '\U{200A}' || c == '\U{2028}' || c == '\U{2029}' || c == '\U{202F}'
    || c == '\U{205F}' || c == '\U{3000}'
  }

  /** `v` without white space at either end. */
  function Trim(v: string): (w: string)
    ensures w != [] ==> !IsWhiteSpace(w[0]) && !IsWhiteSpace(w[|w| - 1])
  {
    if v == [] then []
    else if IsWhiteSpace(v[0]) then Trim(v[1..])
    else if IsWhiteSpace(v[|v| - 1]) then Trim(v[..|v| - 1])
    else v
  }

  predicate IsBlankText(a: string) { forall i | 0 <= i < |a| :: IsWhiteSpace(a[i]) }

  lemma TrimStep(v: string)
    requires v != []
    ensures if IsWhiteSpace(v[0]) then Trim(v) == Trim(v[1..]) && |v[1..]| < |v|
      else if IsWhiteSpace(v[|v| - 1]) then Trim(v) == Trim(v[..|v| - 1]) && |v[..|v| - 1]| < |v| else Trim(v) == v
  {
    hide IsWhiteSpace;
  }

  lemma BlankInFront(v: string, a: string, w: string, b: string)
    requires v != [] && IsWhiteSpace(v[0]) && v[1..] == a + w + b && IsBlankText(a)
    ensures v == [v[0]] + a + w + b && IsBlankText([v[0]] + a)
  {
    hide IsWhiteSpace;
    assert v == [v[0]] + v[1..];
  }

  lemma BlankBehind(v: string, a: string, w: string, b: string)
    requires v != [] && IsWhiteSpace(v[|v| - 1]) && v[..|v| - 1] == a + w + b && IsBlankText(b)
    ensures v == a + w + (b + [v[|v| - 1]]) && IsBlankText(b + [v[|v| - 1]])
  {
    hide IsWhiteSpace;
    assert v == v[..|v| - 1] + [v[|v| - 1]];
  }

  lemma NothingTrimmed(v: string)
    ensures v == [] + v + [] && IsBlankText([])
  {
  }

  /** Trimming takes off white space alone, at both ends. */
  lemma {:induction false} TrimIs(v: string) returns (a: string, b: string)
    ensures v == a + Trim(v) + b && IsBlankText(a) && IsBlankText(b)
    decreases |v|
  {
    hide *;
    NothingTrimmed(v);
    a, b := [], [];
    if v == [] {
      TrimOfNothing();
    } else {
      TrimStep(v);
      if IsWhiteSpace(v[0]) {
        a, b := TrimIs(v[1..]);
        BlankInFront(v, a, Trim(v), b);
        a := [v[0]] + a;
      } else if IsWhiteSpace(v[|v| - 1]) {
        a, b := TrimIs(v[..|v| - 1]);
        BlankBehind(v, a, Trim(v), b);
        b := b + [v[|v| - 1]];
      }
    }
  }

  lemma TrimOfNothing()
    ensures Trim([]) == []
  {
  }

  /** All occurrences of `w` in `s`, found from the left without overlap, replaced by the marker. */
  function Replace(s: string, w: string): string
    requires w != []
    decreases |s|
  {
    if |s| < |w| then s
    else if w <= s then MARKER + Replace(s[|w|..], w)
    else [s[0]] + Replace(s[1..], w)
  }

  function RedactValue(s: string, v: string): string {
    if Trim(v) == [] then s else Replace(s, Trim(v))
  }

  function KnownValuePass(s: string, values: seq<string>): string
    decreases |values|
  {
    if values == [] then s else KnownValuePass(RedactValue(s, values[0]), values[1..])
  }

  method RedactKnownValues(s: string, values: seq<string>) returns (out: string)
    ensures out == KnownValuePass(s, values)
  {
    out := s;
    assert values[0..] == values;
    for n := 0 to |values|
      invariant KnownValuePass(out, values[n..]) == KnownValuePass(s, values)
    {
      var value := Trim(values[n]);
      assert values[n..][1..] == values[n + 1..];
      if value == [] {
        continue;
      }
      out := Replace(out, value);
    }
  }

  /** Every piece that is cut is `w`, and no character is kept at which `w` could have been cut. */
  ghost predicate IsReplacement(ps: seq<Piece>, w: string) {
    forall i | 0 <= i < |ps| :: if ps[i].Cut? then ps[i].text == w else !(w <= Original(ps[i..]))
  }

  lemma ReplacementOfOneMore(p: Piece, ps: seq<Piece>, w: string)
    requires IsReplacement(ps, w)
    requires if p.Cut? then p.text == w else !(w <= Original([p] + ps))
    ensures IsReplacement([p] + ps, w) && ([p] + ps)[1..] == ps
  {
    var qs := [p] + ps;
    forall i | 0 <= i < |qs|
      ensures if qs[i].Cut? then qs[i].text == w else !(w <= Original(qs[i..]))
    {
      if i == 0 {
        assert qs[0..] == qs;
      } else {
        assert qs[i..] == ps[i - 1..];
      }
    }
  }

  /** All occurrences found from the left are replaced, and nothing else is. */
  lemma {:induction false} ReplaceIsFromLeft(s: string, w: string) returns (ps: seq<Piece>)
    requires w != []
    ensures Original(ps) == s && Redacted(ps) == Replace(s, w) && IsReplacement(ps, w)
    decreases |s|
  {
    if s == [] {
      ps := [];
    } else if w <= s {
      ps := ReplaceIsFromLeft(s[|w|..], w);
      assert w + s[|w|..] == s;
      ReplacementOfOneMore(Cut(w), ps, w);
      ps := [Cut(w)] + ps;
    } else {
      ps := ReplaceIsFromLeft(s[1..], w);
      assert [s[0]] + s[1..] == s;
      var qs := [Keep(s[0])] + ps;
      assert qs[1..] == ps && Original(qs) == s;
      ReplacementOfOneMore(Keep(s[0]), ps, w);
      ReplaceCopies(s, w);
      ps := qs;
    }
  }

  lemma {:induction false} ReplaceCopies(s: string, w: string)
    requires w != [] && s != [] && !(w <= s)
    ensures Replace(s, w) == [s[0]] + Replace(s[1..], w)
  {
    if |s| < |w| {
      assert Replace(s[1..], w) == s[1..];
      assert [s[0]] + s[1..] == s;
    }
  }

  /** The values are replaced in turn, each in what the ones before it left. */
  lemma {:induction false} ValuesInTurn(s: string, values: seq<string>, v: string)
    ensures KnownValuePass(s, []) == s
    ensures var o := KnownValuePass(s, values);
      KnownValuePass(s, values + [v]) == if Trim(v) == [] then o else Replace(o, Trim(v))
    decreases |values|
  {
    hide Trim, Replace;
    var all := values + [v];
    if values == [] {
      assert all[1..] == [];
    } else {
      assert all[1..] == values[1..] + [v];
      ValuesInTurn(RedactValue(s, values[0]), values[1..], v);
    }
  }

  lemma {:induction false} ReplaceRedacts(s: string, w: string)
    requires w != []
    ensures IsRedaction(s, Replace(s, w))
    decreases |s|
  {
    if |s| < |w| {
      NothingIsCut();
      KeepAll(s, [], []);
      assert s + [] == s;
    } else if w <= s {
      ReplaceRedacts(s[|w|..], w);
      CutOne(w, s[|w|..], Replace(s[|w|..], w));
      assert w + s[|w|..] == s;
    } else {
      ReplaceRedacts(s[1..], w);
      KeepOne(s[0], s[1..], Replace(s[1..], w));
      assert [s[0]] + s[1..] == s;
    }
  }

  lemma FrontOccurs(s: string, w: string)
    requires w != [] && ClearOfMarker(w) && IsRedaction(s, Replace(s, w)) && w <= Replace(s, w)
    ensures w <= s
  {
    var ps :| Original(ps) == s && Redacted(ps) == Replace(s, w);
    assert w[0..] == w;
    ClearFront(ps, w, 0);
  }

  /** Replacing a value that is clear of the marker leaves no occurrence of it. */
  lemma {:induction false} ReplaceLeavesNone(s: string, w: string, p: nat)
    requires w != [] && ClearOfMarker(w) && p <= |Replace(s, w)|
    ensures !(w <= Replace(s, w)[p..])
    decreases |s|
  {
    var o := Replace(s, w);
    if w <= o[p..] && |s| >= |w| {
      ReplaceRedacts(s, w);
      assert o[0..] == o;
      if w <= s {
        var o' := Replace(s[|w|..], w);
        assert o == MARKER + o';
        if p < 10 {
          assert MARKER <= o;
          MarkerMeets(w, 0 - p, o);
        } else {
          assert o[p..] == o'[p - 10..];
          ReplaceLeavesNone(s[|w|..], w, p - 10);
        }
      } else if p == 0 {
        FrontOccurs(s, w);
      } else {
        assert o[1..] == Replace(s[1..], w) && o[p..] == o[1..][p - 1..];
        ReplaceLeavesNone(s[1..], w, p - 1);
      }
    }
  }

  /** Replacing other values keeps a clear text away. */
  lemma {:induction false} AbsentStaysAbsent(s: string, values: seq<string>, w: string)
    requires w != [] && ClearOfMarker(w) && !Contains(s, w)
    ensures !Contains(KnownValuePass(s, values), w)
    decreases |values|
  {
    if values != [] {
      var v := Trim(values[0]);
      if v != [] {
        ReplaceRedacts(s, v);
        RedactionCreatesNothing(s, Replace(s, v), w);
      }
      AbsentStaysAbsent(RedactValue(s, values[0]), values[1..], w);
    }
  }

  lemma {:induction false} ListedIsGone(s: string, values: seq<string>, v: string)
    requires v in values && Trim(v) != [] && ClearOfMarker(Trim(v))
    ensures !Contains(KnownValuePass(s, values), Trim(v))
    decreases |values|
  {
    if values[0] == v {
      forall p | 0 <= p <= |Replace(s, Trim(v))|
        ensures !(Trim(v) <= Replace(s, Trim(v))[p..])
      {
        ReplaceLeavesNone(s, Trim(v), p);
      }
      AbsentStaysAbsent(Replace(s, Trim(v)), values[1..], Trim(v));
    } else {
      ListedIsGone(RedactValue(s, values[0]), values[1..], v);
    }
  }

  // ---- the condition is exact --------------------------------------------------------

  /** A stretch of one character that no occurrence of `w` can reach into. */
  function Filler(w: string, before: string): (c: char)
    requires w != []
    ensures c != w[0] && c != w[|w| - 1] && !IsWhiteSpace(c)
    ensures before != [] ==> c != before[|before| - 1]
  {
    var free := (c: char) => c != w[0] && c != w[|w| - 1] && (before != [] ==> c != before[|before| - 1]);
    if free('0') then '0' else if free('1') then '1' else if free('2') then '2' else '3'
  }

  function Repeat(c: char, n: nat): (s: string)
    ensures |s| == n && forall i | 0 <= i < n :: s[i] == c
  {
    seq(n, i => c)
  }

  lemma TrimKeeps(u: string)
    requires u != [] && !IsWhiteSpace(u[0]) && !IsWhiteSpace(u[|u| - 1])
    ensures Trim(u) == u
  {
  }

  lemma {:induction false} ReplaceNothing(s: string, w: string)
    requires w != [] && forall p | 0 <= p <= |s| :: !(w <= s[p..])
    ensures Replace(s, w) == s
    decreases |s|
  {
    if |s| >= |w| {
      assert s[0..] == s;
      forall p | 0 <= p <= |s[1..]|
        ensures !(w <= s[1..][p..])
      {
        assert s[1..][p..] == s[p + 1..];
      }
      ReplaceNothing(s[1..], w);
      assert [s[0]] + s[1..] == s;
    }
  }

  lemma Misfit(w: string, s: string, p: nat, i: nat)
    requires i < |w| && p + i < |s| && w[i] != s[p + i]
    ensures !(w <= s[p..])
  {
    assert s[p..][i] == s[p + i];
  }

  /** A filler between `x` and `y` is the one stretch that its own replacement hits. */
  lemma {:induction false} ReplaceFiller(x: string, u: string, y: string)
    requires u != [] && |x| < |u| && |y| < |u| && (x != [] ==> x[|x| - 1] !in u)
    ensures Replace(x + (u + y), u) == x + (MARKER + y)
    decreases |x|
  {
    hide Replace;
    var s := x + (u + y);
    if x == [] {
      assert s == u + y && s[|u|..] == y;
      ReplaceHere(s, u);
      ReplaceTooShort(y, u);
      assert x + (MARKER + y) == MARKER + y;
    } else {
      FillerIsLater(x, u, y);
      ReplaceThere(s, u);
      assert s[1..] == x[1..] + (u + y) && s[0] == x[0];
      ReplaceFiller(x[1..], u, y);
      EmittedOne(x + (MARKER + y), x[1..] + (MARKER + y), [x[0]], x[1..], MARKER + y);
    }
  }

  lemma ReplaceHere(s: string, u: string)
    requires u != [] && u <= s
    ensures Replace(s, u) == MARKER + Replace(s[|u|..], u)
  {
  }

  lemma ReplaceThere(s: string, u: string)
    requires u != [] && !(u <= s) && |u| <= |s|
    ensures Replace(s, u) == [s[0]] + Replace(s[1..], u)
  {
  }

  lemma ReplaceTooShort(s: string, u: string)
    requires |s| < |u|
    ensures Replace(s, u) == s
  {
  }

  lemma FillerIsLater(x: string, u: string, y: string)
    requires x != [] && |x| < |u| && x[|x| - 1] !in u
    ensures !(u <= x + (u + y))
  {
    var s := x + (u + y);
    assert s[|x| - 1] == x[|x| - 1] && u[|x| - 1] in u;
    Misfit(u, s, 0, |x| - 1);
    assert s[0..] == s;
  }

  /** No occurrence of `w` fits around a filler that is longer than it. */
  lemma NoneAroundFiller(w: string, x: string, c: char, y: string, p: nat)
    requires w != [] && |x| < |w| && |y| < |w| && c != w[0] && c != w[|w| - 1]
    requires p <= |x + (Repeat(c, |w| + 1) + y)|
    ensures !(w <= (x + (Repeat(c, |w| + 1) + y))[p..])
  {
    var n := |w| + 1;
    var s := x + (Repeat(c, n) + y);
    assert forall i | |x| <= i < |x| + n :: s[i] == c;
    if |x| <= p < |x| + n {
      Misfit(w, s, p, 0);
    } else if |x| < p + |w| <= |x| + n {
      Misfit(w, s, p, |w| - 1);
    }
  }

  lemma SecondOnly(s: string, v: string, u: string)
    requires Trim(v) != [] && Replace(s, Trim(v)) == s && u != [] && Trim(u) == u
    ensures KnownValuePass(s, [v, u]) == Replace(s, u)
  {
    hide Trim, Replace;
    var two, one := [v, u], [u];
    assert two[1..] == one && one[1..] == [];
    assert KnownValuePass(s, two) == KnownValuePass(RedactValue(s, v), one);
    assert KnownValuePass(s, one) == KnownValuePass(RedactValue(s, u), []);
  }

  /** A text that meets the marker comes back when a later value is replaced between its halves. */
  lemma OverlapComesBack(v: string, d: int) returns (s: string, values: seq<string>)
    requires var w := Trim(v); w != [] && -|w| < d < |MARKER| && Overlaps(w, d)
    ensures v in values && Contains(KnownValuePass(s, values), Trim(v))
  {
    hide Trim, Replace, KnownValuePass, IsWhiteSpace, Overlaps;
    var w := Trim(v);
    var a: nat := if d < 0 then 0 - d else 0;
    var x, y := w[..a], if |w| + d > 10 then w[10 - d..] else [];
    var c := Filler(w, x);
    var u := Repeat(c, |w| + 1);
    s, values := x + (u + y), [v, u];
    forall p | 0 <= p <= |s|
      ensures !(w <= s[p..])
    {
      NoneAroundFiller(w, x, c, y, p);
    }
    ReplaceNothing(s, w);
    TrimKeeps(u);
    ReplaceFiller(x, u, y);
    SecondOnly(s, v, u);
    Rejoined(w, d, x, y);
  }

  lemma Rejoined(w: string, d: int, x: string, y: string)
    requires -|w| < d < |MARKER| && Overlaps(w, d)
    requires x == w[..if d < 0 then 0 - d else 0] && y == if |w| + d > 10 then w[10 - d..] else []
    ensures Contains(x + (MARKER + y), w)
  {
    var o := x + (MARKER + y);
    var p: nat := if d < 0 then 0 else d;
    forall i | 0 <= i < |w|
      ensures p + i < |o| && o[p + i] == w[i]
    {
      RejoinedAt(w, d, x, y, i);
    }
    IsAt(w, o, p);
  }

  lemma RejoinedAt(w: string, d: int, x: string, y: string, i: nat)
    requires -|w| < d < |MARKER| && Overlaps(w, d) && i < |w|
    requires x == w[..if d < 0 then 0 - d else 0] && y == if |w| + d > 10 then w[10 - d..] else []
    ensures var o, p := x + (MARKER + y), if d < 0 then 0 else d; p + i < |o| && o[p + i] == w[i]
  {
    if 0 <= i + d < |MARKER| {
      assert w[i] == MARKER[i + d];
    }
  }

  lemma IsAt(w: string, o: string, p: nat)
    requires p + |w| <= |o| && forall i | 0 <= i < |w| :: o[p + i] == w[i]
    ensures Contains(o, w)
  {
    assert w <= o[p..];
  }

  /** Whatever the text and the other values, no occurrence of the value is left. */
  ghost predicate NeverLeft(v: string) {
    forall s, values :: v in values ==> !Contains(KnownValuePass(s, values), Trim(v))
  }

  /** A value never comes back exactly when its trimmed form cannot overlap the marker. */
  lemma ListedIsGoneExactly(v: string)
    requires Trim(v) != []
    ensures NeverLeft(v) <==> ClearOfMarker(Trim(v))
  {
    hide KnownValuePass, Trim, Contains, Overlaps;
    if ClearOfMarker(Trim(v)) {
      forall s, values | v in values
        ensures !Contains(KnownValuePass(s, values), Trim(v))
      {
        ListedIsGone(s, values, v);
      }
    } else {
      var d :| -|Trim(v)| < d < |MARKER| && Overlaps(Trim(v), d);
      var s, values := OverlapComesBack(v, d);
    }
  }
}
