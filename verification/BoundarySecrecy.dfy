/** Non-interference of the credential and the link pass: their outputs do not depend on what they mask. */
module BoundarySecrecy {
  import opened Text
  import opened Redaction
  import opened KeyValues
  import opened KeyValueLaws
  import opened BoundaryPasses
  import opened BoundaryLaws

  /** How far the scan moves on in one step. */
  function PassStepEnd(kind: Kind, before: bool, t: string): (e: nat)
    requires t != []
    ensures 0 < e <= |t|
  {
    if before && Trigger(kind, t) > 0 then
      StepAdvances(kind, t);
      Kept(kind, t) + Dropped(kind, t)
    else 1
  }

  /** The scan of `t` comes to stand at position `n`. */
  ghost predicate PassStandsAt(kind: Kind, before: bool, t: string, n: nat)
    decreases |t|
  {
    n == 0 ||
    (t != [] &&
    var e := PassStepEnd(kind, before, t);
    e <= n && PassStandsAt(kind, BoundaryAt(before, t, e), t[e..], n - e))
  }

  lemma PassScanStep(kind: Kind, before: bool, t: string, n: nat)
    requires PassStandsAt(kind, before, t, n) && n > 0
    ensures t != []
    ensures var e := PassStepEnd(kind, before, t);
      e <= n && PassStandsAt(kind, BoundaryAt(before, t, e), t[e..], n - e)
  {
  }

  // ---- the same steps in front of the same kind of trigger ---------------------------

  /** A trigger word has its first character nowhere else. */
  lemma StartsOnce(kind: Kind, t: string, i: nat)
    requires 0 < i < Trigger(kind, t)
    ensures !Starts(kind, t[i])
  {
    var basic, bearer, http, https := "basic ", "bearer ", "http://", "https://";
    assert |basic| == 6 && |bearer| == 7 && |http| == 7 && |https| == 8;
    assert forall k | 0 < k < 6 :: basic[k] != 'b';
    assert forall k | 0 < k < 7 :: bearer[k] != 'b' && http[k] != 'h';
    assert forall k | 0 < k < 8 :: https[k] != 'h';
  }

  /** A trigger word at the front of `p + x` lies in `p`, so it is there whatever follows `p`. */
  lemma TriggerInPrefix(kind: Kind, p: string, x: string, y: string)
    requires p != [] && x != [] && Starts(kind, x[0]) && Trigger(kind, p + x) > 0
    ensures Trigger(kind, p + x) <= |p|
    ensures Trigger(kind, p + y) > 0 && Kept(kind, p + y) == Kept(kind, p + x) <= |p|
  {
    hide Trigger, Kept, Starts;
    var t, u := p + x, p + y;
    var n := Trigger(kind, t);
    if |p| < n {
      StartsOnce(kind, t, |p|);
    }
    TriggerIsAngleFree(kind, t);
    var w := p[..n];
    assert t[..n] == w && t == w + t[n..] && u == w + u[n..];
    TriggerInFront(kind, w, t[n..]);
    TriggerInFront(kind, w, u[n..]);
    KeptIs(kind, t);
    KeptIs(kind, u);
    KeptIs(kind, w);
  }

  lemma KeptIs(kind: Kind, t: string)
    ensures Kept(kind, t) == if kind.Credentials? then Trigger(kind, t) else 0
  {
  }

  lemma DroppedInPrefix(kind: Kind, p: string, x: string, y: string)
    requires x != [] && Starts(kind, x[0])
    requires Kept(kind, p + x) == Kept(kind, p + y) && Kept(kind, p + x) + Dropped(kind, p + x) <= |p|
    ensures Dropped(kind, p + y) == Dropped(kind, p + x)
  {
    hide Kept, Run, Starts;
    var t, u := p + x, p + y;
    var k, n := Kept(kind, t), Dropped(kind, t);
    TailEnds(kind, t);
    if k + n == |p| {
      assert Tail(kind, t) == x;
      EndStarts(kind, x);
    }
    var v, w := t[k..], u[k..];
    assert forall i | 0 <= i <= n :: v[i] == p[k + i] == w[i];
    RunIs(Masks(kind), w, n);
  }

  /** A step that ends in `p` is the same step in front of `x` and in front of `y`. */
  lemma SharedStep(kind: Kind, before: bool, p: string, x: string, y: string) returns (q: string)
    requires p != [] && x != [] && y != [] && Starts(kind, x[0]) && Starts(kind, y[0])
    requires PassStepEnd(kind, before, p + x) <= |p|
    ensures var e := PassStepEnd(kind, before, p + x);
      && Pass(kind, before, p + x) == q + Pass(kind, BoundaryAt(before, p, e), p[e..] + x)
      && Pass(kind, before, p + y) == q + Pass(kind, BoundaryAt(before, p, e), p[e..] + y)
  {
    hide *;
    if before && Trigger(kind, p + x) > 0 {
      TriggerInPrefix(kind, p, x, y);
      StepEndIs(kind, p + x);
      DroppedInPrefix(kind, p, x, y);
      MatchStep(kind, p + x);
      MatchStep(kind, p + y);
      var k, n := Kept(kind, p + x), Dropped(kind, p + x);
      q := p[..k] + MaskOf(n);
      PrefixParts(before, p, x, k, k + n);
      PrefixParts(before, p, y, k, k + n);
    } else {
      if before && Trigger(kind, p + y) > 0 {
        TriggerInPrefix(kind, p, y, x);
      }
      CopyEndIs(kind, before, p + x);
      PassStep(kind, before, p + x);
      PassStep(kind, before, p + y);
      q := [p[0]];
      PrefixParts(before, p, x, 0, 1);
      PrefixParts(before, p, y, 0, 1);
    }
  }

  lemma StepEndIs(kind: Kind, t: string)
    requires t != [] && Trigger(kind, t) > 0
    ensures PassStepEnd(kind, true, t) == Kept(kind, t) + Dropped(kind, t)
  {
  }

  lemma CopyEndIs(kind: Kind, before: bool, t: string)
    requires t != [] && !(before && Trigger(kind, t) > 0)
    ensures PassStepEnd(kind, before, t) == 1
  {
  }

  lemma PrefixParts(before: bool, p: string, x: string, k: nat, e: nat)
    requires k <= e <= |p| && 0 < e
    ensures (p + x)[..k] == p[..k] && (p + x)[e..] == p[e..] + x && (p + x)[0] == p[0]
    ensures BoundaryAt(true, p + x, e) == BoundaryAt(before, p, e)
    ensures BoundaryAt(before, p + x, e) == BoundaryAt(before, p, e)
    ensures BoundaryAt(BoundaryAt(before, p, e), p[e..], |p| - e) == BoundaryAt(before, p, |p|)
  {
  }

  /** Up to where the scan stands in front of them, `x` and `y` make no difference. */
  lemma {:induction false} SharedPass(kind: Kind, before: bool, p: string, x: string, y: string) returns (q: string)
    requires x != [] && y != [] && Starts(kind, x[0]) && Starts(kind, y[0])
    requires PassStandsAt(kind, before, p + x, |p|)
    ensures Pass(kind, before, p + x) == q + Pass(kind, BoundaryAt(before, p, |p|), x)
    ensures Pass(kind, before, p + y) == q + Pass(kind, BoundaryAt(before, p, |p|), y)
    decreases |p|
  {
    hide *;
    if p == [] {
      q := [];
      BoundaryOfNothing(before);
      assert p + x == x && p + y == y;
    } else {
      PassScanStep(kind, before, p + x, |p|);
      var e := PassStepEnd(kind, before, p + x);
      var step := SharedStep(kind, before, p, x, y);
      PrefixParts(before, p, x, 0, e);
      var rest := SharedPass(kind, BoundaryAt(before, p, e), p[e..], x, y);
      q := step + rest;
      Appended(step, rest, Pass(kind, BoundaryAt(before, p, |p|), x));
      Appended(step, rest, Pass(kind, BoundaryAt(before, p, |p|), y));
    }
  }

  lemma BoundaryOfNothing(before: bool)
    ensures BoundaryAt(before, [], 0) == before
  {
  }

  lemma Appended(a: string, b: string, c: string)
    ensures a + (b + c) == a + b + c
  {
  }

  // ---- what is masked does not show -----------------------------------------------------

  /** Non-empty text that the pass masks behind a scheme. */
  predicate IsCredential(v: string) { v != [] && forall i | 0 <= i < |v| :: Is(ValueChar, v[i]) }

  /** A whole link. */
  predicate IsLink(v: string) { LinkLen(v) > 0 && forall i | 0 <= i < |v| :: Is(UrlChar, v[i]) }

  lemma CredentialParts(scheme: string, v: string, r: string)
    requires SchemeLen(scheme) == |scheme| > 0 && IsCredential(v) && Ends(Credentials, r)
    ensures var t := scheme + (v + r);
      && SchemeLen(t) == |scheme| && Dropped(Credentials, t) == |v| && Tail(Credentials, t) == r
      && t[..|scheme|] == scheme && Trigger(Credentials, t) > 0
  {
    hide SchemeLen, Run;
    var t := scheme + (v + r);
    TriggerInFront(Credentials, scheme, v + r);
    assert t[|scheme|..] == v + r;
    RunIs(ValueChar, v + r, |v|);
  }

  lemma CredentialIsMasked(scheme: string, v: string, r: string)
    requires SchemeLen(scheme) == |scheme| > 0 && IsCredential(v) && Ends(Credentials, r)
    ensures Pass(Credentials, true, scheme + (v + r)) == scheme + MARKER + Pass(Credentials, true, r)
  {
    hide Pass, SchemeLen, Run, Dropped, Tail, TailBoundary, Trigger, Ends;
    var t := scheme + (v + r);
    CredentialParts(scheme, v, r);
    SchemeStep(t);
    EndLooksNotBack(Credentials, TailBoundary(Credentials, t), true, r);
  }

  lemma LinkIsMasked(v: string, r: string)
    requires IsLink(v) && Ends(Links, r)
    ensures Pass(Links, true, v + r) == MARKER + Pass(Links, true, r)
  {
    hide Pass, LinkLen, Run;
    var t := v + r;
    TriggerInFront(Links, v, r);
    assert t[0..] == t;
    RunIs(UrlChar, t, |v|);
    LinkStep(t);
    assert Tail(Links, t) == r;
    EndLooksNotBack(Links, TailBoundary(Links, t), true, r);
  }

  /** Behind one scheme, any two non-empty credentials give the same output in every context. */
  lemma SchemeValuesDoNotShow(p: string, scheme: string, v: string, w: string, r: string)
    requires SchemeLen(scheme) == |scheme| > 0 && IsCredential(v) && IsCredential(w) && Ends(Credentials, r)
    requires PassStandsAt(Credentials, true, p + (scheme + (v + r)), |p|) && BoundaryAt(true, p, |p|)
    ensures Pass(Credentials, true, p + (scheme + (v + r))) == Pass(Credentials, true, p + (scheme + (w + r)))
  {
    hide *;
    SchemeStarts(scheme, v + r);
    SchemeStarts(scheme, w + r);
    var q := SharedPass(Credentials, true, p, scheme + (v + r), scheme + (w + r));
    CredentialIsMasked(scheme, v, r);
    CredentialIsMasked(scheme, w, r);
  }

  lemma SchemeStarts(scheme: string, x: string)
    requires SchemeLen(scheme) > 0
    ensures scheme + x != [] && Starts(Credentials, (scheme + x)[0])
  {
  }

  /** In front of the same text, any two links give the same output in every context. */
  lemma LinksDoNotShow(p: string, v: string, w: string, r: string)
    requires IsLink(v) && IsLink(w) && Ends(Links, r)
    requires PassStandsAt(Links, true, p + (v + r), |p|) && BoundaryAt(true, p, |p|)
    ensures Pass(Links, true, p + (v + r)) == Pass(Links, true, p + (w + r))
  {
    hide *;
    LinkStarts(v, r);
    LinkStarts(w, r);
    var q := SharedPass(Links, true, p, v + r, w + r);
    LinkIsMasked(v, r);
    LinkIsMasked(w, r);
  }

  lemma LinkStarts(v: string, x: string)
    requires IsLink(v)
    ensures v + x != [] && Starts(Links, (v + x)[0])
  {
  }
}
