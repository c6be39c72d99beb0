/**
 * The two passes that mask what follows a trigger word at a word boundary: the
 * credentials behind a `Basic ` or `Bearer ` scheme, and whole http and https links.
 */
module BoundaryPasses {
  import opened Text
  import opened Redaction
  import opened KeyValues

  datatype Kind = Credentials | Links

  /** The class of characters that such a pass masks. */
  function Masks(kind: Kind): CharClass {
    match kind case Credentials => ValueChar case Links => UrlChar
  }

  /** The length of an http or https scheme at the front of `t`, or zero. */
  function LinkLen(t: string): (n: nat)
    ensures n <= |t|
  {
    if StartsWithIgnoreCase(t, "https://") then 8
    else if StartsWithIgnoreCase(t, "http://") then 7
    else 0
  }

  /** The length of the trigger word at the front of `t`, or zero. */
  function Trigger(kind: Kind, t: string): (n: nat)
    ensures n <= |t|
  {
    match kind case Credentials => SchemeLen(t) case Links => LinkLen(t)
  }

  /** How much of the trigger word stays: a scheme does, a link is masked as a whole. */
  function Kept(kind: Kind, t: string): (n: nat)
    ensures n <= Trigger(kind, t)
  {
    match kind case Credentials => SchemeLen(t) case Links => 0
  }

  /** How much behind that is masked. */
  function Dropped(kind: Kind, t: string): (n: nat)
    ensures Kept(kind, t) + n <= |t|
  {
    Run(Masks(kind), t[Kept(kind, t)..])
  }

  function MaskOf(n: nat): (m: string)
    ensures m == "" || m == MARKER
  {
    if n > 0 then MARKER else ""
  }

  lemma StepAdvances(kind: Kind, t: string)
    requires Trigger(kind, t) > 0
    ensures Kept(kind, t) + Dropped(kind, t) > 0
    ensures kind.Links? ==> Dropped(kind, t) > 0
  {
    if kind.Links? {
      assert t[0..] == t && Lower(t[0]) == 'h';
    }
  }

  /** The output of the pass for the text `t` that is still to scan. */
  function Pass(kind: Kind, before: bool, t: string): string
    decreases |t|
  {
    if t == [] then []
    else if before && Trigger(kind, t) > 0 then
      StepAdvances(kind, t);
      var k, n := Kept(kind, t), Dropped(kind, t);
      t[..k] + MaskOf(n) + Pass(kind, BoundaryAt(true, t, k + n), t[k + n..])
    else
      [t[0]] + Pass(kind, BoundaryAt(true, t, 1), t[1..])
  }

  lemma MatchStep(kind: Kind, t: string)
    requires Trigger(kind, t) > 0
    ensures var k, n := Kept(kind, t), Dropped(kind, t);
      && 0 < k + n <= |t|
      && Pass(kind, true, t) == t[..k] + MaskOf(n) + Pass(kind, BoundaryAt(true, t, k + n), t[k + n..])
  {
    hide Run, SchemeLen, LinkLen;
    StepAdvances(kind, t);
  }

  lemma PassStep(kind: Kind, before: bool, t: string)
    requires t != [] && !(before && Trigger(kind, t) > 0)
    ensures Pass(kind, before, t) == [t[0]] + Pass(kind, BoundaryAt(true, t, 1), t[1..])
  {
    hide Run, SchemeLen, LinkLen;
  }

  // ---- the loops of the original ----------------------------------------------

  lemma DroppedIs(kind: Kind, s: string, i: nat, k: nat)
    requires i <= |s| && k == i + Kept(kind, s[i..]) && k <= |s|
    ensures Dropped(kind, s[i..]) == Run(Masks(kind), s[k..])
  {
    hide Run, Kept;
    Suffixes(s, i, k, Kept(kind, s[i..]));
  }

  lemma MatchAdvances(kind: Kind, s: string, i: nat, k: nat, n: nat, out: string)
    requires i < |s| && BoundaryAt(true, s, i) && Trigger(kind, s[i..]) > 0
    requires k == i + Kept(kind, s[i..]) && k <= |s| && n == Run(Masks(kind), s[k..])
    requires out + Pass(kind, BoundaryAt(true, s, i), s[i..]) == Pass(kind, true, s)
    ensures i < k + n <= |s|
    ensures out + s[i..k] + MaskOf(n) + Pass(kind, BoundaryAt(true, s, k + n), s[k + n..]) == Pass(kind, true, s)
  {
    hide *;
    var t := s[i..];
    var k' := Kept(kind, t);
    DroppedIs(kind, s, i, k);
    MatchStep(kind, t);
    Suffixes(s, i, k + n, k' + n);
    BoundaryInSuffix(s, i, k + n, k' + n);
    Slice(s, i, k, k');
    var z := Pass(kind, BoundaryAt(true, t, k' + n), t[k' + n..]);
    Emitted(Pass(kind, true, s), Pass(kind, true, t), out, t[..k'], MaskOf(n), z);
  }

  lemma BoundaryInSuffix(s: string, i: nat, e: nat, n: nat)
    requires i < e <= |s| && i + n == e
    ensures BoundaryAt(true, s[i..], n) == BoundaryAt(true, s, e)
  {
  }

  lemma CopyAdvances(kind: Kind, s: string, i: nat, out: string)
    requires i < |s| && !(BoundaryAt(true, s, i) && Trigger(kind, s[i..]) > 0)
    requires out + Pass(kind, BoundaryAt(true, s, i), s[i..]) == Pass(kind, true, s)
    ensures out + [s[i]] + Pass(kind, BoundaryAt(true, s, i + 1), s[i + 1..]) == Pass(kind, true, s)
  {
    PassStep(kind, BoundaryAt(true, s, i), s[i..]);
    BoundaryInSuffix(s, i, i + 1, 1);
    hide *;
    Suffixes(s, i, i + 1, 1);
    EmittedOne(Pass(kind, true, s), Pass(kind, BoundaryAt(true, s, i), s[i..]), out, [s[i]],
      Pass(kind, BoundaryAt(true, s, i + 1), s[i + 1..]));
  }

  lemma Started(kind: Kind, s: string)
    ensures "" + Pass(kind, BoundaryAt(true, s, 0), s[0..]) == Pass(kind, true, s)
  {
    assert s[0..] == s;
  }

  lemma Finished(kind: Kind, s: string, out: string)
    ensures out + Pass(kind, BoundaryAt(true, s, |s|), s[|s|..]) == out
  {
  }

  method RedactAuthorizationSchemes(s: string) returns (out: string)
    ensures out == Pass(Credentials, true, s)
  {
    hide Pass, Run, SchemeLen, BoundaryAt;
    out := "";
    var i := 0;
    Started(Credentials, s);
    while i < |s|
      invariant 0 <= i <= |s|
      invariant out + Pass(Credentials, BoundaryAt(true, s, i), s[i..]) == Pass(Credentials, true, s)
    {
      var schemeLen := AuthSchemeAt(s, i);
      if schemeLen > 0 {
        var valueStart := i + schemeLen;
        var valueEnd := RunEnd(ValueChar, s, valueStart);
        MatchAdvances(Credentials, s, i, valueStart, valueEnd - valueStart, out);
        out := out + s[i..valueStart];
        if valueEnd > valueStart {
          out := out + MARKER;
        }
        i := valueEnd;
      } else {
        CopyAdvances(Credentials, s, i, out);
        out := out + [s[i]];
        i := i + 1;
      }
    }
    Finished(Credentials, s, out);
  }

  method RedactUrls(s: string) returns (out: string)
    ensures out == Pass(Links, true, s)
  {
    hide Pass, Run, LinkLen, BoundaryAt;
    out := "";
    var i := 0;
    Started(Links, s);
    while i < |s|
      invariant 0 <= i <= |s|
      invariant out + Pass(Links, BoundaryAt(true, s, i), s[i..]) == Pass(Links, true, s)
    {
      if BoundaryAt(true, s, i) && LinkLen(s[i..]) > 0 {
        var urlEnd := RunEnd(UrlChar, s, i);
        MatchAdvances(Links, s, i, i, urlEnd - i, out);
        StepAdvances(Links, s[i..]);
        assert s[i..][0..] == s[i..] && out + s[i..i] == out;
        out := out + MARKER;
        i := urlEnd;
      } else {
        CopyAdvances(Links, s, i, out);
        out := out + [s[i]];
        i := i + 1;
      }
    }
    Finished(Links, s, out);
  }
}
