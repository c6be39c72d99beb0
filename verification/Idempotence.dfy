/** Exactly when sanitizing a text a second time changes nothing. */
module Idempotence {
  import opened Text
  import opened Redaction
  import opened KnownValues
  import opened KeyValues
  import opened KeyValueLaws
  import opened KeyValueTheorems
  import opened KeyValueSecrecy
  import opened KeyValueFixpoints
  import opened BoundaryPasses
  import opened BoundaryLaws
  import opened BoundaryTheorems
  import opened Sanitizer

  // ---- up to the first key that is not masked ------------------------------------

  /** A step at whose front nothing is left to mask copies what it passes. */
  lemma MaskedStepCopies(t: string)
    requires t != [] && FrontIsMasked(t)
    ensures KeyValuePass(t) == t[..StepEnd(t)] + KeyValuePass(t[StepEnd(t)..])
  {
    hide *;
    if HeadLen(t) == 0 {
      CopyStep(t);
      OneStep(t);
    } else {
      MaskStep(t);
      MaskChanges(t);
      MaskedPart(t);
    }
  }

  lemma OneStep(t: string)
    requires t != [] && HeadLen(t) == 0
    ensures StepEnd(t) == 1 && t[..1] == [t[0]]
  {
  }

  lemma MaskedPart(t: string)
    requires HeadLen(t) > 0 && FrontIsMasked(t)
    ensures t[..ValueStart(t)] + Masked(ValueOf(t)) == t[..StepEnd(t)]
  {
    hide HeadLen, ValueStart, ValueOf, Masked, FrontIsMasked;
    MaskedExactly(t);
    var c, n := ValueStart(t), ValueOf(t).len;
    assert t[..c] + t[c..][..n] == t[..c + n];
  }

  /** Up to the first scanned key whose value is not the marker, the pass copies. */
  lemma {:induction false} FirstUnmasked(t: string) returns (p: nat)
    requires !ScannedKeysAreMasked(t)
    ensures p < |t| && HeadLen(t[p..]) > 0 && !FrontIsMasked(t[p..])
    ensures KeyValuePass(t) == t[..p] + KeyValuePass(t[p..])
    decreases |t|
  {
    hide *;
    if t == [] {
      Nothing();
    }
    ScannedInSteps(t);
    if !FrontIsMasked(t) {
      p := 0;
      UnmaskedHasHead(t);
      assert t[0..] == t && t[..0] == [];
    } else {
      var e := StepEnd(t);
      StepIsForward(t);
      MaskedStepCopies(t);
      var q := FirstUnmasked(t[e..]);
      p := e + q;
      Suffixes(t, e, p, q);
      Joined(t, e, q, KeyValuePass(t[p..]));
    }
  }

  lemma UnmaskedHasHead(t: string)
    ensures !FrontIsMasked(t) ==> HeadLen(t) > 0
  {
  }

  lemma Joined(t: string, e: nat, q: nat, z: string)
    requires e + q <= |t|
    ensures t[..e] + (t[e..][..q] + z) == t[..e + q] + z
  {
    assert t[..e] + t[e..][..q] == t[..e + q];
  }

  // ---- a clean prefix is copied ---------------------------------------------------

  /** `w` ends with a separator at `j` and blanks, as a head does. */
  predicate EndsInSeparator(w: string, j: nat) {
    j < |w| && IsSeparator(w[j]) && forall i | j < i < |w| :: IsSpace(w[i])
  }

  /** A mask opens with an angle or with a quote. */
  predicate OpensMask(y: string) { y != [] && (y[0] == '<' || y[0] == '"') }

  lemma TriggerChars(kind: Kind, t: string)
    ensures forall i | 0 <= i < Trigger(kind, t) :: t[i] != '<' && t[i] != '"'
    ensures kind.Credentials? ==> forall i | 0 <= i < Trigger(kind, t) :: !IsSeparator(t[i])
  {
    var basic, bearer, http, https := "basic ", "bearer ", "http://", "https://";
    assert forall i | 0 <= i < Trigger(kind, t) :: Lower(t[i]) != '<' && Lower(t[i]) != '"';
    assert kind.Credentials? ==> forall i | 0 <= i < Trigger(kind, t) :: Lower(t[i]) != ':' && Lower(t[i]) != '=';
  }

  /** A trigger word does not reach into a mask. */
  lemma TriggerStaysInside(kind: Kind, w: string, y: string)
    requires OpensMask(y) && Trigger(kind, w + y) > 0
    ensures Trigger(kind, w + y) <= |w| && Trigger(kind, w) == Trigger(kind, w + y)
  {
    hide Trigger;
    var t := w + y;
    var n := Trigger(kind, t);
    TriggerChars(kind, t);
    assert t[|w|] == y[0];
    assert n <= |w|;
    TriggerIsAngleFree(kind, t);
    assert t[..n] == w[..n];
    TriggerPrefix(kind, w, n);
  }

  lemma TriggerPrefix(kind: Kind, w: string, n: nat)
    requires 0 < n <= |w| && Trigger(kind, w[..n]) == n
    ensures Trigger(kind, w) == n
  {
    var v := w[..n];
    assert forall i | 0 <= i < n :: v[i] == w[i];
    var basic, bearer, http, https := "basic ", "bearer ", "http://", "https://";
    if kind.Credentials? {
      if n == 7 {
        assert Lower(w[1]) == bearer[1] && basic[1] == 'a';
      }
    } else if n == 7 {
      assert Lower(w[4]) == http[4] && https[4] == 's';
    }
  }

  lemma SeparatorBehind(v: string, x: string, i: nat)
    requires v in ["", MARKER] && v <= x && i < |x| && IsSeparator(x[i])
    ensures |v| <= i
  {
    assert forall k | 0 <= k < |v| :: x[k] == v[k] && !IsSeparator(v[k]);
  }

  /** The value behind a scheme in a clean text ends before the separator. */
  lemma SchemeEndsBefore(w: string, j: nat, u: string, y: string)
    requires EndsInSeparator(w, j) && SchemeLen(w) > 0 && FrontIsDone(Credentials, w + u)
    requires SchemeLen(w + u) == SchemeLen(w) && SchemeLen(w + y) == SchemeLen(w)
    ensures var k, n := SchemeLen(w), Dropped(Credentials, w + y);
      k + n <= j && MaskOf(n) == w[k..k + n]
  {
    hide Run, SchemeLen;
    TriggerChars(Credentials, w);
    var k, x, v := SchemeLen(w), (w + u)[SchemeLen(w)..], (w + y)[SchemeLen(w)..];
    var n := Run(ValueChar, x);
    assert k <= j;
    assert x[j - k] == w[j];
    assert Is(ValueChar, w[j]);
    var found := x[..n];
    SeparatorBehind(found, x, j - k);
    assert forall i | 0 <= i <= n :: x[i] == w[k + i] == v[i];
    RunIs(ValueChar, v, n);
    assert w[k..k + n] == x[..n];
  }

  /** One step of a pass over a clean prefix. */
  lemma CleanStep(kind: Kind, before: bool, w: string, j: nat, u: string, y: string) returns (e: nat)
    requires IsClean(kind, before, w + u) && EndsInSeparator(w, j) && 0 < j && OpensMask(y)
    ensures 0 < e <= j
    ensures Pass(kind, before, w + y) == w[..e] + Pass(kind, BoundaryAt(before, w, e), w[e..] + y)
  {
    hide *;
    var t := w + y;
    SeparatorInside(w, j);
    if before && Trigger(kind, t) > 0 {
      TriggerStaysInside(kind, w, y);
      TriggerInBoth(kind, w, u, y);
      CleanFront(kind, before, w + u);
      DoneIsScheme(kind, w + u);
      SchemeEndsBefore(w, j, u, y);
      var k, n := SchemeLen(w), Dropped(Credentials, t);
      e := k + n;
      MatchStep(Credentials, t);
      Copies(before, w, y, k, e, MaskOf(n));
    } else {
      e := 1;
      PassStep(kind, before, t);
      CopiesOne(before, w, y);
    }
  }

  lemma SeparatorInside(w: string, j: nat)
    requires EndsInSeparator(w, j)
    ensures j < |w|
  {
  }

  lemma TriggerInBoth(kind: Kind, w: string, u: string, y: string)
    requires Trigger(kind, w) > 0
    ensures Trigger(kind, w + u) == Trigger(kind, w) == Trigger(kind, w + y)
  {
    hide Trigger;
    var n := Trigger(kind, w);
    TriggerIsAngleFree(kind, w);
    assert (w + u)[..n] == w[..n] == (w + y)[..n];
    TriggerPrefix(kind, w + u, n);
    TriggerPrefix(kind, w + y, n);
  }

  lemma DoneIsScheme(kind: Kind, t: string)
    requires Trigger(kind, t) > 0 && FrontIsDone(kind, t)
    ensures kind.Credentials?
    ensures forall s :: Trigger(kind, s) == SchemeLen(s) == Kept(kind, s)
  {
  }

  lemma Copies(before: bool, w: string, y: string, k: nat, e: nat, m: string)
    requires 0 < e <= |w| && k <= e && m == w[k..e]
    ensures (w + y)[..k] + m == w[..e] && (w + y)[e..] == w[e..] + y
    ensures BoundaryAt(true, w + y, e) == BoundaryAt(before, w, e)
  {
  }

  lemma CopiesOne(before: bool, w: string, y: string)
    requires w != []
    ensures [(w + y)[0]] == w[..1] && (w + y)[1..] == w[1..] + y
    ensures BoundaryAt(true, w + y, 1) == BoundaryAt(before, w, 1)
  {
  }

  /**
   * In a text that a pass would not change, replacing all behind a head by a mask and
   * anything leaves the pass to copy up to there.
   */
  lemma {:induction false} CleanPrefixIsCopied(kind: Kind, before: bool, w: string, j: nat, u: string, y: string)
    requires IsClean(kind, before, w + u) && EndsInSeparator(w, j) && OpensMask(y)
    ensures Pass(kind, before, w + y) == w + Pass(kind, BoundaryAt(before, w, |w|), y)
    decreases |w|
  {
    hide *;
    if j == 0 {
      BlanksStartNothing(kind, w);
      WordIsCopied(kind, before, w, y);
    } else {
      var e := CleanStep(kind, before, w, j, u, y);
      SeparatorInside(w, j);
      CleanBehind(kind, before, w + u, e);
      Shortened(before, w, j, u, e);
      CleanPrefixIsCopied(kind, BoundaryAt(before, w, e), w[e..], j - e, u, y);
      var z := Pass(kind, BoundaryAt(before, w, |w|), y);
      assert w[..e] + (w[e..] + z) == w + z;
    }
  }

  lemma BlanksStartNothing(kind: Kind, w: string)
    requires EndsInSeparator(w, 0)
    ensures forall i | 0 <= i < |w| :: !Starts(kind, w[i])
  {
  }

  lemma Shortened(before: bool, w: string, j: nat, u: string, e: nat)
    requires EndsInSeparator(w, j) && 0 < e <= j
    ensures EndsInSeparator(w[e..], j - e) && |w[e..]| < |w|
    ensures (w + u)[e..] == w[e..] + u && BoundaryAt(before, w + u, e) == BoundaryAt(before, w, e)
    ensures BoundaryAt(BoundaryAt(before, w, e), w[e..], |w[e..]|) == BoundaryAt(before, w, |w|)
  {
  }

  // ---- the exact condition ---------------------------------------------------------

  lemma HeadEnds(t: string)
    requires HeadLen(t) > 0
    ensures IsSeparator(t[HeadLen(t) - 1])
    ensures forall i | HeadLen(t) <= i < ValueStart(t) :: IsSpace(t[i])
  {
    hide HeadLen, Run;
    var h, c := HeadLen(t), ValueStart(t);
    var q, k, b := HeadParts(t);
    forall i | h <= i < c
      ensures IsSpace(t[i])
    {
      assert t[i] == t[h..][i - h];
    }
  }

  lemma PrefixEnds(o: string, p: nat, h: nat, c: nat)
    requires p + c <= |o| && 0 < h <= c && IsSeparator(o[p..][h - 1])
    requires forall i | h <= i < c :: IsSpace(o[p..][i])
    ensures EndsInSeparator(o[..p + c], p + h - 1)
  {
    var w, t := o[..p + c], o[p..];
    assert w[p + h - 1] == t[h - 1];
    forall i | p + h - 1 < i < p + c
      ensures IsSpace(w[i])
    {
      assert w[i] == t[i - p];
    }
  }

  lemma Split(o: string, p: nat, c: nat)
    requires p <= |o| && c <= |o[p..]|
    ensures p + c <= |o| && o == o[..p + c] + o[p + c..] && o[p..][c..] == o[p + c..]
  {
  }

  /** The parts of a text at a key, up to its value and behind. */
  lemma HeadOfPrefix(o: string, p: nat)
    requires p < |o| && HeadLen(o[p..]) > 0
    ensures var e, j := p + ValueStart(o[p..]), p + HeadLen(o[p..]) - 1;
      e <= |o| && o == o[..e] + o[e..] && o[p..][ValueStart(o[p..])..] == o[e..] && EndsInSeparator(o[..e], j)
  {
    hide *;
    HeadEnds(o[p..]);
    Split(o, p, ValueStart(o[p..]));
    PrefixEnds(o, p, HeadLen(o[p..]), ValueStart(o[p..]));
  }

  /** The output of the key/value pass at such a key, around the mask. */
  lemma OutputAtKey(o: string, p: nat, t: string)
    requires p < |o| && t == o[p..] && HeadLen(t) > 0 && p + ValueStart(t) <= |o|
    requires KeyValuePass(o) == o[..p] + KeyValuePass(t)
    ensures KeyValuePass(o) == o[..p + ValueStart(t)] + (Masked(ValueOf(t)) + KeyValuePass(RestOf(t)))
  {
    hide *;
    var k, m, z := KeyValuePass(t), Masked(ValueOf(t)), KeyValuePass(RestOf(t));
    MaskStep(t);
    Regrouped(o, p, ValueStart(t), m, z, k, KeyValuePass(o));
  }

  lemma Regrouped(o: string, p: nat, c: nat, m: string, z: string, step: string, all: string)
    requires p + c <= |o| && step == o[p..][..c] + m + z && all == o[..p] + step
    ensures all == o[..p + c] + (m + z)
  {
    assert o[..p] + o[p..][..c] == o[..p + c];
  }

  lemma MaskOpens(v: Value, z: string)
    requires v.open in ["", "\""] && v.close in ["", "\""]
    ensures OpensMask(Masked(v) + z)
    ensures forall kind, i | 0 <= i < |Masked(v)| :: !Starts(kind, Masked(v)[i])
  {
  }

  /** What ends a bare value is copied. */
  lemma EndStays(kind: Kind, before: bool, z: string)
    requires z != [] ==> !Is(ValueChar, z[0])
    ensures AgreeTo(z, Pass(kind, before, z), 0)
  {
    hide Pass;
    OtherIsCopied(kind, before, z);
  }

  /** A clean prefix and a mask behind it are copied. */
  lemma MaskedPrefixIsCopied(kind: Kind, w: string, j: nat, u: string, v: Value, z: string) returns (b: bool)
    requires IsClean(kind, true, w + u) && EndsInSeparator(w, j)
    requires v.open in ["", "\""] && v.close in ["", "\""]
    ensures Pass(kind, true, w + (Masked(v) + z)) == w + (Masked(v) + Pass(kind, b, z))
  {
    hide *;
    MaskOpens(v, z);
    CleanPrefixIsCopied(kind, true, w, j, u, Masked(v) + z);
    var a := BoundaryAt(true, w, |w|);
    b := BoundaryAt(a, Masked(v), |Masked(v)|);
    WordIsCopied(kind, a, Masked(v), z);
  }

  lemma SanitizedEnds(v: Value, r: string, b: bool, b': bool)
    requires v.close == "" ==> r == [] || !Is(ValueChar, r[0])
    ensures v.close == "" ==> AgreeTo(r, Pass(Links, b', Pass(Credentials, b, KeyValuePass(r))), 0)
  {
    hide Pass, KeyValuePass;
    if v.close == "" {
      FirstStays(r);
      EndStays(Credentials, b, KeyValuePass(r));
      EndStays(Links, b', Pass(Credentials, b, KeyValuePass(r)));
    }
  }

  lemma ValueEnds(t: string)
    requires HeadLen(t) > 0
    ensures ValueOf(t).open in ["", "\""] && ValueOf(t).close in ["", "\""]
    ensures ValueOf(t).close == "" ==> RestOf(t) == [] || !Is(ValueChar, RestOf(t)[0])
  {
    hide HeadLen, KeyText, IsAuthorization, Run;
    var u := t[ValueStart(t)..];
    ValueStartsHere(t);
    ValueShape(u, IsAuthorization(KeyText(t)));
    assert RestOf(t) != [] ==> RestOf(t)[0] == u[ValueOf(t).len];
  }

  /** If the text behind a head starts with the mask of its own value, it is that mask. */
  lemma ReadsAsItself(t: string, z: string)
    requires HeadLen(t) > 0 && t[ValueStart(t)..] == Masked(ValueOf(t)) + z
    requires ValueOf(t).close == "" ==> AgreeTo(RestOf(t), z, 0)
    ensures FrontIsMasked(t)
  {
    hide HeadLen, KeyText, IsAuthorization, ValueAt, ValueOf, Masked, RestOf, ValueStart, FrontIsMasked;
    ValueStartsHere(t);
    MaskReadsBack(t[ValueStart(t)..], IsAuthorization(KeyText(t)), z);
    MaskedExactly(t);
  }

  lemma SameBehind(w: string, u: string, x: string)
    requires w + u == w + x
    ensures u == x
  {
    assert u == (w + u)[|w|..] && x == (w + x)[|w|..];
  }

  /** A text that sanitizing leaves alone has no key left to mask. */
  lemma FixedIsMasked(o: string)
    requires Sanitized(o, []) == o && IsClean(Credentials, true, o) && IsClean(Links, true, o)
    ensures ScannedKeysAreMasked(o)
  {
    hide *;
    if !ScannedKeysAreMasked(o) {
      var p := FirstUnmasked(o);
      var t := o[p..];
      var e, j, v, r := p + ValueStart(t), p + HeadLen(t) - 1, ValueOf(t), RestOf(t);
      HeadOfPrefix(o, p);
      OutputAtKey(o, p, t);
      ValueEnds(t);
      var w, u := o[..e], o[e..];
      var b := MaskedPrefixIsCopied(Credentials, w, j, u, v, KeyValuePass(r));
      var z := Pass(Credentials, b, KeyValuePass(r));
      var b' := MaskedPrefixIsCopied(Links, w, j, u, v, z);
      SanitizedIs(o, []);
      NoValues(o);
      SameBehind(w, u, Masked(v) + Pass(Links, b', z));
      SanitizedEnds(v, r, b, b');
      ReadsAsItself(t, Pass(Links, b', z));
    }
  }

  /**
   * Sanitizing leaves a text alone exactly when every key the scan comes to has the marker
   * as its whole value and every credential and every link is masked.
   */
  lemma SanitizedIsFixedExactly(o: string)
    ensures Sanitized(o, []) == o <==>
      ScannedKeysAreMasked(o) && IsClean(Credentials, true, o) && IsClean(Links, true, o)
  {
    hide *;
    if Sanitized(o, []) == o {
      SanitizedIsSafe(o, []);
      SafeIsClean(o);
      FixedIsMasked(o);
    }
    if ScannedKeysAreMasked(o) && IsClean(Credentials, true, o) && IsClean(Links, true, o) {
      SanitizedIs(o, []);
      NoValues(o);
      UnchangedExactly(o);
      CleanIsFixed(Credentials, true, o);
      CleanIsFixed(Links, true, o);
    }
  }

  /** Sanitizing a second time changes nothing exactly when the first run left no scanned key to mask. */
  lemma IdempotentExactly(s: string, values: seq<string>)
    ensures Sanitized(Sanitized(s, values), []) == Sanitized(s, values)
      <==> ScannedKeysAreMasked(Sanitized(s, values))
  {
    hide *;
    var o := Sanitized(s, values);
    SanitizedIsSafe(s, values);
    SafeIsClean(o);
    SanitizedIsFixedExactly(o);
  }

  // ---- conditions to check before the call -------------------------------------------

  /** No sensitive key in quotes stands in `s` with its separator. */
  ghost predicate NoQuotedKey(s: string) {
    forall p | 0 <= p < |s| && s[p] == '"' :: HeadLen(s[p..]) == 0
  }

  /** A redaction brings no quoted key about: all of one up to its separator was kept. */
  lemma NoQuotedKeyStays(s: string, o: string)
    requires NoQuotedKey(s) && IsRedaction(s, o)
    ensures NoQuotedKey(o)
  {
    hide HeadLen, IsRedaction;
    forall p | 0 <= p < |o| && o[p] == '"'
      ensures HeadLen(o[p..]) == 0
    {
      if HeadLen(o[p..]) > 0 {
        QuotedKeyWasThere(s, o, p);
      }
    }
  }

  lemma QuotedKeyWasThere(s: string, o: string, p: nat)
    requires IsRedaction(s, o) && p < |o| && o[p] == '"' && HeadLen(o[p..]) > 0
    ensures !NoQuotedKey(s)
  {
    hide HeadLen, IsRedaction, Contains, ClearOfMarker;
    var t := o[p..];
    var u := t[..HeadLen(t)];
    HeadIsAngleFree(t);
    assert AngleFree(u) by { assert forall i | 0 <= i < |u| :: u[i] == t[..ValueStart(t)][i]; }
    QuoteNotInMarker(u);
    PlainTextIsClear(u);
    IsInside(o, p, u);
    if !Contains(s, u) {
      RedactionCreatesNothing(s, o, u);
    }
    var q := PlaceOf(s, u);
    HeadIsLocal(t, t);
    SharedHeads(t, s[q..], |u|, Look(t));
  }

  lemma QuoteNotInMarker(u: string)
    requires u != [] && u[0] == '"'
    ensures !Contains("redacted", u)
  {
    var word := "redacted";
    assert forall p | 0 <= p < |word| :: word[p..][0] == word[p] != '"';
  }

  lemma IsInside(o: string, p: nat, u: string)
    requires p <= |o| && u <= o[p..]
    ensures Contains(o, u)
  {
  }

  lemma PlaceOf(s: string, u: string) returns (q: nat)
    requires Contains(s, u) && u != []
    ensures q < |s| && |u| <= |s[q..]| && s[q..][..|u|] == u && s[q] == u[0]
  {
    q :| 0 <= q <= |s| && u <= s[q..];
  }

  lemma {:induction false} NoQuotedKeyKnown(s: string, values: seq<string>)
    requires NoQuotedKey(s)
    ensures NoQuotedKey(KnownValuePass(s, values))
    decreases |values|
  {
    hide NoQuotedKey, Trim, Replace;
    if values != [] {
      var v := Trim(values[0]);
      if v != [] {
        ReplaceRedacts(s, v);
        NoQuotedKeyStays(s, Replace(s, v));
      }
      NoQuotedKeyKnown(RedactValue(s, values[0]), values[1..]);
    }
  }

  lemma NoQuotedKeySanitized(s: string, values: seq<string>)
    requires NoQuotedKey(s)
    ensures NoQuotedKey(Sanitized(s, values))
  {
    hide *;
    var known := KnownValuePass(s, values);
    var kv := KeyValuePass(known);
    NoQuotedKeyKnown(s, values);
    KeyValuePassRedacts(known);
    NoQuotedKeyStays(known, kv);
    PassRedacts(Credentials, true, kv);
    NoQuotedKeyStays(kv, Pass(Credentials, true, kv));
    PassRedacts(Links, true, Pass(Credentials, true, kv));
    NoQuotedKeyStays(Pass(Credentials, true, kv), Pass(Links, true, Pass(Credentials, true, kv)));
    SanitizedIs(s, values);
  }

  /** Only a quoted key behind a marker can be left to mask. */
  lemma ScannedKeysOfSafe(o: string)
    requires IsSafe(o) && NoQuotedKey(o)
    ensures ScannedKeysAreMasked(o)
  {
    hide HeadLen, ValueStart, IsMasked, ShowsNeither, ScanStandsAt, EndsInMask;
    forall p | 0 <= p < |o| && ScanStandsAt(o, p)
      ensures FrontIsMasked(o[p..])
    {
      assert MayClose([], o, p) ==> o[p] == '"';
    }
  }

  /** Without a sensitive key in quotes, a second run never changes anything; without any quote, all the less. */
  lemma UnquotedIsIdempotent(s: string, values: seq<string>)
    requires NoQuotedKey(s)
    ensures Sanitized(Sanitized(s, values), []) == Sanitized(s, values)
  {
    hide *;
    NoQuotedKeySanitized(s, values);
    SanitizedIsSafe(s, values);
    ScannedKeysOfSafe(Sanitized(s, values));
    IdempotentExactly(s, values);
  }

  /** The values themselves need not be listed again. */
  predicate AllClear(values: seq<string>) {
    forall v | v in values && Trim(v) != [] :: ClearOfMarker(Trim(v))
  }

  lemma {:induction false} NothingListed(o: string, values: seq<string>)
    requires forall v | v in values && Trim(v) != [] :: !Contains(o, Trim(v))
    ensures KnownValuePass(o, values) == o
    decreases |values|
  {
    hide Trim, Replace, Contains;
    if values != [] {
      var w := Trim(values[0]);
      assert values[0] in values;
      if w != [] {
        AbsentIsKept(o, w);
      }
      NothingListed(o, values[1..]);
    }
  }

  lemma AbsentIsKept(o: string, w: string)
    requires w != [] && !Contains(o, w)
    ensures Replace(o, w) == o
  {
    ReplaceNothing(o, w);
  }

  /** Listing the same values in the second run makes no difference if none can overlap the marker. */
  lemma SameValuesAgain(s: string, values: seq<string>)
    requires AllClear(values)
    ensures Sanitized(Sanitized(s, values), values) == Sanitized(Sanitized(s, values), [])
  {
    hide Sanitized, Trim, Contains, ClearOfMarker, KnownValuePass;
    var o := Sanitized(s, values);
    forall v | v in values && Trim(v) != []
      ensures !Contains(o, Trim(v))
    {
      ValueIsGone(s, values, v);
    }
    NothingListed(o, values);
    NoValues(o);
    SanitizedIs(o, values);
    SanitizedIs(o, []);
  }
}
