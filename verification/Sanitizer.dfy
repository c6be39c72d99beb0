/** The four passes in a row, and what the text that comes out of them is free of. */
module Sanitizer {
  import opened Text
  import opened Redaction
  import opened KnownValues
  import KeyValues
  import KeyValueScan
  import KeyValueSecrecy
  import opened KeyValueGrammar
  import opened KeyValueFixpoints
  import opened KeyValueTheorems
  import opened BoundaryPasses
  import BoundaryLaws
  import opened BoundaryTheorems

  function Sanitized(s: string, values: seq<string>): string {
    Pass(Links, true, Pass(Credentials, true, KeyValues.KeyValuePass(KnownValuePass(s, values))))
  }

  /**
   * No credential and no link shows at a word boundary of `o`, and the value of every sensitive key
   * is masked, bare or quoted, that does not start at the closing quote of a masked value.
   */
  ghost predicate IsSafe(o: string) { KeysMasked([], o) && ShowsNeither(o) }

  method SanitizeDiagnostic(s: string, values: seq<string>) returns (out: string)
    ensures out == Sanitized(s, values)
    ensures IsSafe(out)
    ensures forall v | v in values && Trim(v) != [] && ClearOfMarker(Trim(v)) :: !Contains(out, Trim(v))
  {
    hide *;
    out := RedactKnownValues(s, values);
    out := KeyValueScan.RedactSensitiveKeyValues(out);
    out := RedactAuthorizationSchemes(out);
    out := RedactUrls(out);
    SanitizedIs(s, values);
    SanitizedIsSafe(s, values);
    forall v | v in values && Trim(v) != [] && ClearOfMarker(Trim(v))
      ensures !Contains(out, Trim(v))
    {
      ValueIsGone(s, values, v);
    }
  }

  lemma SanitizedIs(s: string, values: seq<string>)
    ensures Sanitized(s, values)
      == Pass(Links, true, Pass(Credentials, true, KeyValues.KeyValuePass(KnownValuePass(s, values))))
  {
  }

  /** No later pass undoes what an earlier one established. */
  lemma SanitizedIsSafe(s: string, values: seq<string>)
    ensures IsSafe(Sanitized(s, values))
  {
    hide KnownValuePass, KeyValues.KeyValuePass, Pass, KeysMasked, IsClean, ShowsNeither;
    var kv := KeyValues.KeyValuePass(KnownValuePass(s, values));
    var au := Pass(Credentials, true, kv);
    KeyValuePassMasksKeys(KnownValuePass(s, values));
    PassKeepsKeysMasked(Credentials, true, [], kv);
    PassKeepsKeysMasked(Links, true, [], au);
    BoundaryLaws.PassIsIdempotent(Credentials, true, kv);
    CleanIsFixed(Credentials, true, au);
    LinksKeepClean(true, au);
    BoundaryLaws.PassIsIdempotent(Links, true, au);
    CleanIsFixed(Links, true, Pass(Links, true, au));
    CleanExactly(Pass(Links, true, au));
  }

  lemma SafeIsClean(o: string)
    requires IsSafe(o)
    ensures IsClean(Credentials, true, o) && IsClean(Links, true, o)
  {
    CleanExactly(o);
  }

  lemma NoValues(s: string)
    ensures KnownValuePass(s, []) == s
  {
  }

  lemma KeyIsFound(k: Key, gap: string, u: string)
    requires k.Valid() && KeyValues.IsSensitiveKey(k.word) && AreBlanks(gap) && (u != [] ==> !IsSpace(u[0]))
    ensures var t := k.Text() + (gap + u);
      KeyValues.HeadLen(t) > 0 && t[KeyValues.ValueStart(t)..] == u
  {
    hide KeyValues.IsSensitiveKey, KeyValues.HeadLen, KeyValues.KeyEnd, KeyValues.KeyText, Run;
    var t := k.Text() + (gap + u);
    KeyIsRead(k, gap + u);
    assert t[|k.Text()|..] == gap + u;
    RunIs(Blank, gap + u, |gap|);
    assert t[|k.Text()| + |gap|..] == u;
  }

  lemma MaskedAt(a: string, t: string)
    requires KeysMasked([], a + t) && !("\"" <= t && EndsInMask(a))
    ensures FrontIsMasked(t)
  {
    hide FrontIsMasked, EndsInMask;
    var o := a + t;
    assert o[|a|..] == t && [] + o[..|a|] == a;
    assert !MayClose([], o, |a|);
  }

  /**
   * What that means for a key: wherever one of the table stands in a safe text, bare or in quotes,
   * its value is the marker and nothing else. Only a quoted one may start at a closing quote.
   */
  lemma KeyShowsNoValue(a: string, k: Key, gap: string, u: string)
    requires IsSafe(a + (k.Text() + (gap + u)))
    requires k.Valid() && KeyValues.IsSensitiveKey(k.word) && AreBlanks(gap) && (u != [] ==> !IsSpace(u[0]))
    requires !(k.quoted && EndsInMask(a))
    ensures IsMasked(u)
  {
    var t := k.Text() + (gap + u);
    assert KeysMasked([], a + t);
    hide *;
    KeyIsFound(k, gap, u);
    if !k.quoted {
      BareStart(k, gap + u);
    }
    MaskedAt(a, t);
    FrontAtValue(t);
  }

  lemma BareStart(k: Key, z: string)
    requires k.Valid() && !k.quoted
    ensures !("\"" <= k.Text() + z)
  {
    assert (k.Text() + z)[0] == k.word[0];
  }

  /**
   * Non-interference of the sanitizer: without known values to look for, the values of
   * sensitive keys at which the scan stands do not show in what all passes make of the text.
   */
  lemma ValuesNeverShow(p: string, h: string, v: string, w: string, r: string, open: string, close: string)
    requires KeyValueSecrecy.IsHead(h) && KeyValueSecrecy.ScanStandsAt(p + (h + (v + r)), |p|)
    requires KeyValueSecrecy.Fills(KeyValues.IsAuthorization(KeyValues.KeyText(h)), v, r, open, close)
    requires KeyValueSecrecy.Fills(KeyValues.IsAuthorization(KeyValues.KeyText(h)), w, r, open, close)
    ensures Sanitized(p + (h + (v + r)), []) == Sanitized(p + (h + (w + r)), [])
  {
    hide *;
    KeyValueSecrecy.ValuesDoNotShow(p, h, v, w, r, open, close);
    NoValues(p + (h + (v + r)));
    NoValues(p + (h + (w + r)));
    SanitizedIs(p + (h + (v + r)), []);
    SanitizedIs(p + (h + (w + r)), []);
  }

  /** No later replacement and no later pass recreates a value that was replaced. */
  lemma ValueIsGone(s: string, values: seq<string>, v: string)
    requires v in values && Trim(v) != [] && ClearOfMarker(Trim(v))
    ensures !Contains(Sanitized(s, values), Trim(v))
  {
    hide KnownValuePass, KeyValues.KeyValuePass, Pass, Contains, IsRedaction, ClearOfMarker;
    var w, known := Trim(v), KnownValuePass(s, values);
    var kv := KeyValues.KeyValuePass(known);
    var au := Pass(Credentials, true, kv);
    ListedIsGone(s, values, v);
    KeyValuePassRedacts(known);
    RedactionCreatesNothing(known, kv, w);
    BoundaryLaws.PassRedacts(Credentials, true, kv);
    RedactionCreatesNothing(kv, au, w);
    BoundaryLaws.PassRedacts(Links, true, au);
    RedactionCreatesNothing(au, Pass(Links, true, au), w);
  }

  /** Whatever the text and the other values, the sanitized text does not show the value. */
  ghost predicate NeverShown(v: string) {
    forall s, values :: v in values ==> !Contains(Sanitized(s, values), Trim(v))
  }

  /** A value without angle brackets never shows, unless it is a part of the marker's own word. */
  lemma PlainValueNeverShows(v: string)
    requires Trim(v) != [] && AngleFree(Trim(v))
    ensures NeverShown(v) <==> !Contains("redacted", Trim(v))
  {
    hide Trim, Contains, Sanitized, AngleFree, ClearOfMarker;
    PlainTextIsClear(Trim(v));
    if ClearOfMarker(Trim(v)) {
      forall s, values | v in values
        ensures !Contains(Sanitized(s, values), Trim(v))
      {
        ValueIsGone(s, values, v);
      }
    } else {
      WordShows(v);
      assert v in [v];
    }
  }

  lemma WordShows(v: string)
    requires Trim(v) != [] && Contains("redacted", Trim(v))
    ensures Contains(Sanitized(Trim(v), [v]), Trim(v))
  {
    hide *;
    AloneIsReplaced(v);
    MarkerIsSanitized();
    SanitizedIs(Trim(v), [v]);
    WordIsInMarker(Trim(v));
  }

  lemma AloneIsReplaced(v: string)
    requires Trim(v) != []
    ensures KnownValuePass(Trim(v), [v]) == MARKER
  {
    hide Trim;
    var w := Trim(v);
    assert w[|w|..] == [] && MARKER + [] == MARKER && [v][1..] == [];
    assert Replace(w, w) == MARKER + Replace([], w);
  }

  lemma WordIsInMarker(w: string)
    requires Contains("redacted", w)
    ensures Contains(MARKER, w)
  {
    var word := "redacted";
    var p :| 0 <= p <= |word| && w <= word[p..];
    assert MARKER[p + 1..] == word[p..] + ">";
    assert w <= MARKER[p + 1..];
  }

  /** The marker on its own passes through every pass. */
  lemma MarkerIsSanitized()
    ensures KeyValues.KeyValuePass(MARKER) == MARKER
    ensures forall kind :: Pass(kind, true, MARKER) == MARKER
  {
    MarkerHasNoKey(0);
    assert MARKER[0..] == MARKER && MARKER + [] == MARKER;
    forall kind
      ensures Pass(kind, true, MARKER) == MARKER
    {
      BoundaryLaws.MarkerIsCopied(kind, true, []);
      BoundaryLaws.OtherIsCopied(kind, true, []);
    }
  }

  lemma {:induction false} MarkerHasNoKey(p: nat)
    requires p <= |MARKER|
    ensures KeyValues.KeyValuePass(MARKER[p..]) == MARKER[p..]
    decreases |MARKER| - p
  {
    hide KeyValues.HeadLen;
    if p < |MARKER| {
      NoKeyInMarker([], p);
      assert MARKER + [] == MARKER;
      MarkerHasNoKey(p + 1);
      assert MARKER[p..][1..] == MARKER[p + 1..];
    } else {
      assert MARKER[p..] == [];
    }
  }
}
