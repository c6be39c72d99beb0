/** Exactly which texts the key/value pass leaves alone. */
module KeyValueFixpoints {
  import opened Text
  import opened Redaction
  import opened KeyValues
  import opened KeyValueLaws
  import opened KeyValueTheorems
  import opened KeyValueSecrecy

  /** The value of every key, quoted or not, at which the scan of `s` comes to stand is masked. */
  ghost predicate ScannedKeysAreMasked(s: string) {
    forall p | 0 <= p < |s| && ScanStandsAt(s, p) :: FrontIsMasked(s[p..])
  }

  /** A value is masked exactly when the scan would read it as its own mask. */
  lemma MaskedExactly(t: string)
    requires HeadLen(t) > 0
    ensures FrontIsMasked(t) <==> t[ValueStart(t)..][..ValueOf(t).len] == Masked(ValueOf(t))
  {
    hide *;
    ValueStartsHere(t);
    FrontAtValue(t);
    MaskIsRead(t[ValueStart(t)..], IsAuthorization(KeyText(t)));
    ReadIsMask(t[ValueStart(t)..], IsAuthorization(KeyText(t)));
  }

  lemma FrontAtValue(t: string)
    requires HeadLen(t) > 0
    ensures FrontIsMasked(t) <==> IsMasked(t[ValueStart(t)..])
  {
  }

  lemma MaskIsRead(u: string, auth: bool)
    ensures IsMasked(u) ==> u[..ValueAt(u, auth).len] == Masked(ValueAt(u, auth))
  {
    hide ValueAt;
    var q := QUOTED_MARKER;
    if MARKER <= u && (u[10..] == [] || !Is(ValueChar, u[10..][0])) {
      assert u == MARKER + u[10..];
      BareMaskReadsBack(u[10..], auth);
    } else if q <= u && u[11..] == [] {
      assert u == q + "" + "";
      QuotedMaskReadsBack("", "", auth);
    } else if q <= u && u[11..][0] == '"' {
      assert u == q + "\"" + u[12..];
      QuotedMaskReadsBack("\"", u[12..], auth);
    }
  }

  lemma ReadIsMask(u: string, auth: bool)
    ensures u[..ValueAt(u, auth).len] == Masked(ValueAt(u, auth)) ==> IsMasked(u)
  {
    hide ValueAt;
    var v := ValueAt(u, auth);
    ValueShape(u, auth);
    var q := QUOTED_MARKER;
    if u[..v.len] == Masked(v) {
      assert Masked(v) <= u;
      if v.open == "" {
        assert Masked(v) == MARKER;
      } else {
        assert Masked(v) == q + v.close && q <= Masked(v);
        assert v.close != "" ==> Masked(v)[11] == '"';
      }
    }
  }

  lemma ScanOn(t: string, n: nat)
    requires t != []
    ensures StepEnd(t) <= n ==> (ScanStandsAt(t, n) <==> ScanStandsAt(t[StepEnd(t)..], n - StepEnd(t)))
    ensures 0 < n < StepEnd(t) ==> !ScanStandsAt(t, n)
    ensures ScanStandsAt(t, 0)
  {
  }

  /** The scanned keys of a text are the one at its front and those behind its first step. */
  lemma ScannedInSteps(t: string)
    requires t != []
    ensures ScannedKeysAreMasked(t) <==> FrontIsMasked(t) && ScannedKeysAreMasked(t[StepEnd(t)..])
  {
    hide FrontIsMasked, ScanStandsAt, StepEnd;
    var e := StepEnd(t);
    var u := t[e..];
    assert t[0..] == t;
    if ScannedKeysAreMasked(t) {
      ScanOn(t, 0);
      forall p | 0 <= p < |u| && ScanStandsAt(u, p)
        ensures FrontIsMasked(u[p..])
      {
        ScanOn(t, e + p);
        Suffixes(t, e, e + p, p);
      }
    }
    if FrontIsMasked(t) && ScannedKeysAreMasked(u) {
      forall p | 0 <= p < |t| && ScanStandsAt(t, p)
        ensures FrontIsMasked(t[p..])
      {
        ScanOn(t, p);
        if e <= p {
          Suffixes(t, e, p, p - e);
        }
      }
    }
  }

  /** The pass changes a text exactly when the scan finds a key whose value is not the marker. */
  lemma {:induction false} UnchangedExactly(t: string)
    ensures KeyValuePass(t) == t <==> ScannedKeysAreMasked(t)
    decreases |t|
  {
    if t == [] {
      Nothing();
    } else {
      hide *;
      StepIsForward(t);
      ScannedInSteps(t);
      UnchangedExactly(t[StepEnd(t)..]);
      StepChanges(t);
    }
  }

  lemma Nothing()
    ensures KeyValuePass([]) == [] && ScannedKeysAreMasked([])
  {
  }

  lemma StepIsForward(t: string)
    requires t != []
    ensures |t[StepEnd(t)..]| < |t|
  {
  }

  lemma StepChanges(t: string)
    requires t != []
    ensures KeyValuePass(t) == t <==>
      FrontIsMasked(t) && KeyValuePass(t[StepEnd(t)..]) == t[StepEnd(t)..]
  {
    if HeadLen(t) == 0 {
      CopyStep(t);
      NoKeyIsMasked(t);
      hide HeadLen, KeyValuePass;
      assert [t[0]] + t[1..] == t;
      assert KeyValuePass(t)[1..] == KeyValuePass(t[1..]);
    } else {
      MaskChanges(t);
    }
  }

  lemma MaskChanges(t: string)
    requires HeadLen(t) > 0
    ensures KeyValuePass(t) == t <==> FrontIsMasked(t) && KeyValuePass(RestOf(t)) == RestOf(t)
    ensures RestOf(t) == t[StepEnd(t)..]
  {
    hide HeadLen, KeyValuePass, ValueStart, ValueOf, Masked, RestOf, KeyText;
    var c, v, z := ValueStart(t), ValueOf(t), KeyValuePass(RestOf(t));
    var m, x := Masked(v), t[c..][..v.len];
    MaskStep(t);
    ValueStartsHere(t);
    MaskedExactly(t);
    assert RestOf(t) == t[StepEnd(t)..] by { Suffixes(t, c, c + v.len, v.len); }
    assert t == t[..c] + x + RestOf(t);
    if KeyValuePass(t) == t {
      MaskIsStable(t);
      SameParts(t[..c], x, m, RestOf(t), z);
    }
  }

  lemma SameParts(a: string, x: string, m: string, r: string, z: string)
    requires a + x + r == a + m + z && |x| == |m|
    ensures x == m && r == z
  {
    Splits(a, x, r);
    Splits(a, m, z);
  }

  /** In the output every key the scan would come to, quoted or not, has exactly the marker as its value. */
  lemma OutputKeysAreMasked(s: string)
    ensures ScannedKeysAreMasked(KeyValuePass(s))
  {
    hide *;
    KeyValuePassIsIdempotent(s);
    UnchangedExactly(KeyValuePass(s));
  }
}
