/** Non-interference of the key/value pass: its output does not depend on the values it masks. */
module KeyValueSecrecy {
  import opened Text
  import opened Redaction
  import opened KeyValues
  import opened KeyValueLaws
  import opened KeyValueTheorems

  /** How far the scan moves on in one step. */
  function StepEnd(t: string): (e: nat)
    requires t != []
    ensures 0 < e <= |t|
  {
    if HeadLen(t) == 0 then 1 else ValueStart(t) + ValueOf(t).len
  }

  /** The scan of `t` comes to stand at position `n`. */
  ghost predicate ScanStandsAt(t: string, n: nat)
    decreases |t|
  {
    n == 0 || (t != [] && StepEnd(t) <= n && ScanStandsAt(t[StepEnd(t)..], n - StepEnd(t)))
  }

  /** `h` is a sensitive key with its separator and all blanks around it. */
  predicate IsHead(h: string) { HeadLen(h) > 0 && ValueStart(h) == |h| }

  /** In front of `r`, the text `v` is read as one value with these quotes. */
  predicate Fills(auth: bool, v: string, r: string, open: string, close: string) {
    ValueAt(v + r, auth) == Value(|v|, open, close) && (v + r != [] ==> !IsSpace((v + r)[0]))
  }

  // ---- the three kinds of value ---------------------------------------------

  /** Bare text up to a blank, an ampersand or the end. */
  predicate IsBare(v: string, r: string) {
    && (forall i | 0 <= i < |v| :: Is(ValueChar, v[i]))
    && (r != [] ==> !Is(ValueChar, r[0]))
    && (v != [] ==> v[0] != '"')
    && (v == [] && r != [] ==> r[0] == '&')
  }

  lemma BareFills(v: string, r: string)
    requires IsBare(v, r)
    ensures Fills(false, v, r, "", "")
  {
    var u := v + r;
    assert u[0..] == u;
    RunIs(ValueChar, u, |v|);
  }

  /** A quoted body in which the scan never meets a quote that is not escaped. */
  predicate IsQuoted(v: string) {
    |v| >= 2 && v[0] == '"' && BodyLen(v[1..], false) == |v| - 2
  }

  lemma {:induction false} BodyIsLocal(u: string, w: string, escaped: bool)
    requires AgreeTo(u, w, BodyLen(u, escaped)) && BodyLen(u, escaped) < |u|
    ensures BodyLen(w, escaped) == BodyLen(u, escaped)
  {
    var n := BodyLen(u, escaped);
    AgreeLess(u, w, n, 0);
    if n > 0 {
      var e := !escaped && u[0] == '\\';
      assert AgreeTo(u[1..], w[1..], n - 1) by {
        assert u[1..][..n - 1] == u[..n][1..] && w[1..][..n - 1] == w[..n][1..];
      }
      BodyIsLocal(u[1..], w[1..], e);
    }
  }

  lemma QuotedFills(auth: bool, v: string, r: string)
    requires IsQuoted(v)
    ensures Fills(auth, v, r, "\"", "\"")
  {
    var b, u := v[1..], (v + r)[1..];
    assert u == b + r;
    assert u[..|v| - 2] == b[..|v| - 2];
    BodyIsLocal(b, u, false);
  }

  /** The credentials of an authorization header: a scheme and bare text. */
  predicate IsCredentials(v: string, r: string) {
    && SchemeLen(v) > 0
    && (forall i | SchemeLen(v) <= i < |v| :: Is(ValueChar, v[i]))
    && (r != [] ==> !Is(ValueChar, r[0]))
  }

  lemma CredentialsFill(v: string, r: string)
    requires IsCredentials(v, r)
    ensures Fills(true, v, r, "", "")
  {
    var n, u := SchemeLen(v), v + r;
    SchemeInFront(v[..n], v[n..] + r);
    assert v[..n] + (v[n..] + r) == u;
    RunIs(ValueChar, u[n..], |v| - n);
    assert u[0] == v[0] && Lower(v[0]) == 'b';
  }

  lemma SchemeInFront(scheme: string, x: string)
    requires SchemeLen(scheme) == |scheme| > 0
    ensures SchemeLen(scheme + x) == |scheme|
  {
    var u := scheme + x;
    assert forall i | 0 <= i < |scheme| :: u[i] == scheme[i];
    var basic, bearer := "basic ", "bearer ";
    if StartsWithIgnoreCase(scheme, basic) {
      assert StartsWithIgnoreCase(u, basic);
    } else {
      assert Lower(scheme[1]) == bearer[1] && basic[1] == 'a';
      assert StartsWithIgnoreCase(u, bearer);
    }
  }

  // ---- a masked value in place -----------------------------------------------

  /** Whatever fills the place behind a head, the output is the head, the mask and the rest. */
  lemma FilledOutput(h: string, v: string, r: string, open: string, close: string)
    requires IsHead(h) && Fills(IsAuthorization(KeyText(h)), v, r, open, close)
    ensures KeyValuePass(h + (v + r)) == h + (open + MARKER + close) + KeyValuePass(r)
  {
    hide IsSensitiveKey, KeyText, ValueAt, Run, KeyEnd, HeadLen, IsAuthorization;
    var t := h + (v + r);
    var d := Look(h);
    HeadIsLocal(h, h);
    assert t[..d] == h[..d] && t[d] == h[d];
    HeadIsLocal(h, t);
    assert t[..|h|] == h[..|h|];
    if v + r == [] {
      assert t == h;
    } else {
      assert t[|h|] == (v + r)[0];
      StartIsStable(h, t);
    }
    ValueStartsHere(t);
    assert t[|h|..] == v + r && (v + r)[|v|..] == r;
    MaskStep(t);
  }

  // ---- in any context ---------------------------------------------------------

  lemma LookStopsAtSeparator(t: string, j: nat)
    requires j < |t| && IsSeparator(t[j])
    ensures Look(t) <= j
  {
    hide Run;
    assert t[0..] == t;
    RunExcludes(KeyChar, t, 0, j);
    if |t| > 1 {
      RunExcludes(KeyChar, t, 1, j);
    }
    var k := Run(KeyChar, t);
    RunExcludes(Blank, t, k, j);
    if t[0] == '"' && |t| > 1 {
      var e := 2 + Run(KeyChar, t[1..]);
      if e <= |t| {
        RunExcludes(Blank, t, e, j);
      }
    }
  }

  lemma SchemeIsLocal(u: string, w: string)
    requires AgreeTo(u, w, Run(ValueChar, u))
    ensures SchemeLen(u) > 0 ==> SchemeLen(w) == SchemeLen(u)
  {
    var n := SchemeLen(u);
    if n > 0 {
      assert u[n - 1] == ' ' && Is(ValueChar, u[0]);
      assert forall i | 0 <= i < n - 1 :: Is(ValueChar, u[i]);
      RunIs(ValueChar, u, n - 1);
      assert u[..n - 1] == w[..n - 1];
      var a, b := u[..n - 1], w[..n - 1];
      assert forall i | 0 <= i < n - 1 :: a[i] == u[i] && b[i] == w[i];
      assert forall i | 0 <= i < n :: u[i] == w[i];
      assert u[..n] == w[..n];
      SchemeInFront(u[..n], w[n..]);
      assert w[..n] + w[n..] == w;
    }
  }

  lemma AgreeBack(t: string, u: string, d: nat)
    requires AgreeTo(t, u, d)
    ensures AgreeTo(u, t, d)
  {
  }

  /** What value stands at the front of a text depends on nothing behind its end. */
  lemma ValueIsLocal(u: string, w: string, auth: bool)
    requires AgreeTo(u, w, ValueAt(u, auth).len) && ValueAt(u, auth).len < |u|
    ensures ValueAt(w, auth) == ValueAt(u, auth)
  {
    var n := ValueAt(u, auth).len;
    AgreeLess(u, w, n, 0);
    if u[0] == '"' {
      assert AgreeTo(u[1..], w[1..], n - 2) by {
        AgreeLess(u, w, n, n - 1);
        assert u[1..][..n - 2] == u[..n - 1][1..] && w[1..][..n - 2] == w[..n - 1][1..];
      }
      BodyIsLocal(u[1..], w[1..], false);
    } else {
      BareIsLocal(u, w, auth);
    }
  }

  lemma BareIsLocal(u: string, w: string, auth: bool)
    requires u != [] && u[0] != '"' && w != [] && w[0] != '"'
    requires AgreeTo(u, w, ValueAt(u, auth).len)
    ensures ValueAt(w, auth) == ValueAt(u, auth)
  {
    hide Run;
    var n := ValueAt(u, auth).len;
    var s := if auth then SchemeLen(u) else 0;
    assert u[0..] == u && w[0..] == w;
    RunWithin(u, s);
    AgreeLess(u, w, n, Run(ValueChar, u));
    RunAgrees(ValueChar, u, w, 0, n);
    SchemeIsLocal(u, w);
    AgreeBack(u, w, Run(ValueChar, u));
    SchemeIsLocal(w, u);
    RunAgrees(ValueChar, u, w, s, n);
  }

  lemma RunWithin(u: string, s: nat)
    requires s == 0 || s == SchemeLen(u)
    ensures s <= |u| && Run(ValueChar, u) <= s + Run(ValueChar, u[s..])
  {
    if s == 0 {
      assert u[0..] == u;
    } else {
      assert u[s - 1] == ' ';
    }
  }

  /** Texts that share a prefix with a separator in it take the same steps up to there. */
  lemma StepIsLocal(t: string, u: string, l: nat, j: nat)
    requires j < l <= |t| && l <= |u| && t[..l] == u[..l] && IsSeparator(t[j])
    requires StepEnd(t) <= j
    ensures StepEnd(u) == StepEnd(t) && HeadLen(u) == HeadLen(t)
    ensures HeadLen(t) > 0 ==>
      ValueStart(u) == ValueStart(t) && Masked(ValueOf(u)) == Masked(ValueOf(t))
  {
    hide HeadLen, Look, KeyText, ValueAt, IsAuthorization, Run, ValueOf, ValueStart, Masked;
    LookStopsAtSeparator(t, j);
    SharedAgrees(t, u, l, Look(t));
    HeadIsLocal(t, u);
    if HeadLen(t) > 0 {
      SharedAgrees(t, u, l, ValueStart(t));
      SharedAgrees(t, u, l, StepEnd(t));
      MaskIsLocal(t, u);
    }
  }

  lemma MaskIsLocal(t: string, u: string)
    requires HeadLen(t) > 0 && HeadLen(u) == HeadLen(t) && KeyText(u) == KeyText(t)
    requires StepEnd(t) < |t|
    requires AgreeTo(t, u, ValueStart(t)) && AgreeTo(t, u, StepEnd(t))
    ensures ValueStart(u) == ValueStart(t) && ValueOf(u) == ValueOf(t)
  {
    hide HeadLen, KeyText, ValueAt, IsAuthorization, Run, ValueOf;
    var h, c := HeadLen(t), ValueStart(t);
    RunAgrees(Blank, t, u, h, c);
    ValueStartsHere(t);
    ValueStartsHere(u);
    AgreeShift(t, u, c, ValueOf(t).len);
    ValueIsLocal(t[c..], u[c..], IsAuthorization(KeyText(t)));
  }

  lemma SharedAgrees(t: string, u: string, l: nat, d: nat)
    requires d < l <= |t| && l <= |u| && t[..l] == u[..l]
    ensures AgreeTo(t, u, d)
  {
    assert t[..d] == t[..l][..d] && u[..d] == u[..l][..d];
    assert t[d] == t[..l][d] && u[d] == u[..l][d];
  }

  lemma AgreeShift(t: string, u: string, c: nat, d: nat)
    requires AgreeTo(t, u, c + d)
    ensures AgreeTo(t[c..], u[c..], d)
  {
    assert t[c..][..d] == t[..c + d][c..] && u[c..][..d] == u[..c + d][c..];
  }

  /** Two texts that share all up to a separator give the same output up to where the scan stands before it. */
  lemma {:induction false} SharedOutput(t: string, u: string, n: nat, j: nat, l: nat) returns (q: string)
    requires ScanStandsAt(t, n) && n <= j < l <= |t| && l <= |u| && t[..l] == u[..l] && IsSeparator(t[j])
    ensures KeyValuePass(t) == q + KeyValuePass(t[n..])
    ensures KeyValuePass(u) == q + KeyValuePass(u[n..])
    decreases n
  {
    hide *;
    if n == 0 {
      q := [];
      assert t[0..] == t && u[0..] == u;
    } else {
      ScanStep(t, n);
      var e := StepEnd(t);
      StepIsLocal(t, u, l, j);
      SharedRest(t, u, e, l);
      Suffixes(t, e, n, n - e);
      Suffixes(u, e, n, n - e);
      var q' := SharedOutput(t[e..], u[e..], n - e, j - e, l - e);
      q := StepOutput(t, u, q', KeyValuePass(t[n..]), KeyValuePass(u[n..]), l);
    }
  }

  lemma SharedRest(t: string, u: string, e: nat, l: nat)
    requires e <= l <= |t| && l <= |u| && t[..l] == u[..l]
    ensures t[e..][..l - e] == u[e..][..l - e]
  {
    assert t[e..][..l - e] == t[..l][e..] && u[e..][..l - e] == u[..l][e..];
  }

  lemma ScanStep(t: string, n: nat)
    requires ScanStandsAt(t, n) && n > 0
    ensures t != [] && StepEnd(t) <= n && ScanStandsAt(t[StepEnd(t)..], n - StepEnd(t))
  {
  }

  lemma SeparatorOf(h: string)
    requires IsHead(h)
    ensures HeadLen(h) > 0
    ensures IsSeparator(h[HeadLen(h) - 1])
  {
    hide IsSensitiveKey, KeyText;
  }

  lemma StepOutput(t: string, u: string, q: string, a: string, b: string, l: nat) returns (r: string)
    requires t != [] && u != [] && StepEnd(u) == StepEnd(t) <= l <= |t| && l <= |u| && t[..l] == u[..l]
    requires HeadLen(u) == HeadLen(t)
    requires HeadLen(t) > 0 ==> ValueStart(u) == ValueStart(t) && Masked(ValueOf(u)) == Masked(ValueOf(t))
    requires KeyValuePass(t[StepEnd(t)..]) == q + a && KeyValuePass(u[StepEnd(t)..]) == q + b
    ensures KeyValuePass(t) == r + a && KeyValuePass(u) == r + b
  {
    hide HeadLen, KeyValuePass, ValueStart, ValueOf, Masked;
    if HeadLen(t) == 0 {
      CopyStep(t);
      CopyStep(u);
      assert t[0] == t[..l][0] && u[0] == u[..l][0];
      r := [t[0]] + q;
      assert [t[0]] + (q + a) == r + a && [t[0]] + (q + b) == r + b;
    } else {
      MaskStep(t);
      MaskStep(u);
      var c, m := ValueStart(t), Masked(ValueOf(t));
      assert t[..c] == t[..l][..c] && u[..c] == u[..l][..c];
      r := t[..c] + m + q;
      assert t[..c] + m + (q + a) == r + a && t[..c] + m + (q + b) == r + b;
    }
  }

  lemma HeadInContext(p: string, h: string, x: string, y: string)
    ensures var t, u, l := p + (h + x), p + (h + y), |p| + |h|;
      && t[..l] == u[..l] && t[|p|..] == h + x && u[|p|..] == h + y
      && forall i | 0 <= i < |h| :: t[|p| + i] == h[i]
  {
    assert (p + (h + x))[..|p| + |h|] == p + h == (p + (h + y))[..|p| + |h|];
  }

  /**
   * Non-interference: where the scan stands at a sensitive key, replacing its value
   * by any other of the same kind leaves the whole output as it was.
   */
  lemma ValuesDoNotShow(p: string, h: string, v: string, w: string, r: string, open: string, close: string)
    requires IsHead(h) && ScanStandsAt(p + (h + (v + r)), |p|)
    requires Fills(IsAuthorization(KeyText(h)), v, r, open, close)
    requires Fills(IsAuthorization(KeyText(h)), w, r, open, close)
    ensures KeyValuePass(p + (h + (v + r))) == KeyValuePass(p + (h + (w + r)))
  {
    hide *;
    SeparatorOf(h);
    HeadInContext(p, h, v + r, w + r);
    var j, l := |p| + HeadLen(h) - 1, |p| + |h|;
    var q := SharedOutput(p + (h + (v + r)), p + (h + (w + r)), |p|, j, l);
    FilledOutput(h, v, r, open, close);
    FilledOutput(h, w, r, open, close);
  }

  /** The two kinds of value a key other than `authorization` can have. */
  lemma PlainValuesDoNotShow(p: string, h: string, v: string, w: string, r: string)
    requires IsHead(h) && !IsAuthorization(KeyText(h)) && ScanStandsAt(p + (h + (v + r)), |p|)
    requires (IsBare(v, r) && IsBare(w, r)) || (IsQuoted(v) && IsQuoted(w))
    ensures KeyValuePass(p + (h + (v + r))) == KeyValuePass(p + (h + (w + r)))
  {
    hide *;
    if IsBare(v, r) && IsBare(w, r) {
      BareFills(v, r);
      BareFills(w, r);
      ValuesDoNotShow(p, h, v, w, r, "", "");
    } else {
      QuotedFills(false, v, r);
      QuotedFills(false, w, r);
      ValuesDoNotShow(p, h, v, w, r, "\"", "\"");
    }
  }

  /** Nor do credentials show, nor which of the two schemes carried them. */
  lemma CredentialsDoNotShow(p: string, h: string, v: string, w: string, r: string)
    requires IsHead(h) && IsAuthorization(KeyText(h)) && ScanStandsAt(p + (h + (v + r)), |p|)
    requires IsCredentials(v, r) && IsCredentials(w, r)
    ensures KeyValuePass(p + (h + (v + r))) == KeyValuePass(p + (h + (w + r)))
  {
    hide *;
    CredentialsFill(v, r);
    CredentialsFill(w, r);
    ValuesDoNotShow(p, h, v, w, r, "", "");
  }
}
