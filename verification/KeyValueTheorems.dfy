/** The guarantees of the key/value pass: a redaction, a fixpoint of itself, and which keys its output has masked. */
module KeyValueTheorems {
  import opened Text
  import opened Redaction
  import opened KeyValues
  import opened KeyValueLaws

  // ---- reading a value back -------------------------------------------------

  /** The three forms a value can have, and what ends it. */
  lemma ValueShape(u: string, auth: bool)
    ensures var v := ValueAt(u, auth);
      || (v.open == "" && v.close == "" && (v.len < |u| ==> !Is(ValueChar, u[v.len])))
      || (v.open == "\"" && v.close == "\"" && u[0] == '"')
      || (v.open == "\"" && v.close == "" && u[0] == '"' && v.len == |u|)
  {
  }

  lemma {:induction false} PlainBody(w: string, x: string)
    requires forall i | 0 <= i < |w| :: w[i] != '"' && w[i] != '\\'
    ensures BodyLen(w + x, false) == |w| + BodyLen(x, false)
  {
    if w == [] {
      assert w + x == x;
    } else {
      assert (w + x)[1..] == w[1..] + x;
      PlainBody(w[1..], x);
    }
  }

  lemma BareMaskReadsBack(z: string, auth: bool)
    requires z != [] ==> !Is(ValueChar, z[0])
    ensures ValueAt(MARKER + z, auth) == Value(|MARKER|, "", "")
  {
    var u := MARKER + z;
    assert u[0] == '<' && u[0..] == u;
    assert forall i | 0 <= i < 10 :: u[i] == MARKER[i];
    RunIs(ValueChar, u, 10);
  }

  lemma QuotedMaskReadsBack(close: string, z: string, auth: bool)
    requires close == "\"" || (close == "" && z == "")
    ensures ValueAt("\"" + MARKER + close + z, auth) == Value(1 + |MARKER| + |close|, "\"", close)
  {
    var u := "\"" + MARKER + close + z;
    assert u[1..] == MARKER + (close + z);
    PlainBody(MARKER, close + z);
  }

  /** The mask of a value reads as a value of its own length, if what ended a bare value still follows. */
  lemma MaskReadsBack(u: string, auth: bool, z: string)
    requires ValueAt(u, auth).close == "" ==> AgreeTo(u[ValueAt(u, auth).len..], z, 0)
    ensures var v := ValueAt(u, auth);
      ValueAt(Masked(v) + z, auth) == Value(|Masked(v)|, v.open, v.close)
  {
    hide BodyLen, Run;
    var v := ValueAt(u, auth);
    ValueShape(u, auth);
    if v.open == "" {
      assert Masked(v) == MARKER;
      BareMaskReadsBack(z, auth);
    } else {
      QuotedMaskReadsBack(v.close, z, auth);
    }
  }

  lemma Splits(a: string, m: string, z: string)
    ensures var o := a + m + z;
      && o[..|a|] == a && o[|a|..|a| + |m|] == m && o[|a| + |m|..] == z && o[|a|..] == m + z
  {
  }

  lemma StartIsStable(t: string, o: string)
    requires ValueStart(t) < |o| && o[..ValueStart(t)] == t[..ValueStart(t)]
    requires HeadLen(o) == HeadLen(t) && !IsSpace(o[ValueStart(t)])
    ensures ValueStart(o) == ValueStart(t)
  {
    hide HeadLen, Run;
    var h, c := HeadLen(t), ValueStart(t);
    forall i | 0 <= i < c - h
      ensures Is(Blank, o[h..][i])
    {
      assert o[h..][i] == o[..c][h + i] == t[..c][h + i] == t[h..][i];
    }
    RunIs(Blank, o[h..], c - h);
  }

  /** The text behind the value that starts at the front of `t`. */
  function RestOf(t: string): string
    requires HeadLen(t) > 0
  {
    t[ValueStart(t) + ValueOf(t).len..]
  }

  lemma MaskStep(t: string)
    requires HeadLen(t) > 0
    ensures KeyValuePass(t) == t[..ValueStart(t)] + Masked(ValueOf(t)) + KeyValuePass(RestOf(t))
  {
  }

  lemma HeadIsStable(t: string)
    requires HeadLen(t) > 0
    ensures HeadLen(KeyValuePass(t)) == HeadLen(t) && KeyText(KeyValuePass(t)) == KeyText(t)
  {
    hide IsSensitiveKey, KeyValuePass, HeadLen, KeyText;
    HeadStays(t);
    HeadIsLocal(t, KeyValuePass(t));
  }

  lemma ValueStartsHere(t: string)
    requires HeadLen(t) > 0
    ensures ValueOf(t) == ValueAt(t[ValueStart(t)..], IsAuthorization(KeyText(t)))
    ensures RestOf(t) == t[ValueStart(t)..][ValueOf(t).len..]
    ensures |Masked(ValueOf(t))| > 0 && !IsSpace(Masked(ValueOf(t))[0])
  {
    hide IsSensitiveKey, HeadLen, KeyText, IsAuthorization;
    ValueShape(t[ValueStart(t)..], IsAuthorization(KeyText(t)));
    assert Masked(ValueOf(t))[0] in ['<', '"'];
  }

  /** Behind the head, the output starts with the masked value and reads as exactly that. */
  lemma MaskIsStable(t: string)
    requires HeadLen(t) > 0
    ensures var o, c, m := KeyValuePass(t), ValueStart(t), Masked(ValueOf(t));
      && HeadLen(o) == HeadLen(t) && KeyText(o) == KeyText(t) && ValueStart(o) == c
      && ValueOf(o) == Value(|m|, ValueOf(t).open, ValueOf(t).close)
      && c + |m| <= |o| && o[..c] == t[..c] && o[c..] == m + KeyValuePass(RestOf(t))
  {
    hide *;
    var o, c, v := KeyValuePass(t), ValueStart(t), ValueOf(t);
    HeadIsStable(t);
    ValueStartsHere(t);
    MaskStep(t);
    Splits(t[..c], Masked(v), KeyValuePass(RestOf(t)));
    assert o[c] == o[c..][0] == Masked(v)[0];
    StartIsStable(t, o);
    FirstStays(RestOf(t));
    MaskReadsBack(t[c..], IsAuthorization(KeyText(t)), KeyValuePass(RestOf(t)));
    ValueStartsHere(o);
  }

  // ---- the pass is a redaction ----------------------------------------------

  /** Masking the middle of `u[..n]` and keeping its ends is a redaction. */
  lemma MaskBetween(u: string, open: string, close: string, n: nat, o: string)
    requires |open| + |close| <= n <= |u|
    requires open == u[..|open|] && close == u[n - |close|..n]
    requires IsRedaction(u[n..], o)
    ensures IsRedaction(u, open + MARKER + close + o)
  {
    hide IsRedaction;
    var a, b := |open|, n - |close|;
    KeepAll(close, u[n..], o);
    assert close + u[n..] == u[b..];
    CutOne(u[a..b], u[b..], close + o);
    assert u[a..b] + u[b..] == u[a..];
    KeepAll(open, u[a..], MARKER + (close + o));
    assert open + u[a..] == u;
    assert open + (MARKER + (close + o)) == open + MARKER + close + o;
  }

  lemma ValueIsRedacted(u: string, auth: bool, o: string)
    requires IsRedaction(u[ValueAt(u, auth).len..], o)
    ensures IsRedaction(u, Masked(ValueAt(u, auth)) + o)
  {
    hide IsRedaction, Run;
    var v := ValueAt(u, auth);
    ValueShape(u, auth);
    assert v.open == u[..|v.open|] && v.close == u[v.len - |v.close|..v.len];
    MaskBetween(u, v.open, v.close, v.len, o);
  }

  /** Nothing is dropped, added or reordered: the output is the input with stretches masked. */
  lemma {:induction false} KeyValuePassRedacts(t: string)
    ensures IsRedaction(t, KeyValuePass(t))
    decreases |t|
  {
    if t == [] {
      NothingIsCut();
    } else if HeadLen(t) == 0 {
      KeyValuePassRedacts(t[1..]);
      KeepOne(t[0], t[1..], KeyValuePass(t[1..]));
      assert [t[0]] + t[1..] == t;
    } else {
      KeyValuePassRedacts(RestOf(t));
      MaskRedacts(t);
    }
  }

  lemma MaskRedacts(t: string)
    requires HeadLen(t) > 0 && IsRedaction(RestOf(t), KeyValuePass(RestOf(t)))
    ensures IsRedaction(t, KeyValuePass(t))
  {
    hide *;
    var c, m, o := ValueStart(t), Masked(ValueOf(t)), KeyValuePass(RestOf(t));
    ValueStartsHere(t);
    ValueIsRedacted(t[c..], IsAuthorization(KeyText(t)), o);
    KeepAll(t[..c], t[c..], m + o);
    assert t[..c] + t[c..] == t;
    assert t[..c] + (m + o) == t[..c] + m + o;
    MaskStep(t);
  }

  // ---- the pass is a fixpoint of itself --------------------------------------

  /** A second run of the pass changes nothing, for every text. */
  lemma {:induction false} KeyValuePassIsIdempotent(t: string)
    ensures KeyValuePass(KeyValuePass(t)) == KeyValuePass(t)
    decreases |t|
  {
    if t != [] {
      var o := KeyValuePass(t);
      if HeadLen(t) == 0 {
        CopyIsStable(t);
        HeadIsLocal(t, o);
        assert o[1..] == KeyValuePass(t[1..]);
        KeyValuePassIsIdempotent(t[1..]);
      } else {
        MaskIsStable(t);
        KeyValuePassIsIdempotent(RestOf(t));
        StepOfMasked(t);
      }
    }
  }

  lemma StepOfMasked(t: string)
    requires HeadLen(t) > 0 && KeyValuePass(KeyValuePass(RestOf(t))) == KeyValuePass(RestOf(t))
    ensures KeyValuePass(KeyValuePass(t)) == KeyValuePass(t)
  {
    var o, c, m := KeyValuePass(t), ValueStart(t), Masked(ValueOf(t));
    hide *;
    MaskIsStable(t);
    MaskStep(o);
    ValueStartsHere(o);
    MaskOfMask(t);
    assert RestOf(o) == KeyValuePass(RestOf(t));
    MaskStep(t);
  }

  lemma MaskOfMask(t: string)
    requires HeadLen(t) > 0 && HeadLen(KeyValuePass(t)) > 0
    requires ValueOf(KeyValuePass(t)).open == ValueOf(t).open && ValueOf(KeyValuePass(t)).close == ValueOf(t).close
    ensures Masked(ValueOf(KeyValuePass(t))) == Masked(ValueOf(t))
  {
    hide HeadLen, KeyValuePass, ValueOf;
  }

  // ---- no sensitive key keeps its value --------------------------------------

  const QUOTED_MARKER: string := "\"" + MARKER

  /** `u` starts with a whole value that is the marker, bare or in quotes. */
  predicate IsMasked(u: string) {
    || (MARKER <= u && (u[10..] == [] || !Is(ValueChar, u[10..][0])))
    || (QUOTED_MARKER <= u && (u[11..] == [] || u[11..][0] == '"'))
  }

  /** If a sensitive key with its separator starts `t`, quoted or not, its value is masked. */
  predicate FrontIsMasked(t: string) {
    HeadLen(t) > 0 ==> IsMasked(t[ValueStart(t)..])
  }

  predicate EndsInMask(x: string) { |x| >= 11 && x[|x| - 11..] == QUOTED_MARKER }

  /** The quote at position `p` of `s` may be the closing quote of a masked value; `front` is the text before `s`. */
  predicate MayClose(front: string, s: string, p: nat)
    requires p <= |s|
  {
    "\"" <= s[p..] && EndsInMask(front + s[..p])
  }

  /**
   * Wherever a sensitive key with its separator stands in `s`, its value is masked, unless the
   * key starts at the closing quote of a masked value.
   */
  ghost predicate KeysMasked(front: string, s: string) {
    forall p | 0 <= p <= |s| && !MayClose(front, s, p) :: FrontIsMasked(s[p..])
  }

  lemma ClosesBehind(front: string, s: string, n: nat, p: nat)
    requires n + p <= |s|
    ensures MayClose(front + s[..n], s[n..], p) == MayClose(front, s, n + p)
  {
    hide EndsInMask;
    Suffixes(s, n, n + p, p);
    assert front + s[..n] + s[n..][..p] == front + s[..n + p];
  }

  lemma KeysMaskedBehind(front: string, s: string, n: nat)
    requires KeysMasked(front, s) && n <= |s|
    ensures KeysMasked(front + s[..n], s[n..])
  {
    hide FrontIsMasked, MayClose;
    var u := s[n..];
    forall p | 0 <= p <= |u| && !MayClose(front + s[..n], u, p)
      ensures FrontIsMasked(u[p..])
    {
      Suffixes(s, n, n + p, p);
      ClosesBehind(front, s, n, p);
    }
  }

  /** The text in front only ever excuses a key. */
  lemma KeysMaskedAfter(a: string, b: string, s: string)
    requires KeysMasked(a, s)
    requires forall p | 0 <= p <= |s| && MayClose(a, s, p) :: MayClose(b, s, p)
    ensures KeysMasked(b, s)
  {
    hide FrontIsMasked, MayClose;
  }

  lemma EndsInSuffix(a: string, b: string)
    requires EndsInMask(b)
    ensures EndsInMask(a + b)
  {
    assert (a + b)[|a + b| - 11..] == b[|b| - 11..];
  }

  /** Without any text in front the least is excused. */
  lemma KeysMaskedAlone(front: string, s: string)
    requires KeysMasked([], s)
    ensures KeysMasked(front, s)
  {
    hide KeysMasked, EndsInMask;
    forall p | 0 <= p <= |s| && MayClose([], s, p)
      ensures MayClose(front, s, p)
    {
      assert [] + s[..p] == s[..p];
      EndsInSuffix(front, s[..p]);
    }
    KeysMaskedAfter([], front, s);
  }

  /** A word that runs into something other than a blank or a separator is no key. */
  lemma NoKeyInWord(w: string, z: string, p: nat)
    requires p < |w| && z != []
    requires !IsKeyContinue(z[0]) && !IsSpace(z[0]) && !IsSeparator(z[0])
    requires forall i | 0 <= i < |w| :: IsKeyContinue(w[i])
    ensures HeadLen((w + z)[p..]) == 0
  {
    hide IsSensitiveKey;
    var t := (w + z)[p..];
    RunIs(KeyChar, t, |w| - p);
    RunIs(Blank, t[|w| - p..], 0);
  }

  lemma MarkerParts(z: string, p: nat)
    requires p < |MARKER|
    ensures (MARKER + z)[p..][0] == MARKER[p]
    ensures 0 < p < 9 ==> (MARKER + z)[p..] == ("redacted" + (">" + z))[p - 1..]
  {
    var w, y := "redacted", ">" + z;
    assert MARKER == "<" + w + ">";
    assert MARKER + z == "<" + (w + y);
  }

  lemma NoKeyInMarker(z: string, p: nat)
    requires p < |MARKER|
    ensures HeadLen((MARKER + z)[p..]) == 0
  {
    hide IsSensitiveKey, KeyText, Run;
    MarkerParts(z, p);
    if 0 < p < 9 {
      NoKeyInWord("redacted", ">" + z, p - 1);
    }
  }

  lemma NoKeyInMask(v: Value, z: string, p: nat)
    requires v.open in ["", "\""] && v.close in ["", v.open]
    requires p < |Masked(v)|
    ensures var o := Masked(v) + z; !MayClose([], o, p) ==> HeadLen(o[p..]) == 0
  {
    hide HeadLen, MayClose;
    if p < |v.open| {
      NoKeyAtOpening(v.close + z);
      assert Masked(v) + z == "\"" + (MARKER + (v.close + z));
    } else if p < |v.open| + 10 {
      assert (Masked(v) + z)[p..] == (MARKER + (v.close + z))[p - |v.open|..];
      NoKeyInMarker(v.close + z, p - |v.open|);
    } else {
      ClosesAt(z);
      assert Masked(v) + z == QUOTED_MARKER + ("\"" + z);
    }
  }

  lemma NoKeyAtOpening(z: string)
    ensures HeadLen(("\"" + (MARKER + z))[0..]) == 0
  {
    hide HeadLen;
    var t := "\"" + (MARKER + z);
    assert t[0..] == t && t[1] == '<';
    QuoteAlone(t);
  }

  lemma ClosesAt(z: string)
    ensures MayClose([], QUOTED_MARKER + ("\"" + z), 11)
  {
    var o := QUOTED_MARKER + ("\"" + z);
    assert o[11..] == "\"" + z && [] + o[..11] == QUOTED_MARKER;
  }

  /** A quote in front of something that starts no key is no key. */
  lemma QuoteAlone(t: string)
    requires t != [] && t[0] == '"' && (|t| > 1 ==> !IsKeyStart(t[1]))
    ensures HeadLen(t) == 0
  {
  }

  /** Where the parts of a head lie: its key from `q` on, its blanks, its separator. */
  lemma HeadParts(t: string) returns (q: nat, k: nat, b: nat)
    requires HeadLen(t) > 0
    ensures q == if t[0] == '"' then 1 else 0
    ensures k == Run(KeyChar, t[q..]) > 0 && b == q + k + q <= HeadLen(t) - 1 < |t|
    ensures HeadLen(t) - 1 == b + Run(Blank, t[b..]) && IsSeparator(t[HeadLen(t) - 1])
    ensures q == 1 ==> t[q + k] == '"'
  {
    hide IsSensitiveKey, KeyText, Run;
    q := if t[0] == '"' then 1 else 0;
    k := Run(KeyChar, t[q..]);
    b := q + k + q;
    assert t[0..] == t;
    KeyStarts(t);
  }

  lemma KeyStarts(t: string)
    requires HeadLen(t) > 0
    ensures t[0] != '"' ==> Run(KeyChar, t) > 0
    ensures t[0] == '"' ==> |t| > 1 && Run(KeyChar, t[1..]) > 0
  {
    hide IsSensitiveKey, KeyText;
  }

  lemma RunSuffix(k: CharClass, t: string, p: nat)
    requires p <= Run(k, t)
    ensures Run(k, t[p..]) == Run(k, t) - p
  {
    forall i | 0 <= i < Run(k, t) - p
      ensures Is(k, t[p..][i])
    {
      assert t[p..][i] == t[p + i];
    }
    RunIs(k, t[p..], Run(k, t) - p);
  }

  /** The only key characters of a head are those of its key. */
  lemma KeyCharsOfHead(t: string, p: nat) returns (q: nat, k: nat, b: nat)
    requires HeadLen(t) > 0 && p < ValueStart(t) && IsKeyContinue(t[p])
    ensures q <= p < q + k <= b && b <= HeadLen(t) - 1 < |t|
    ensures q == (if t[0] == '"' then 1 else 0) && b == q + k + q && (q == 1 ==> t[q + k] == '"')
    ensures k == Run(KeyChar, t[q..]) && HeadLen(t) - 1 == b + Run(Blank, t[b..])
  {
    hide HeadLen, KeyEnd, Run;
    q, k, b := HeadParts(t);
    RunExcludes(Blank, t, HeadLen(t), p);
    RunExcludes(Blank, t, b, p);
  }

  lemma RunExcludes(k: CharClass, t: string, a: nat, p: nat)
    requires a <= |t| && p < |t| && !Is(k, t[p])
    ensures p < a || a + Run(k, t[a..]) <= p
  {
    if a <= p {
      assert t[a..][p - a] == t[p];
    }
  }

  lemma KeyedFront(t: string)
    requires HeadLen(t) > 0 && t[0] != '"'
    ensures IsKeyContinue(t[0])
  {
  }

  /** Inside a head, a shorter key ends at the same separator. */
  lemma HeadSuffix(t: string, p: nat)
    requires HeadLen(t) > 0 && p < ValueStart(t) && t[p] != '"' && HeadLen(t[p..]) > 0
    ensures p + HeadLen(t[p..]) == HeadLen(t) && p + ValueStart(t[p..]) == ValueStart(t)
  {
    var u, h := t[p..], HeadLen(t);
    KeyedFront(u);
    var q, k, b := KeyCharsOfHead(t, p);
    var q', k', b' := KeyCharsOfHead(u, 0);
    hide HeadLen, KeyEnd, Run, IsKeyContinue;
    Suffixes(t, q, p, p - q);
    RunSuffix(KeyChar, t[q..], p - q);
    HeadSuffixBlank(t, p, q, k, b);
    Suffixes(t, p, b, b');
    Suffixes(t, p, h, HeadLen(u));
  }

  /** The shorter key cannot be inside quotes: its separator would have to be the closing one. */
  lemma HeadSuffixBlank(t: string, p: nat, q: nat, k: nat, b: nat)
    requires HeadLen(t) > 0 && p < |t| && t[p] != '"' && HeadLen(t[p..]) > 0
    requires b == q + k + q <= |t| && p < q + k < |t| && Run(KeyChar, t[p..]) == q + k - p
    requires q <= 1 && (q == 1 ==> t[q + k] == '"')
    ensures q == 0
  {
    hide HeadLen, Run;
    KeyRunsIntoNoQuote(t[p..]);
    assert t[p..][q + k - p] == t[q + k];
  }

  lemma KeyRunsIntoNoQuote(t: string)
    requires HeadLen(t) > 0 && t[0] != '"'
    ensures Run(KeyChar, t) < |t| && t[Run(KeyChar, t)] != '"'
  {
    hide HeadLen, KeyEnd, Run;
    var q, k, b := HeadParts(t);
    assert t[0..] == t;
    assert Run(Blank, t[b..]) > 0 ==> t[b..][0] == t[b];
  }

  /** Nor does a key start at the closing quote of the key in a head. */
  lemma HeadQuote(t: string, p: nat)
    requires HeadLen(t) > 0 && 0 < p < ValueStart(t) && t[p] == '"'
    ensures HeadLen(t[p..]) == 0
  {
    hide HeadLen, KeyEnd, Run;
    var q, k, b := HeadParts(t);
    var h := HeadLen(t);
    RunExcludes(Blank, t, h, p);
    RunExcludes(Blank, t, b, p);
    RunExcludes(KeyChar, t, q, p);
    assert p == q + k && b == p + 1;
    var u := t[p..];
    assert u[1] == t[b];
    assert b < h - 1 ==> t[b] == t[b..][0];
    QuoteAlone(u);
  }

  lemma MaskedFrom(front: string, s: string, n: nat)
    requires n <= |s| && KeysMasked(front + s[..n], s[n..])
    requires forall p | 0 <= p < n && !MayClose(front, s, p) :: FrontIsMasked(s[p..])
    ensures KeysMasked(front, s)
  {
    hide FrontIsMasked, MayClose;
    forall p | 0 <= p <= |s| && !MayClose(front, s, p)
      ensures FrontIsMasked(s[p..])
    {
      if n <= p {
        Suffixes(s, n, p, p - n);
        ClosesBehind(front, s, n, p - n);
      }
    }
  }

  /** In the output, the value of every sensitive key is masked, but at the closing quote of a mask. */
  lemma {:induction false} KeyValuePassMasksKeys(t: string)
    ensures KeysMasked([], KeyValuePass(t))
    decreases |t|
  {
    hide IsSensitiveKey, KeysMasked;
    if t == [] {
      NothingToMask([]);
    } else if HeadLen(t) == 0 {
      KeyValuePassMasksKeys(t[1..]);
      CopyMasksKeys(t);
    } else {
      KeyValuePassMasksKeys(RestOf(t));
      MaskMasksKeys(t);
    }
  }

  lemma NothingToMask(front: string)
    ensures KeysMasked(front, [])
  {
  }

  lemma CopyMasksKeys(t: string)
    requires t != [] && HeadLen(t) == 0 && KeysMasked([], KeyValuePass(t[1..]))
    ensures KeysMasked([], KeyValuePass(t))
  {
    hide KeyValuePass, HeadLen, KeysMasked, ValueStart, IsMasked, MayClose;
    var o := KeyValuePass(t);
    CopyStep(t);
    CopyIsStable(t);
    HeadIsLocal(t, o);
    assert o[0..] == o && o[1..] == KeyValuePass(t[1..]);
    KeysMaskedAlone([] + o[..1], o[1..]);
    MaskedFrom([], o, 1);
  }

  lemma MaskMasksKeys(t: string)
    requires HeadLen(t) > 0 && KeysMasked([], KeyValuePass(RestOf(t)))
    ensures KeysMasked([], KeyValuePass(t))
  {
    hide *;
    var o, c, m := KeyValuePass(t), ValueStart(t), Masked(ValueOf(t));
    MaskIsStable(t);
    Suffixes(o, c, c + |m|, |m|);
    Splits(o[..c], m, KeyValuePass(RestOf(t)));
    forall p | 0 <= p < c + |m| && !MayClose([], o, p)
      ensures FrontIsMasked(o[p..])
    {
      MaskedFront(t, p);
    }
    KeysMaskedAlone([] + o[..c + |m|], KeyValuePass(RestOf(t)));
    MaskedFrom([], o, c + |m|);
  }

  lemma MaskForms(t: string)
    requires HeadLen(t) > 0
    ensures ValueOf(t).open in ["", "\""] && ValueOf(t).close in ["", ValueOf(t).open]
  {
    ValueShape(t[ValueStart(t)..], IsAuthorization(KeyText(t)));
  }

  /** What the pass writes for a value reads as a whole value. */
  lemma MaskIsWhole(t: string)
    requires HeadLen(t) > 0
    ensures IsMasked(Masked(ValueOf(t)) + KeyValuePass(RestOf(t)))
  {
    hide *;
    var u, v := t[ValueStart(t)..], ValueOf(t);
    ValueStartsHere(t);
    ValueShape(u, IsAuthorization(KeyText(t)));
    FirstStays(RestOf(t));
    FirstBehind(RestOf(t), KeyValuePass(RestOf(t)));
    assert RestOf(t) != [] ==> RestOf(t)[0] == u[v.len];
    WholeMask(v, KeyValuePass(RestOf(t)));
  }

  lemma FirstBehind(r: string, z: string)
    requires AgreeTo(r, z, 0)
    ensures r == [] <==> z == []
    ensures r != [] ==> z[0] == r[0]
  {
  }

  lemma WholeMask(v: Value, z: string)
    requires v.open == "" || v.open == "\""
    requires v.open == "" ==> v.close == "" && (z != [] ==> !Is(ValueChar, z[0]))
    requires v.open != "" ==> v.close == "\"" || (v.close == "" && z == [])
    ensures IsMasked(Masked(v) + z)
  {
    if v.open == "" {
      assert Masked(v) + z == MARKER + z && (MARKER + z)[10..] == z;
    } else {
      var m := QUOTED_MARKER;
      assert Masked(v) + z == m + (v.close + z) && (m + (v.close + z))[11..] == v.close + z;
    }
  }

  lemma NoKeyIsMasked(t: string)
    requires HeadLen(t) == 0
    ensures FrontIsMasked(t)
  {
  }

  lemma MaskedFront(t: string, p: nat)
    requires HeadLen(t) > 0 && p < ValueStart(t) + |Masked(ValueOf(t))|
    requires p <= |KeyValuePass(t)| && !MayClose([], KeyValuePass(t), p)
    ensures FrontIsMasked(KeyValuePass(t)[p..])
  {
    hide *;
    MaskIsStable(t);
    MaskForms(t);
    var o, c, v := KeyValuePass(t), ValueStart(t), ValueOf(t);
    var m, z := Masked(v), KeyValuePass(RestOf(t));
    if p < c {
      MaskIsWhole(t);
      HeadFront(o, p);
    } else {
      Suffixes(o, c, p, p - c);
      NotClosingBehind(o, c, p);
      NoKeyInMask(v, z, p - c);
      NoKeyIsMasked(o[p..]);
    }
  }

  lemma NotClosingBehind(o: string, c: nat, p: nat)
    requires c <= p <= |o| && !MayClose([], o, p)
    ensures !MayClose([], o[c..], p - c)
  {
    hide EndsInMask;
    Suffixes(o, c, p, p - c);
    var a, b := o[..c], o[c..][..p - c];
    assert [] + o[..p] == a + b && [] + b == b;
    if EndsInMask(b) {
      EndsInSuffix(a, b);
    }
  }

  /** Every key inside a head has the value of the head. */
  lemma HeadFront(t: string, p: nat)
    requires HeadLen(t) > 0 && p < ValueStart(t)
    requires IsMasked(t[ValueStart(t)..])
    ensures FrontIsMasked(t[p..])
  {
    hide HeadLen, ValueStart, IsMasked;
    if p == 0 {
      assert t[0..] == t;
    } else if t[p] == '"' {
      HeadQuote(t, p);
    } else if HeadLen(t[p..]) > 0 {
      HeadSuffix(t, p);
      Suffixes(t, p, ValueStart(t), ValueStart(t) - p);
    }
  }
}
