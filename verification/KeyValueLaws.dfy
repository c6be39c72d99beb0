/** What the key/value pass guarantees of its output. */
module KeyValueLaws {
  import opened Text
  import opened Redaction
  import opened KeyValues

  // ---- how far a step looks -------------------------------------------------

  /** The end of the key characters at the front of `t` and of the blanks behind them. */
  function WordLook(t: string): (d: nat)
    ensures d <= |t|
  {
    var k := Run(KeyChar, t);
    k + Run(Blank, t[k..])
  }

  /** The last position that decides whether a sensitive key stands at the front of `t`. */
  function Look(t: string): (d: nat)
    ensures d <= |t|
  {
    if t == [] then 0
    else if IsKeyStart(t[0]) then WordLook(t)
    else if t[0] != '"' then 0
    else if |t| == 1 || !IsKeyStart(t[1]) then 1
    else
      var e := 1 + Run(KeyChar, t[1..]);
      if e == |t| || t[e] != '"' then e else e + 1 + Run(Blank, t[e + 1..])
  }

  lemma AgreeLess(t: string, u: string, d: nat, e: nat)
    requires AgreeTo(t, u, d) && e <= d
    ensures AgreeTo(t, u, e)
  {
    assert t[..e] == t[..d][..e] && u[..e] == u[..d][..e];
    if e < d {
      assert t[e] == t[..d][e] && u[e] == u[..d][e];
    }
  }

  lemma AgreeMore(w: string, t: string, u: string, d: nat)
    requires AgreeTo(t, u, d)
    ensures AgreeTo(w + t, w + u, |w| + d)
  {
    assert (w + t)[..|w| + d] == w + t[..d] && (w + u)[..|w| + d] == w + u[..d];
  }

  lemma AgreeBehind(t: string, o: string, n: nat, z: string, d: nat)
    requires n <= |t| && o == t[..n] + z && AgreeTo(t[n..], z, d)
    ensures AgreeTo(t, o, n + d)
  {
    hide *;
    AgreeMore(t[..n], t[n..], z, d);
    assert t[..n] + t[n..] == t;
  }

  lemma RunAgrees(k: CharClass, t: string, u: string, a: nat, d: nat)
    requires AgreeTo(t, u, d) && a <= d && a + Run(k, t[a..]) <= d
    ensures a <= |u| && Run(k, u[a..]) == Run(k, t[a..])
  {
    var n := Run(k, t[a..]);
    AgreeLess(t, u, d, a + n);
    forall i | 0 <= i < n
      ensures u[a..][i] == t[a..][i]
    {
      assert t[..a + n][a + i] == u[..a + n][a + i];
    }
    RunIs(k, u[a..], n);
  }

  lemma CharAgrees(t: string, u: string, d: nat, i: nat)
    requires AgreeTo(t, u, d) && i <= d
    ensures i < |t| <==> i < |u|
    ensures i < |t| ==> t[i] == u[i]
  {
    AgreeLess(t, u, d, i);
  }

  lemma KeyIsLocal(t: string, u: string)
    requires AgreeTo(t, u, Look(t))
    ensures KeyEnd(u) == KeyEnd(t) && KeyEnd(t) <= Look(t)
    ensures KeyEnd(t) > 0 ==> KeyText(u) == KeyText(t)
    ensures KeyEnd(t) > 0 ==> Look(t) == KeyEnd(t) + Run(Blank, t[KeyEnd(t)..])
  {
    hide Run;
    var d := Look(t);
    CharAgrees(t, u, d, 0);
    if t != [] {
      if IsKeyStart(t[0]) {
        KeyStartRuns(t);
        assert t[0..] == t && u[0..] == u;
        RunAgrees(KeyChar, t, u, 0, d);
        AgreeLess(t, u, d, KeyEnd(t));
      } else if t[0] == '"' {
        CharAgrees(t, u, d, 1);
        if |t| > 1 && IsKeyStart(t[1]) {
          var e := 1 + Run(KeyChar, t[1..]);
          RunAgrees(KeyChar, t, u, 1, d);
          CharAgrees(t, u, d, e);
          AgreeLess(t, u, d, e);
          assert t[1..e] == t[..e][1..] && u[1..e] == u[..e][1..];
        }
      }
    }
  }

  lemma KeyStartRuns(t: string)
    requires t != [] && IsKeyStart(t[0])
    ensures Run(KeyChar, t) > 0
  {
  }

  /** The decision made at the front of a text depends on nothing beyond `Look`. */
  lemma HeadIsLocal(t: string, u: string)
    requires AgreeTo(t, u, Look(t))
    ensures HeadLen(u) == HeadLen(t)
    ensures HeadLen(t) > 0 ==> HeadLen(t) == Look(t) + 1 && KeyText(u) == KeyText(t)
  {
    hide Run, KeyEnd, Look, KeyText, IsSensitiveKey;
    KeyIsLocal(t, u);
    var e := KeyEnd(t);
    if e > 0 {
      RunAgrees(Blank, t, u, e, Look(t));
      CharAgrees(t, u, Look(t), e + Run(Blank, t[e..]));
    }
  }

  // ---- what a step leaves in place ------------------------------------------

  lemma CopyStep(t: string)
    requires t != [] && HeadLen(t) == 0
    ensures KeyValuePass(t) == [t[0]] + KeyValuePass(t[1..])
  {
  }

  lemma CopyAgrees(t: string, d: nat)
    requires t != [] && HeadLen(t) == 0 && AgreeTo(t[1..], KeyValuePass(t[1..]), d)
    ensures AgreeTo(t, KeyValuePass(t), 1 + d)
  {
    hide KeyValuePass, HeadLen;
    CopyStep(t);
    AgreeMore([t[0]], t[1..], KeyValuePass(t[1..]), d);
    assert [t[0]] + t[1..] == t;
  }

  lemma FirstStays(t: string)
    ensures AgreeTo(t, KeyValuePass(t), 0)
  {
  }

  lemma BlankStarts(t: string)
    requires t != [] && IsSpace(t[0])
    ensures HeadLen(t) == 0 && Run(Blank, t) == 1 + Run(Blank, t[1..])
  {
  }

  lemma NoBlankStarts(t: string)
    requires t == [] || !IsSpace(t[0])
    ensures Run(Blank, t) == 0
  {
  }

  lemma {:induction false} BlanksStay(t: string)
    ensures AgreeTo(t, KeyValuePass(t), Run(Blank, t))
  {
    hide *;
    if t != [] && IsSpace(t[0]) {
      BlankStarts(t);
      BlanksStay(t[1..]);
      CopyAgrees(t, Run(Blank, t[1..]));
    } else {
      NoBlankStarts(t);
      FirstStays(t);
    }
  }

  lemma HeadStays(t: string)
    requires HeadLen(t) > 0
    ensures AgreeTo(t, KeyValuePass(t), Look(t)) && HeadLen(t) == Look(t) + 1
  {
    hide IsSensitiveKey, KeyText, KeyEnd, Look, Run, ValueOf, Masked;
    HeadIsLocal(t, t);
    var o := KeyValuePass(t);
    var c, d := ValueStart(t), Look(t);
    assert o[..c] == t[..c];
    assert t[..d] == t[..c][..d] && o[..d] == o[..c][..d];
    assert t[d] == t[..c][d] == o[..c][d];
  }

  lemma WordLookStep(t: string)
    requires t != []
    ensures IsKeyContinue(t[0]) ==> WordLook(t) == 1 + WordLook(t[1..])
    ensures !IsKeyContinue(t[0]) ==> WordLook(t) == Run(Blank, t)
    ensures IsKeyContinue(t[0]) && HeadLen(t) > 0 ==> Look(t) == WordLook(t)
  {
    var k := Run(KeyChar, t);
    if k > 0 {
      assert t[k..] == t[1..][k - 1..];
    } else {
      assert t[0..] == t;
    }
  }

  lemma {:induction false} WordStays(t: string)
    ensures AgreeTo(t, KeyValuePass(t), WordLook(t))
  {
    hide KeyValuePass, HeadLen, Look, WordLook, Run;
    if t == [] {
      FirstStays(t);
    } else {
      WordLookStep(t);
      if !IsKeyContinue(t[0]) {
        BlanksStay(t);
      } else if HeadLen(t) > 0 {
        HeadStays(t);
      } else {
        WordStays(t[1..]);
        CopyAgrees(t, WordLook(t[1..]));
      }
    }
  }

  /** No head starts in key characters that run into a quote. */
  lemma NoHeadBeforeQuote(t: string)
    requires var k := Run(KeyChar, t); 0 < k < |t| && t[k] == '"'
    ensures HeadLen(t) == 0
    ensures Run(KeyChar, t[1..]) == Run(KeyChar, t) - 1
  {
    hide IsSensitiveKey, KeyText;
    assert Run(Blank, t[Run(KeyChar, t)..]) == 0;
  }

  /** Key characters that run into a quote are copied, and the scan stops at the quote. */
  lemma {:induction false} QuotedWordStays(t: string)
    requires var k := Run(KeyChar, t); k < |t| && t[k] == '"'
    ensures var k := Run(KeyChar, t); KeyValuePass(t) == t[..k] + KeyValuePass(t[k..])
  {
    hide KeyValuePass, HeadLen, Run;
    var k := Run(KeyChar, t);
    if k == 0 {
      assert t[0..] == t && t[..0] == [];
    } else {
      NoHeadBeforeQuote(t);
      CopyStep(t);
      var u := t[1..];
      assert u[k - 1..] == t[k..];
      QuotedWordStays(u);
      assert [t[0]] + u[..k - 1] == t[..k];
    }
  }

  lemma QuoteAndBlanksStay(t: string)
    requires t != [] && t[0] == '"'
    ensures AgreeTo(t, KeyValuePass(t), 1 + Run(Blank, t[1..]))
  {
    if HeadLen(t) > 0 {
      hide IsSensitiveKey, AgreeTo, KeyValuePass;
      HeadStays(t);
      AgreeLess(t, KeyValuePass(t), Look(t), 1);
    } else {
      hide *;
      BlanksStay(t[1..]);
      CopyAgrees(t, Run(Blank, t[1..]));
    }
  }

  /** All of a quoted word but its closing quote is copied where it is no key. */
  lemma QuotedKeyIsCopied(t: string)
    requires |t| > 1 && t[0] == '"' && HeadLen(t) == 0
    requires var k := Run(KeyChar, t[1..]); k + 1 < |t| && t[k + 1] == '"'
    ensures var k := Run(KeyChar, t[1..]); KeyValuePass(t) == t[..k + 1] + KeyValuePass(t[k + 1..])
  {
    hide *;
    var k := Run(KeyChar, t[1..]);
    CopyStep(t);
    QuotedWordStays(t[1..]);
    Regroup(t, k, KeyValuePass(t[k + 1..]));
  }

  lemma Regroup(t: string, k: nat, z: string)
    requires k + 1 < |t|
    ensures [t[0]] + (t[1..][..k] + z) == t[..k + 1] + z && t[1..][k..] == t[k + 1..]
  {
    assert [t[0]] + t[1..][..k] == t[..k + 1];
  }

  lemma QuotedKeyStays(t: string)
    requires |t| > 1 && t[0] == '"' && HeadLen(t) == 0
    requires var k := Run(KeyChar, t[1..]); k + 1 < |t| && t[k + 1] == '"'
    ensures var k := Run(KeyChar, t[1..]); AgreeTo(t, KeyValuePass(t), k + 2 + Run(Blank, t[k + 2..]))
  {
    hide *;
    var n := Run(KeyChar, t[1..]) + 1;
    QuotedKeyIsCopied(t);
    var w := t[n..];
    QuoteAndBlanksStay(w);
    AgreeBehind(t, KeyValuePass(t), n, KeyValuePass(w), 1 + Run(Blank, w[1..]));
    Suffixes(t, n, n + 1, 1);
  }

  /** Where a step copies a character, masking the rest leaves all it looked at in place. */
  lemma CopyIsStable(t: string)
    requires t != [] && HeadLen(t) == 0
    ensures AgreeTo(t, KeyValuePass(t), Look(t))
  {
    hide KeyValuePass, HeadLen, Run, WordLook;
    var u := t[1..];
    if IsKeyStart(t[0]) {
      WordStays(t);
    } else if t[0] != '"' {
      FirstStays(t);
    } else if |t| == 1 || !IsKeyStart(t[1]) {
      FirstStays(u);
      CopyAgrees(t, 0);
    } else {
      var k := Run(KeyChar, u);
      if k == |u| || u[k] != '"' {
        WordStays(u);
        WordLookReach(u);
        CopyAgrees(t, WordLook(u));
        AgreeLess(t, KeyValuePass(t), 1 + WordLook(u), 1 + k);
      } else {
        QuotedKeyStays(t);
      }
    }
  }

  lemma WordLookReach(t: string)
    ensures Run(KeyChar, t) <= WordLook(t)
  {
  }
}
