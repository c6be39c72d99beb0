/** What the credential and link passes guarantee, and what each leaves of the work done before it. */
module BoundaryLaws {
  import opened Text
  import opened Redaction
  import opened KeyValues
  import opened KeyValueLaws
  import opened KeyValueTheorems
  import opened BoundaryPasses

  /** The text behind the first step at a trigger word, and whether a word may start there. */
  function Tail(kind: Kind, t: string): string {
    t[Kept(kind, t) + Dropped(kind, t)..]
  }

  function TailBoundary(kind: Kind, t: string): bool {
    BoundaryAt(true, t, Kept(kind, t) + Dropped(kind, t))
  }

  /** `Pass` at a trigger word, without positions. */
  lemma TriggerStep(kind: Kind, t: string)
    requires Trigger(kind, t) > 0
    ensures |Tail(kind, t)| < |t|
    ensures Pass(kind, true, t) ==
      t[..Kept(kind, t)] + MaskOf(Dropped(kind, t)) + Pass(kind, TailBoundary(kind, t), Tail(kind, t))
  {
    hide Trigger, Kept, Dropped;
    MatchStep(kind, t);
  }

  // ---- both are redactions -----------------------------------------------------

  lemma {:induction false} PassRedacts(kind: Kind, before: bool, t: string)
    ensures IsRedaction(t, Pass(kind, before, t))
    decreases |t|
  {
    if t == [] {
      NothingIsCut();
    } else if before && Trigger(kind, t) > 0 {
      TriggerStep(kind, t);
      PassRedacts(kind, TailBoundary(kind, t), Tail(kind, t));
      TriggerRedacts(kind, t);
    } else {
      PassRedacts(kind, BoundaryAt(true, t, 1), t[1..]);
      PassStep(kind, before, t);
      KeepOne(t[0], t[1..], Pass(kind, BoundaryAt(true, t, 1), t[1..]));
      assert [t[0]] + t[1..] == t;
    }
  }

  lemma TriggerRedacts(kind: Kind, t: string)
    requires Trigger(kind, t) > 0
    requires IsRedaction(Tail(kind, t), Pass(kind, TailBoundary(kind, t), Tail(kind, t)))
    ensures IsRedaction(t, Pass(kind, true, t))
  {
    hide IsRedaction, Trigger, Kept, Dropped, Pass, TailBoundary;
    var k, n := Kept(kind, t), Dropped(kind, t);
    var z := Pass(kind, TailBoundary(kind, t), Tail(kind, t));
    TriggerStep(kind, t);
    if n > 0 {
      CutOne(t[k..k + n], t[k + n..], z);
      assert t[k..k + n] + t[k + n..] == t[k..];
    } else {
      assert MaskOf(n) + z == z;
    }
    KeepAll(t[..k], t[k..], MaskOf(n) + z);
    assert t[..k] + t[k..] == t;
    assert t[..k] + (MaskOf(n) + z) == t[..k] + MaskOf(n) + z;
  }

  // ---- what the scan copies unchanged -------------------------------------------

  /** The first character of a trigger word. */
  predicate Starts(kind: Kind, c: char) {
    Lower(c) == match kind case Credentials => 'b' case Links => 'h'
  }

  lemma TriggerStarts(kind: Kind, t: string)
    ensures Trigger(kind, t) > 0 ==> Starts(kind, t[0]) && Is(Masks(kind), t[0])
  {
  }

  /** A character that starts no trigger word is copied. */
  lemma OtherIsCopied(kind: Kind, before: bool, t: string)
    requires t != [] ==> !Starts(kind, t[0])
    ensures t == [] ==> Pass(kind, before, t) == []
    ensures t != [] ==> Pass(kind, before, t) == [t[0]] + Pass(kind, BoundaryAt(true, t, 1), t[1..])
  {
    hide Trigger, Starts;
    TriggerStarts(kind, t);
  }

  lemma {:induction false} WordIsCopied(kind: Kind, before: bool, w: string, t: string)
    requires forall i | 0 <= i < |w| :: !Starts(kind, w[i])
    ensures Pass(kind, before, w + t) == w + Pass(kind, BoundaryAt(before, w, |w|), t)
    decreases |w|
  {
    if w == [] {
      assert w + t == t;
    } else {
      hide Pass, Starts, BoundaryAt;
      WordBoundary(before, w, t);
      OtherIsCopied(kind, before, w + t);
      WordIsCopied(kind, BoundaryAt(true, w, 1), w[1..], t);
      var z := Pass(kind, BoundaryAt(before, w, |w|), t);
      assert [w[0]] + (w[1..] + z) == w + z;
    }
  }

  lemma WordBoundary(before: bool, w: string, t: string)
    requires w != []
    ensures (w + t)[0] == w[0] && (w + t)[1..] == w[1..] + t
    ensures BoundaryAt(true, w + t, 1) == BoundaryAt(true, w, 1)
    ensures BoundaryAt(BoundaryAt(true, w, 1), w[1..], |w| - 1) == BoundaryAt(before, w, |w|)
  {
  }

  lemma MarkerIsCopied(kind: Kind, before: bool, t: string)
    ensures Pass(kind, before, MARKER + t) == MARKER + Pass(kind, true, t)
  {
    hide Pass;
    WordIsCopied(kind, before, MARKER, t);
  }

  /** A masked stretch ends where no trigger word can start, so what comes behind does not look back. */
  predicate Ends(kind: Kind, t: string) { t == [] || !Is(Masks(kind), t[0]) }

  lemma EndStarts(kind: Kind, t: string)
    requires t != [] && Ends(kind, t)
    ensures !Starts(kind, t[0])
  {
  }

  lemma EndLooksNotBack(kind: Kind, a: bool, b: bool, t: string)
    requires Ends(kind, t)
    ensures Pass(kind, a, t) == Pass(kind, b, t)
    ensures Ends(kind, Pass(kind, a, t)) && (t == [] <==> Pass(kind, a, t) == [])
    ensures t != [] ==> Pass(kind, a, t)[0] == t[0]
  {
    hide Pass, Starts;
    if t != [] {
      EndStarts(kind, t);
    }
    OtherIsCopied(kind, a, t);
    OtherIsCopied(kind, b, t);
  }

  lemma TailEnds(kind: Kind, t: string)
    ensures Ends(kind, Tail(kind, t))
  {
    Suffixes(t, Kept(kind, t), Kept(kind, t) + Dropped(kind, t), Dropped(kind, t));
  }

  // ---- both are fixpoints of themselves ------------------------------------------

  lemma TriggerInFront(kind: Kind, w: string, t: string)
    requires Trigger(kind, w) > 0
    ensures Trigger(kind, w + t) > 0
    ensures kind.Credentials? && Trigger(kind, w) == |w| ==> Kept(kind, w + t) == |w|
  {
    var u := w + t;
    assert forall i | 0 <= i < |w| :: u[i] == w[i];
    if kind.Credentials? {
      var basic, bearer := "basic ", "bearer ";
      if StartsWithIgnoreCase(w, basic) {
        assert StartsWithIgnoreCase(u, basic);
      } else {
        assert Lower(w[1]) == bearer[1] && basic[1] == 'a';
        assert StartsWithIgnoreCase(u, bearer);
      }
    } else {
      var http, https := "http://", "https://";
      if StartsWithIgnoreCase(w, https) {
        assert StartsWithIgnoreCase(u, https);
      } else {
        assert StartsWithIgnoreCase(u, http);
      }
    }
  }

  lemma TriggerIsAngleFree(kind: Kind, t: string)
    ensures AngleFree(t[..Trigger(kind, t)])
    ensures Trigger(kind, t[..Trigger(kind, t)]) == Trigger(kind, t)
  {
    var n := Trigger(kind, t);
    var w := t[..n];
    var basic, bearer, http, https := "basic ", "bearer ", "http://", "https://";
    assert forall i | 0 <= i < n :: w[i] == t[i] && Lower(w[i]) != '<' && Lower(w[i]) != '>';
    if kind.Credentials? && n == 7 {
      assert Lower(w[1]) == bearer[1] && basic[1] == 'a';
    }
  }

  /** A redaction with a trigger word at its front had it there before. */
  lemma TriggerWasThere(kind: Kind, t: string, o: string)
    requires IsRedaction(t, o) && Trigger(kind, o) > 0
    ensures Trigger(kind, t) > 0 && Trigger(kind, o) <= |t| && t[..Trigger(kind, o)] == o[..Trigger(kind, o)]
  {
    hide Trigger, IsRedaction;
    var n := Trigger(kind, o);
    TriggerIsAngleFree(kind, o);
    FrontWasThere(t, o, n);
    TriggerInFront(kind, t[..n], t[n..]);
    assert t[..n] + t[n..] == t;
  }

  lemma {:induction false} PassIsIdempotent(kind: Kind, before: bool, t: string)
    ensures Pass(kind, before, Pass(kind, before, t)) == Pass(kind, before, t)
    decreases |t|
  {
    if t != [] {
      hide Trigger, Kept, Dropped, BoundaryAt, Pass, TailBoundary, IsRedaction;
      if before && Trigger(kind, t) > 0 {
        TriggerStep(kind, t);
        PassIsIdempotent(kind, TailBoundary(kind, t), Tail(kind, t));
        MaskedAgain(kind, t);
      } else {
        var o, b := Pass(kind, before, t), BoundaryAt(true, t, 1);
        PassIsIdempotent(kind, b, t[1..]);
        PassStep(kind, before, t);
        PassRedacts(kind, before, t);
        if Trigger(kind, o) > 0 {
          TriggerWasThere(kind, t, o);
        }
        PassStep(kind, before, o);
        assert o[1..] == Pass(kind, b, t[1..]);
        assert BoundaryAt(true, o, 1) == b by { SameBoundary(t, o); }
      }
    } else {
      assert Pass(kind, before, t) == [];
    }
  }

  lemma SameBoundary(t: string, o: string)
    requires t != [] && o != [] && o[0] == t[0]
    ensures BoundaryAt(true, o, 1) == BoundaryAt(true, t, 1)
  {
  }

  /** The result of a step reads as the same step again, with nothing left to mask. */
  lemma MaskedAgain(kind: Kind, t: string)
    requires Trigger(kind, t) > 0
    requires var z := Pass(kind, TailBoundary(kind, t), Tail(kind, t)); Pass(kind, TailBoundary(kind, t), z) == z
    ensures Pass(kind, true, Pass(kind, true, t)) == Pass(kind, true, t)
  {
    hide *;
    var b := TailBoundary(kind, t);
    var z := Pass(kind, b, Tail(kind, t));
    TailEnds(kind, t);
    EndLooksNotBack(kind, b, b, Tail(kind, t));
    EndLooksNotBack(kind, b, true, z);
    if kind.Links? {
      LinkStep(t);
      MarkerIsCopied(kind, true, z);
    } else {
      SchemeStep(t);
      SchemeAgain(t, z);
    }
  }

  lemma LinkStep(t: string)
    requires Trigger(Links, t) > 0
    ensures Pass(Links, true, t) == MARKER + Pass(Links, TailBoundary(Links, t), Tail(Links, t))
    ensures |Tail(Links, t)| < |t|
  {
    TriggerStep(Links, t);
    StepAdvances(Links, t);
    hide Pass, LinkLen, Run, Tail, TailBoundary;
    var z := Pass(Links, TailBoundary(Links, t), Tail(Links, t));
    assert t[..0] + MARKER + z == MARKER + z;
  }

  lemma SchemeStep(t: string)
    requires Trigger(Credentials, t) > 0
    ensures SchemeLen(t) > 0
    ensures Pass(Credentials, true, t) ==
      t[..SchemeLen(t)] + MaskOf(Dropped(Credentials, t))
      + Pass(Credentials, TailBoundary(Credentials, t), Tail(Credentials, t))
  {
    hide Pass, SchemeLen, Run, Tail, TailBoundary, Dropped;
    TriggerStep(Credentials, t);
  }

  lemma SchemeAgain(t: string, z: string)
    requires SchemeLen(t) > 0 && Ends(Credentials, z) && Pass(Credentials, true, z) == z
    ensures var o := t[..SchemeLen(t)] + MaskOf(Dropped(Credentials, t)) + z; Pass(Credentials, true, o) == o
  {
    hide Pass, Run;
    var k, n := SchemeLen(t), Dropped(Credentials, t);
    var m := MaskOf(n);
    var o := t[..k] + m + z;
    TriggerIsAngleFree(Credentials, t);
    TriggerInFront(Credentials, t[..k], m + z);
    assert o == t[..k] + (m + z);
    assert o[k..] == m + z;
    MarkerRun(n, z);
    assert Dropped(Credentials, o) == |m|;
    MatchStep(Credentials, o);
    EndLooksNotBack(Credentials, true, BoundaryAt(true, o, k + |m|), z);
    assert o[..k] == t[..k] && o[k + |m|..] == z;
  }

  lemma MarkerRun(n: nat, z: string)
    requires Ends(Credentials, z)
    ensures Run(ValueChar, MaskOf(n) + z) == |MaskOf(n)|
  {
    var u := MaskOf(n) + z;
    assert forall i | 0 <= i < |MaskOf(n)| :: u[i] == MARKER[i];
    RunIs(ValueChar, u, |MaskOf(n)|);
  }
}
