/** What stays true of a text from pass to pass. */
module BoundaryTheorems {
  import opened Text
  import opened Redaction
  import opened KeyValues
  import opened KeyValueLaws
  import opened KeyValueTheorems
  import opened BoundaryPasses
  import opened BoundaryLaws

  // ---- a text the pass would not change -------------------------------------------

  /** If a trigger word starts `t`, it is a scheme whose value is empty or the marker. */
  predicate FrontIsDone(kind: Kind, t: string) {
    Trigger(kind, t) > 0 ==>
      kind.Credentials? && t[Kept(kind, t)..][..Dropped(kind, t)] in ["", MARKER]
  }

  /** So it is wherever a word may start; `before` says whether one may at the front. */
  predicate IsClean(kind: Kind, before: bool, s: string) {
    forall p | 0 <= p <= |s| && BoundaryAt(before, s, p) :: FrontIsDone(kind, s[p..])
  }

  lemma CleanFront(kind: Kind, before: bool, s: string)
    requires IsClean(kind, before, s) && before
    ensures FrontIsDone(kind, s)
  {
    assert s[0..] == s && BoundaryAt(before, s, 0);
  }

  lemma CleanBehind(kind: Kind, before: bool, s: string, n: nat)
    requires IsClean(kind, before, s) && n <= |s|
    ensures IsClean(kind, BoundaryAt(before, s, n), s[n..])
  {
    hide FrontIsDone;
    var u := s[n..];
    forall p | 0 <= p <= |u| && BoundaryAt(BoundaryAt(before, s, n), u, p)
      ensures FrontIsDone(kind, u[p..])
    {
      Suffixes(s, n, n + p, p);
      assert p > 0 ==> u[p - 1] == s[n + p - 1];
      assert BoundaryAt(before, s, n + p);
    }
  }

  lemma CleanFrom(kind: Kind, before: bool, s: string, n: nat)
    requires n <= |s| && IsClean(kind, BoundaryAt(before, s, n), s[n..])
    requires forall p | 0 <= p < n && BoundaryAt(before, s, p) :: FrontIsDone(kind, s[p..])
    ensures IsClean(kind, before, s)
  {
    hide FrontIsDone;
    var u := s[n..];
    forall p | 0 <= p <= |s| && BoundaryAt(before, s, p)
      ensures FrontIsDone(kind, s[p..])
    {
      if n <= p {
        Suffixes(s, n, p, p - n);
        assert p > n ==> u[p - n - 1] == s[p - 1];
        assert BoundaryAt(BoundaryAt(before, s, n), u, p - n);
      }
    }
  }

  /** The look-back at the front does not matter where no trigger word starts. */
  lemma CleanEitherWay(kind: Kind, a: bool, b: bool, s: string)
    requires IsClean(kind, a, s) && Trigger(kind, s) == 0
    ensures IsClean(kind, b, s)
  {
    hide Trigger, FrontIsDone;
    forall p | 0 <= p <= |s| && BoundaryAt(b, s, p)
      ensures FrontIsDone(kind, s[p..])
    {
      if p == 0 {
        assert s[0..] == s;
        NoTriggerIsDone(kind, s);
      } else {
        assert BoundaryAt(a, s, p);
      }
    }
  }

  lemma NoTriggerIsDone(kind: Kind, s: string)
    requires Trigger(kind, s) == 0
    ensures FrontIsDone(kind, s)
  {
  }

  /** Nothing that starts no trigger word is left to do. */
  lemma OtherIsDone(kind: Kind, t: string)
    requires t != [] ==> !Starts(kind, t[0])
    ensures FrontIsDone(kind, t) && Trigger(kind, t) == 0
  {
    TriggerStarts(kind, t);
  }

  /** The pass leaves a text alone exactly when the text is clean. */
  lemma {:induction false} CleanIsFixed(kind: Kind, before: bool, s: string)
    ensures Pass(kind, before, s) == s <==> IsClean(kind, before, s)
    decreases |s|
  {
    hide Trigger, Kept, Dropped, Pass, FrontIsDone, BoundaryAt;
    if s == [] {
      OtherIsCopied(kind, before, s);
      OtherIsDone(kind, s);
    } else if before && Trigger(kind, s) > 0 {
      TriggerStep(kind, s);
      CleanIsFixed(kind, TailBoundary(kind, s), Tail(kind, s));
      TriggerIsFixed(kind, s);
    } else {
      var b := BoundaryAt(true, s, 1);
      CleanIsFixed(kind, b, s[1..]);
      PassStep(kind, before, s);
      assert [s[0]] + s[1..] == s;
      assert Pass(kind, before, s)[1..] == Pass(kind, b, s[1..]);
      CopyIsClean(kind, before, s);
    }
  }

  lemma CopyIsClean(kind: Kind, before: bool, s: string)
    requires s != [] && !(before && Trigger(kind, s) > 0)
    ensures IsClean(kind, before, s) <==> IsClean(kind, BoundaryAt(true, s, 1), s[1..])
  {
    hide Trigger, FrontIsDone;
    if IsClean(kind, before, s) {
      CleanBehind(kind, before, s, 1);
    }
    if IsClean(kind, BoundaryAt(true, s, 1), s[1..]) {
      assert s[0..] == s;
      if before {
        NoTriggerIsDone(kind, s);
      }
      CleanFrom(kind, before, s, 1);
    }
  }

  lemma TriggerIsFixed(kind: Kind, s: string)
    requires Trigger(kind, s) > 0
    requires Pass(kind, TailBoundary(kind, s), Tail(kind, s)) == Tail(kind, s)
      <==> IsClean(kind, TailBoundary(kind, s), Tail(kind, s))
    ensures Pass(kind, true, s) == s <==> IsClean(kind, true, s)
  {
    if kind.Links? {
      hide Trigger, Pass;
      LinkStep(s);
      TriggerStarts(kind, s);
      if IsClean(kind, true, s) {
        CleanFront(kind, true, s);
      }
    } else {
      SchemeIsFixed(s);
    }
  }

  lemma SchemeIsFixed(s: string)
    requires Trigger(Credentials, s) > 0
    requires Pass(Credentials, TailBoundary(Credentials, s), Tail(Credentials, s)) == Tail(Credentials, s)
      <==> IsClean(Credentials, TailBoundary(Credentials, s), Tail(Credentials, s))
    ensures Pass(Credentials, true, s) == s <==> IsClean(Credentials, true, s)
  {
    hide *;
    var k, n, b, r := SchemeLen(s), Dropped(Credentials, s), TailBoundary(Credentials, s), Tail(Credentials, s);
    var v, z := SchemeValue(s), Pass(Credentials, b, r);
    SchemeStep(s);
    SchemeSplit(s);
    TailEnds(Credentials, s);
    EndLooksNotBack(Credentials, b, b, r);
    MarkerRun(n, z);
    SchemeParts(s[..k], v, MaskOf(n), r, z);
    if IsClean(Credentials, true, s) {
      CleanFront(Credentials, true, s);
      CleanScheme(s);
    }
    if v == MaskOf(n) && IsClean(Credentials, b, r) {
      SchemeIsClean(s, v);
    }
  }

  function SchemeValue(s: string): string {
    s[SchemeLen(s)..][..Dropped(Credentials, s)]
  }

  lemma SchemeSplit(s: string)
    requires Trigger(Credentials, s) > 0
    ensures s == s[..SchemeLen(s)] + SchemeValue(s) + Tail(Credentials, s)
    ensures Run(ValueChar, SchemeValue(s) + Tail(Credentials, s)) == |SchemeValue(s)|
    ensures SchemeLen(s) > 0
  {
    hide Run, SchemeLen;
    assert s[SchemeLen(s)..] == SchemeValue(s) + Tail(Credentials, s);
  }

  lemma CleanScheme(s: string)
    requires Trigger(Credentials, s) > 0 && IsClean(Credentials, true, s) && FrontIsDone(Credentials, s)
    ensures SchemeValue(s) == MaskOf(Dropped(Credentials, s))
    ensures IsClean(Credentials, TailBoundary(Credentials, s), Tail(Credentials, s))
  {
    hide IsClean, SchemeLen, Run;
    CleanBehind(Credentials, true, s, SchemeLen(s) + Dropped(Credentials, s));
    EmptyOrMarker(SchemeValue(s), Dropped(Credentials, s));
  }

  lemma EmptyOrMarker(v: string, n: nat)
    requires |v| == n && v in ["", MARKER]
    ensures v == MaskOf(n)
  {
  }

  /** Two texts behind the same scheme are equal just when their values and their rests are. */
  lemma SchemeParts(a: string, v: string, m: string, r: string, z: string)
    requires Run(ValueChar, v + r) == |v| && Run(ValueChar, m + z) == |m|
    ensures a + v + r == a + m + z <==> v == m && r == z
  {
    hide Run;
    if a + v + r == a + m + z {
      assert v + r == (a + v + r)[|a|..] && m + z == (a + m + z)[|a|..];
      assert v == (v + r)[..|v|] && r == (v + r)[|v|..];
      assert m == (m + z)[..|m|] && z == (m + z)[|m|..];
    }
  }

  /** Inside a scheme and the marker behind it no other trigger word can start. */
  lemma SchemeIsClean(s: string, v: string)
    requires SchemeLen(s) > 0 && SchemeValue(s) == v && v in ["", MARKER]
    requires IsClean(Credentials, TailBoundary(Credentials, s), Tail(Credentials, s))
    ensures IsClean(Credentials, true, s)
  {
    hide IsClean, FrontIsDone, Run;
    var k, n := SchemeLen(s), Dropped(Credentials, s);
    forall p | 0 <= p < k + n && BoundaryAt(true, s, p)
      ensures FrontIsDone(Credentials, s[p..])
    {
      if p == 0 {
        assert s[0..] == s;
        SchemeIsDone(s, v);
      } else {
        InsideScheme(s, v, p);
        OtherIsDone(Credentials, s[p..]);
      }
    }
    CleanFrom(Credentials, true, s, k + n);
  }

  lemma SchemeIsDone(s: string, v: string)
    requires SchemeLen(s) > 0 && SchemeValue(s) == v && v in ["", MARKER]
    ensures FrontIsDone(Credentials, s)
  {
  }

  lemma InsideScheme(s: string, v: string, p: nat)
    requires SchemeLen(s) > 0 && SchemeValue(s) == v && v in ["", MARKER]
    requires 0 < p < SchemeLen(s) + Dropped(Credentials, s) && BoundaryAt(true, s, p)
    ensures !Starts(Credentials, s[p])
  {
    hide Run;
    var k := SchemeLen(s);
    SchemeIsLetters(s);
    assert k <= p && s[p] == SchemeValue(s)[p - k] == MARKER[p - k];
  }

  lemma SchemeIsLetters(s: string)
    requires SchemeLen(s) > 0
    ensures forall i | 0 <= i < SchemeLen(s) - 1 :: IsLetter(s[i])
    ensures s[SchemeLen(s) - 1] == ' '
  {
    assert forall i | 0 <= i < SchemeLen(s) - 1 :: 'a' <= Lower(s[i]) <= 'z';
  }

  // ---- what a piece of output says of the input --------------------------------------

  /** Where the scan was when it had written a piece of output. */
  datatype Where = AtScan(before: bool) | AtMask | InScheme

  /** The first `n` characters of the output `o` were copied, and the scan of `t` is now at `w`. */
  predicate Copied(kind: Kind, t: string, o: string, n: nat, w: Where) {
    && n <= |t| && n <= |o| && t[..n] == o[..n]
    && match w
       case AtScan(before) => o[n..] == Pass(kind, before, t[n..])
       case AtMask => MARKER <= o[n..] && (if kind.Links? then LinkLen(t[n..]) > 0 else IsMasked(o[n..]))
       case InScheme => kind.Credentials? && n < |t| && n < |o| && t[n] == o[n] && (IsLetter(t[n]) || t[n] == ' ')
  }

  lemma CopiedBehind(kind: Kind, t: string, o: string, n: nat, k: nat, w: Where)
    requires k <= n && k <= |t| && k <= |o| && t[..k] == o[..k]
    requires Copied(kind, t[k..], o[k..], n - k, w)
    ensures Copied(kind, t, o, n, w)
  {
    hide Pass, LinkLen;
    assert t[..n] == t[..k] + t[k..][..n - k] && o[..n] == o[..k] + o[k..][..n - k];
    Suffixes(t, k, n, n - k);
    Suffixes(o, k, n, n - k);
  }

  lemma AngleFreeBehind(o: string, n: nat, k: nat)
    requires k <= n <= |o| && AngleFree(o[..n])
    ensures AngleFree(o[k..][..n - k])
  {
    var u := o[k..][..n - k];
    forall i | 0 <= i < |u|
      ensures u[i] != '<' && u[i] != '>'
    {
      assert u[i] == o[..n][k + i];
    }
  }

  /** Output free of angle brackets was copied. */
  lemma {:induction false} OutputFront(kind: Kind, before: bool, t: string, n: nat) returns (w: Where)
    requires n <= |Pass(kind, before, t)| && AngleFree(Pass(kind, before, t)[..n])
    ensures Copied(kind, t, Pass(kind, before, t), n, w)
    decreases |t|
  {
    hide *;
    var o := Pass(kind, before, t);
    if before && Trigger(kind, t) > 0 {
      TriggerStep(kind, t);
      var k, d, b, r := Kept(kind, t), Dropped(kind, t), TailBoundary(kind, t), Tail(kind, t);
      if n < k {
        w := FrontInScheme(kind, t, o, n);
      } else if d > 0 {
        TailEnds(kind, t);
        EndLooksNotBack(kind, b, b, r);
        w := FrontAtMask(kind, t, o, n, Pass(kind, b, r));
      } else {
        RestIsTail(kind, t, o);
        AngleFreeBehind(o, n, k);
        w := OutputFront(kind, b, r, n - k);
        CopiedBehind(kind, t, o, n, k, w);
      }
    } else if n == 0 {
      w := AtScan(before);
      NothingCopied(kind, before, t);
    } else {
      EmptyPass(kind, before, t);
      PassStep(kind, before, t);
      var b, r := BoundaryAt(true, t, 1), t[1..];
      AngleFreeBehind(o, n, 1);
      OneCopied(t, o, Pass(kind, b, r));
      w := OutputFront(kind, b, r, n - 1);
      CopiedBehind(kind, t, o, n, 1, w);
    }
  }

  lemma NothingCopied(kind: Kind, before: bool, t: string)
    ensures Copied(kind, t, Pass(kind, before, t), 0, AtScan(before))
  {
    hide Pass;
    assert t[0..] == t && Pass(kind, before, t)[0..] == Pass(kind, before, t);
  }

  lemma OneCopied(t: string, o: string, z: string)
    requires t != [] && o == [t[0]] + z
    ensures o[1..] == z && t[..1] == o[..1]
  {
  }

  lemma EmptyPass(kind: Kind, before: bool, t: string)
    ensures t == [] ==> Pass(kind, before, t) == []
  {
  }

  lemma FrontInScheme(kind: Kind, t: string, o: string, n: nat) returns (w: Where)
    requires Trigger(kind, t) > 0 && n < Kept(kind, t) && t[..Kept(kind, t)] <= o
    ensures Copied(kind, t, o, n, w)
  {
    w := InScheme;
    var k := Kept(kind, t);
    SchemeIsLetters(t);
    assert o[..k] == t[..k];
    assert t[..n] == t[..k][..n] && o[..n] == o[..k][..n] && t[n] == t[..k][n] && o[n] == o[..k][n];
  }

  lemma NoAngleIn(o: string, n: nat)
    requires n <= |o| && AngleFree(o[..n])
    ensures forall i | 0 <= i < n :: o[i] != '<' && o[i] != '>'
  {
    forall i | 0 <= i < n
      ensures o[i] != '<' && o[i] != '>'
    {
      assert o[..n][i] == o[i];
    }
  }

  lemma FrontAtMask(kind: Kind, t: string, o: string, n: nat, z: string) returns (w: Where)
    requires Trigger(kind, t) > 0 && Kept(kind, t) <= n <= |o| && AngleFree(o[..n]) && Dropped(kind, t) > 0
    requires o == t[..Kept(kind, t)] + MaskOf(Dropped(kind, t)) + z && Ends(kind, z)
    ensures Copied(kind, t, o, n, w)
  {
    w := AtMask;
    hide Run, SchemeLen, LinkLen;
    var k := Kept(kind, t);
    Splits(t[..k], MARKER, z);
    assert o[k] == o[k..][0] == MARKER[0];
    NoAngleIn(o, n);
    assert o[k..] == MARKER + z && (MARKER + z)[10..] == z;
    assert t[0..] == t;
  }

  lemma RestIsTail(kind: Kind, t: string, o: string)
    requires Trigger(kind, t) > 0 && Dropped(kind, t) == 0
    requires o == t[..Kept(kind, t)] + MaskOf(Dropped(kind, t)) + Pass(kind, TailBoundary(kind, t), Tail(kind, t))
    ensures t[Kept(kind, t)..] == Tail(kind, t) && 0 < Kept(kind, t) <= |o| && o[..Kept(kind, t)] == t[..Kept(kind, t)]
    ensures o[Kept(kind, t)..] == Pass(kind, TailBoundary(kind, t), Tail(kind, t))
  {
    StepAdvances(kind, t);
    hide Run, SchemeLen, LinkLen, Pass, TailBoundary;
  }

  // ---- the keys stay masked ----------------------------------------------------------

  lemma CharIsNoAngle(k: CharClass, t: string, a: nat, i: nat)
    requires k == KeyChar || k == Blank
    requires a <= i && a <= |t| && i < a + Run(k, t[a..])
    ensures t[i] != '<' && t[i] != '>'
  {
    assert t[a..][i - a] == t[i];
  }

  lemma HeadIsAngleFree(t: string)
    requires HeadLen(t) > 0
    ensures AngleFree(t[..ValueStart(t)])
  {
    hide HeadLen, KeyEnd, Run;
    var q, k, b := HeadParts(t);
    var h, c := HeadLen(t), ValueStart(t);
    forall i | 0 <= i < c
      ensures t[i] != '<' && t[i] != '>'
    {
      if q <= i < q + k {
        CharIsNoAngle(KeyChar, t, q, i);
      } else if b <= i < h - 1 {
        CharIsNoAngle(Blank, t, b, i);
      } else if h <= i {
        CharIsNoAngle(Blank, t, h, i);
      }
    }
  }

  /** Texts that share a head and do not go on with a blank have the same one. */
  lemma HeadIsShared(t: string, u: string, c: nat)
    requires HeadLen(t) > 0 && c == ValueStart(t) && c <= |u| && u[..c] == t[..c]
    requires c < |u| ==> !IsSpace(u[c])
    ensures HeadLen(u) == HeadLen(t) && ValueStart(u) == c
    ensures t[0] == u[0]
  {
    hide Look, KeyText, Run, HeadLen;
    HeadIsLocal(t, t);
    SharedHeads(t, u, c, Look(t));
    var h := HeadLen(t);
    forall i | 0 <= i < c - h
      ensures Is(Blank, u[h..][i])
    {
      assert u[h..][i] == u[..c][h + i] == t[..c][h + i] == t[h..][i];
    }
    RunIs(Blank, u[h..], c - h);
  }

  lemma SharedHeads(t: string, u: string, c: nat, d: nat)
    requires d < c <= |t| && c <= |u| && u[..c] == t[..c] && d == Look(t)
    ensures HeadLen(u) == HeadLen(t) && t[0] == u[0]
  {
    hide HeadLen, Look;
    assert t[..d] == t[..c][..d] && u[..d] == u[..c][..d] && t[d] == t[..c][d] && u[d] == u[..c][d];
    assert t[0] == t[..c][0] && u[0] == u[..c][0];
    HeadIsLocal(t, u);
  }

  /** A mask at the place of the scan is copied. */
  lemma MaskIsCopied(kind: Kind, before: bool, t: string)
    requires IsMasked(t)
    ensures IsMasked(Pass(kind, before, t))
  {
    hide Pass;
    var w := QUOTED_MARKER;
    if MARKER <= t && (t[10..] == [] || !Is(ValueChar, t[10..][0])) {
      assert t == MARKER + t[10..];
      MarkerIsCopied(kind, before, t[10..]);
      MaskEndStays(kind, true, t[10..]);
      assert (MARKER + Pass(kind, true, t[10..]))[10..] == Pass(kind, true, t[10..]);
    } else {
      assert t == w + t[11..];
      WordIsCopied(kind, before, w, t[11..]);
      var b := BoundaryAt(before, w, |w|);
      MaskEndStays(kind, b, t[11..]);
      assert (w + Pass(kind, b, t[11..]))[11..] == Pass(kind, b, t[11..]);
    }
  }

  /** What ends a value, or its closing quote, is copied. */
  lemma MaskEndStays(kind: Kind, before: bool, z: string)
    requires z != [] ==> !Is(ValueChar, z[0]) || z[0] == '"'
    ensures z == [] <==> Pass(kind, before, z) == []
    ensures z != [] ==> Pass(kind, before, z)[0] == z[0]
  {
    hide Pass;
    OtherIsCopied(kind, before, z);
  }

  lemma BlankIsCopied(kind: Kind, before: bool, t: string)
    requires t != [] && IsSpace(t[0])
    ensures Pass(kind, before, t) != [] && Pass(kind, before, t)[0] == t[0]
  {
    hide Pass;
    OtherIsCopied(kind, before, t);
  }

  lemma MaskStart(t: string)
    requires IsMasked(t)
    ensures t != [] && (t[0] == '<' || t[0] == '"')
  {
    var w := QUOTED_MARKER;
    assert w[0] == '"';
  }

  /** Behind a copied head the input shows no other blank. */
  lemma BehindHead(kind: Kind, t: string, o: string, n: nat, w: Where)
    requires Copied(kind, t, o, n, w) && (n < |o| ==> !IsSpace(o[n]))
    ensures (w.AtMask? && kind.Credentials?) || (n < |t| ==> !IsSpace(t[n]))
  {
    hide Pass, IsMasked;
    match w
    case AtScan(b) =>
      if n < |t| && IsSpace(t[n]) {
        BlankIsCopied(kind, b, t[n..]);
      }
    case AtMask =>
      if kind.Links? {
        TriggerStarts(Links, t[n..]);
      }
    case InScheme =>
  }

  /** A mask in the input that the output was copied up to is in the output. */
  lemma MaskBehindHead(kind: Kind, t: string, o: string, n: nat, w: Where)
    requires Copied(kind, t, o, n, w) && IsMasked(t[n..])
    ensures IsMasked(o[n..])
  {
    hide Pass, IsMasked;
    MaskStart(t[n..]);
    match w
    case AtScan(b) => MaskIsCopied(kind, b, t[n..]);
    case AtMask =>
      if kind.Links? {
        TriggerStarts(Links, t[n..]);
      }
    case InScheme =>
  }

  /** A head in the part of the output that was copied is still followed by its mask. */
  lemma FrontStaysMasked(kind: Kind, before: bool, front: string, t: string, p: nat)
    requires KeysMasked(front, t) && p <= |Pass(kind, before, t)| && AngleFree(Pass(kind, before, t)[..p])
    requires !MayClose(front, Pass(kind, before, t), p)
    ensures FrontIsMasked(Pass(kind, before, t)[p..])
  {
    hide HeadLen, ValueStart, Pass, IsMasked, KeysMasked, Copied, AngleFree, MayClose;
    var o := Pass(kind, before, t);
    var u := o[p..];
    if HeadLen(u) > 0 {
      var c := ValueStart(u);
      HeadIsAngleFree(u);
      AngleFreeTogether(o, p, c);
      var w := OutputFront(kind, before, t, p + c);
      HeadWasMasked(kind, front, t, o, p, c, w);
    }
  }

  lemma AngleFreeTogether(o: string, p: nat, c: nat)
    requires p + c <= |o| && AngleFree(o[..p]) && AngleFree(o[p..][..c])
    ensures AngleFree(o[..p + c])
  {
    assert o[..p + c] == o[..p] + o[p..][..c];
  }

  lemma HeadWasMasked(kind: Kind, front: string, t: string, o: string, p: nat, c: nat, w: Where)
    requires KeysMasked(front, t) && p < |o| && HeadLen(o[p..]) > 0 && c == ValueStart(o[p..])
    requires Copied(kind, t, o, p + c, w) && !MayClose(front, o, p)
    ensures IsMasked(o[p..][c..])
  {
    hide HeadLen, Pass, IsMasked, Run, MayClose, LinkLen;
    var u, n := o[p..], p + c;
    Suffixes(o, p, n, c);
    if !(w.AtMask? && kind.Credentials?) {
      assert c < |u| ==> u[c] == u[HeadLen(u)..][c - HeadLen(u)];
      assert n < |o| ==> o[n] == u[c];
      BehindHead(kind, t, o, n, w);
      var v := t[p..];
      Suffixes(t, p, n, c);
      assert v[..c] == t[..n][p..] && u[..c] == o[..n][p..];
      assert c < |v| ==> v[c] == t[n];
      HeadIsShared(u, v, c);
      CloseIsShared(front, t, o, p, n);
      assert FrontIsMasked(t[p..]);
      MaskBehindHead(kind, t, o, n, w);
    }
  }

  lemma CloseIsShared(front: string, t: string, o: string, p: nat, n: nat)
    requires p < n <= |t| && n <= |o| && t[..n] == o[..n]
    ensures MayClose(front, t, p) == MayClose(front, o, p)
  {
    assert t[p] == t[..n][p] == o[..n][p] == o[p];
    assert t[..p] == t[..n][..p] == o[..n][..p] == o[..p];
  }

  /** Both passes keep every sensitive key masked. */
  lemma {:induction false} PassKeepsKeysMasked(kind: Kind, before: bool, front: string, t: string)
    requires KeysMasked(front, t)
    ensures KeysMasked(front, Pass(kind, before, t))
    decreases |t|
  {
    if t == [] {
      NothingToMask(front);
    } else if before && Trigger(kind, t) > 0 {
      hide *;
      TriggerStep(kind, t);
      TailIsMasked(kind, front, t);
      PassKeepsKeysMasked(kind, TailBoundary(kind, t), FrontOfTail(kind, front, t), Tail(kind, t));
      TriggerKeepsMasked(kind, front, t);
    } else {
      hide *;
      var o, b := Pass(kind, before, t), BoundaryAt(true, t, 1);
      PassStep(kind, before, t);
      KeysMaskedBehind(front, t, 1);
      PassKeepsKeysMasked(kind, b, front + t[..1], t[1..]);
      NoAngles(o);
      if !MayClose(front, o, 0) {
        FrontStaysMasked(kind, before, front, t, 0);
      }
      assert o[1..] == Pass(kind, b, t[1..]);
      assert t[..1] == [t[0]] == o[..1];
      MaskedFrom(front, o, 1);
    }
  }

  lemma NoAngles(o: string)
    ensures AngleFree(o[..0])
  {
  }

  /** The text in front of the tail. */
  function FrontOfTail(kind: Kind, front: string, t: string): string {
    front + t[..Kept(kind, t) + Dropped(kind, t)]
  }

  lemma TailIsMasked(kind: Kind, front: string, t: string)
    requires KeysMasked(front, t)
    ensures KeysMasked(FrontOfTail(kind, front, t), Tail(kind, t))
  {
    hide KeysMasked;
    KeysMaskedBehind(front, t, Kept(kind, t) + Dropped(kind, t));
  }

  lemma TriggerKeepsMasked(kind: Kind, front: string, t: string)
    requires Trigger(kind, t) > 0 && KeysMasked(front, t)
    requires KeysMasked(FrontOfTail(kind, front, t), Pass(kind, TailBoundary(kind, t), Tail(kind, t)))
    ensures KeysMasked(front, Pass(kind, true, t))
  {
    hide *;
    TriggerStep(kind, t);
    var o, k, m := Pass(kind, true, t), Kept(kind, t), MaskOf(Dropped(kind, t));
    var b, r := TailBoundary(kind, t), Tail(kind, t);
    var z := Pass(kind, b, r);
    Splits(t[..k], m, z);
    forall p | 0 <= p < k + |m| && !MayClose(front, o, p)
      ensures FrontIsMasked(o[p..])
    {
      if p < k {
        KeptIsAngleFree(kind, t, o, p);
        FrontStaysMasked(kind, true, front, t, p);
      } else {
        Suffixes(o, k, p, p - k);
        NoHeadInMask(Dropped(kind, t), z, p - k);
      }
    }
    TailEnds(kind, t);
    EndLooksNotBack(kind, b, b, r);
    forall p | 0 <= p <= |z| && MayClose(FrontOfTail(kind, front, t), z, p)
      ensures MayClose(front + (t[..k] + m), z, p)
    {
      ClosesBehindTrigger(kind, front, t, z, p);
    }
    KeysMaskedAfter(FrontOfTail(kind, front, t), front + (t[..k] + m), z);
    FrontOfOutput(t[..k], m, z);
    MaskedFrom(front, o, k + |m|);
  }

  lemma FrontOfOutput(a: string, m: string, z: string)
    ensures (a + m + z)[..|a| + |m|] == a + m
  {
  }

  /** What is dropped is never a part of a masked value whose closing quote stands behind it. */
  lemma ClosesBehindTrigger(kind: Kind, front: string, t: string, z: string, p: nat)
    requires Trigger(kind, t) > 0 && Ends(kind, z) && p <= |z|
    requires MayClose(FrontOfTail(kind, front, t), z, p)
    ensures MayClose(front + (t[..Kept(kind, t)] + MaskOf(Dropped(kind, t))), z, p)
  {
    hide Trigger, Kept, Dropped, EndsInMask;
    var k, n := Kept(kind, t), Dropped(kind, t);
    if n == 0 {
      assert t[..k] + MaskOf(n) == t[..k] && FrontOfTail(kind, front, t) == front + t[..k];
    } else {
      MaskIsBehind(kind, front, t, z, p);
      var a := front + (t[..k] + MaskOf(n));
      EndsInSuffix(a, z[..p]);
    }
  }

  /** Behind a dropped stretch such a masked value stands whole. */
  lemma MaskIsBehind(kind: Kind, front: string, t: string, z: string, p: nat)
    requires Trigger(kind, t) > 0 && Ends(kind, z) && Dropped(kind, t) > 0 && p <= |z|
    requires MayClose(FrontOfTail(kind, front, t), z, p)
    ensures EndsInMask(z[..p])
  {
    hide Trigger, Kept, Dropped, Ends;
    var k, n := Kept(kind, t), Dropped(kind, t);
    var d := t[k..k + n];
    DroppedText(kind, t);
    assert t[..k + n] == t[..k] + d;
    assert front + t[..k + n] + z[..p] == front + t[..k] + d + z[..p];
    MaskInParts(kind, front + t[..k], d, z, p);
  }

  /** What is dropped, and that a link has at least seven characters. */
  lemma DroppedText(kind: Kind, t: string)
    requires Trigger(kind, t) > 0
    ensures var d := t[Kept(kind, t)..Kept(kind, t) + Dropped(kind, t)];
      && (forall i | 0 <= i < |d| :: Is(Masks(kind), d[i]))
      && (kind.Links? ==> |d| >= 7 && Starts(Links, d[0]))
  {
    hide Run, SchemeLen, LinkLen;
    var k, n := Kept(kind, t), Dropped(kind, t);
    var d, u := t[k..k + n], t[k..];
    assert forall i | 0 <= i < n :: d[i] == u[i];
    if kind.Links? {
      TriggerStarts(Links, t);
      LinkIsUrlText(t);
      assert t[0..] == t;
    }
  }

  lemma LinkIsUrlText(t: string)
    requires LinkLen(t) > 0
    ensures LinkLen(t) >= 7 && forall i | 0 <= i < 7 :: Is(UrlChar, t[i])
  {
    var http, https := "http://", "https://";
    assert forall i | 0 <= i < 7 :: Is(UrlChar, http[i]) && Is(UrlChar, https[i]);
    assert forall i | 0 <= i < 7 :: Lower(t[i]) == http[i] || Lower(t[i]) == https[i];
  }

  /** A masked value that ends in `z[..p]` lies in it, if the text before is dropped. */
  lemma MaskInParts(kind: Kind, a: string, d: string, z: string, p: nat)
    requires d != [] && Ends(kind, z) && p <= |z| && "\"" <= z[p..] && EndsInMask(a + d + z[..p])
    requires forall i | 0 <= i < |d| :: Is(Masks(kind), d[i])
    requires kind.Links? ==> |d| >= 7 && Starts(Links, d[0])
    ensures EndsInMask(z[..p])
  {
    hide Is, Starts, Ends;
    var x, v := a + d + z[..p], z[..p];
    var m := x[|x| - 11..];
    assert forall i | 0 <= i < p && p - i <= 11 :: m[11 - p + i] == z[i];
    assert forall i | 0 <= i < |d| && p + |d| - i <= 11 :: m[11 - p - |d| + i] == d[i];
    MaskIsNotSplit(kind, m, d, z, p);
    assert v[p - 11..] == m;
  }

  lemma MaskChars(m: string)
    requires m == QUOTED_MARKER
    ensures forall j | 0 <= j < 11 :: Is(ValueChar, m[j])
    ensures forall j | 2 <= j < 10 :: Is(UrlChar, m[j]) && !Starts(Links, m[j])
    ensures !Is(UrlChar, m[0]) && !Is(UrlChar, m[1]) && !Is(UrlChar, m[10])
  {
  }

  /** Wherever `d` ended and `z` began in it, one of them would have a character of the wrong class. */
  lemma MaskIsNotSplit(kind: Kind, m: string, d: string, z: string, p: nat)
    requires m == QUOTED_MARKER && d != [] && Ends(kind, z) && p < |z| && z[p] == '"'
    requires forall i | 0 <= i < p && p - i <= 11 :: m[11 - p + i] == z[i]
    requires forall i | 0 <= i < |d| && p + |d| - i <= 11 :: m[11 - p - |d| + i] == d[i]
    requires forall i | 0 <= i < |d| :: Is(Masks(kind), d[i])
    requires kind.Links? ==> |d| >= 7 && Starts(Links, d[0])
    ensures p >= 11
  {
    hide Starts;
    MaskChars(m);
    var last := d[|d| - 1];
    if kind.Links? && |d| >= 9 {
      var ninth := d[|d| - 9];
    }
  }

  lemma KeptIsAngleFree(kind: Kind, t: string, o: string, p: nat)
    requires p < Kept(kind, t) <= |o| && o[..Kept(kind, t)] == t[..Kept(kind, t)]
    ensures AngleFree(o[..p])
  {
    TriggerIsAngleFree(Credentials, t);
    var w := t[..Kept(kind, t)];
    assert forall i | 0 <= i < p :: o[..p][i] == o[..Kept(kind, t)][i] == w[i];
  }

  lemma NoHeadInMask(n: nat, z: string, p: nat)
    requires p < |MaskOf(n)|
    ensures FrontIsMasked((MaskOf(n) + z)[p..])
  {
    hide HeadLen;
    NoKeyInMarker(z, p);
  }

  // ---- the credentials stay masked ---------------------------------------------------

  /** The value behind a scheme is empty or the marker. */
  lemma DoneParts(t: string)
    requires SchemeLen(t) > 0 && FrontIsDone(Credentials, t)
    ensures var u := t[SchemeLen(t)..];
      Ends(Credentials, u) || (MARKER <= u && Ends(Credentials, u[|MARKER|..]))
  {
    var u := t[SchemeLen(t)..];
    var n := Run(ValueChar, u);
    assert n < |u| ==> u[n..][0] == u[n];
    if u[..n] == MARKER {
      assert u[..n] <= u;
    }
  }

  lemma PartsAreDone(t: string)
    requires SchemeLen(t) > 0
    requires var u := t[SchemeLen(t)..];
      Ends(Credentials, u) || (MARKER <= u && Ends(Credentials, u[|MARKER|..]))
    ensures FrontIsDone(Credentials, t)
  {
    var u := t[SchemeLen(t)..];
    if Ends(Credentials, u) {
      assert Run(ValueChar, u) == 0;
    } else {
      MarkerRun(1, u[10..]);
      assert u == MARKER + u[10..];
    }
  }

  /** A scheme in the output of the link pass was in its input, with the same value. */
  lemma FrontStaysDone(before: bool, t: string)
    requires FrontIsDone(Credentials, t)
    ensures FrontIsDone(Credentials, Pass(Links, before, t))
  {
    hide Pass, FrontIsDone, AngleFree, Ends, SchemeLen, LinkLen;
    var o := Pass(Links, before, t);
    var k := SchemeLen(o);
    if k == 0 {
      NoTriggerIsDone(Credentials, o);
    } else {
      TriggerIsAngleFree(Credentials, o);
      var w := OutputFront(Links, before, t, k);
      TriggerInFront(Credentials, o[..k], t[k..]);
      assert o[..k] + t[k..] == t;
      DoneParts(t);
      DoneBehind(t, o, k, w);
      PartsAreDone(o);
    }
  }

  lemma DoneBehind(t: string, o: string, k: nat, w: Where)
    requires Copied(Links, t, o, k, w)
    requires Ends(Credentials, t[k..]) || (MARKER <= t[k..] && Ends(Credentials, t[k..][|MARKER|..]))
    ensures Ends(Credentials, o[k..]) || (MARKER <= o[k..] && Ends(Credentials, o[k..][|MARKER|..]))
  {
    hide Pass, LinkLen;
    var u := t[k..];
    TriggerStarts(Links, u);
    assert w.AtScan?;
    if Ends(Credentials, u) {
      EndIsCopied(w.before, u);
    } else {
      assert u == MARKER + u[10..];
      MarkerIsCopied(Links, w.before, u[10..]);
      EndIsCopied(true, u[10..]);
      assert o[k..][10..] == Pass(Links, true, u[10..]);
    }
  }

  lemma EndIsCopied(before: bool, u: string)
    requires Ends(Credentials, u)
    ensures Ends(Credentials, Pass(Links, before, u))
  {
    hide Pass;
    OtherIsCopied(Links, before, u);
  }

  /** The link pass keeps what the credential pass established. */
  lemma {:induction false} LinksKeepClean(before: bool, t: string)
    requires IsClean(Credentials, before, t)
    ensures IsClean(Credentials, before, Pass(Links, before, t))
    decreases |t|
  {
    var o := Pass(Links, before, t);
    if t == [] {
      assert o == t;
    } else if before && Trigger(Links, t) > 0 {
      hide *;
      LinkStep(t);
      var b, r := TailBoundary(Links, t), Tail(Links, t);
      CleanTail(before, t);
      LinksKeepClean(b, r);
      TailEnds(Links, t);
      EndLooksNotBack(Links, b, b, r);
      MarkerIsClean(before, b, Pass(Links, b, r));
    } else {
      hide *;
      var b := BoundaryAt(true, t, 1);
      PassStep(Links, before, t);
      CleanAfterOne(before, t);
      LinksKeepClean(b, t[1..]);
      if before {
        CleanFront(Credentials, before, t);
        FrontStaysDone(before, t);
      }
      CopyKeepsClean(before, t[0], b, o, Pass(Links, b, t[1..]));
    }
  }

  lemma CleanTail(before: bool, t: string)
    requires IsClean(Credentials, before, t) && Trigger(Links, t) > 0
    ensures IsClean(Credentials, TailBoundary(Links, t), Tail(Links, t))
  {
    StepAdvances(Links, t);
    hide IsClean, LinkLen, Run;
    CleanBehind(Credentials, before, t, Kept(Links, t) + Dropped(Links, t));
  }

  lemma CleanAfterOne(before: bool, t: string)
    requires t != [] && IsClean(Credentials, before, t)
    ensures IsClean(Credentials, BoundaryAt(true, t, 1), t[1..])
  {
    hide IsClean;
    CleanBehind(Credentials, before, t, 1);
  }

  lemma CopyKeepsClean(before: bool, c: char, b: bool, o: string, z: string)
    requires o == [c] + z && b == !IsAlnum(c) && IsClean(Credentials, b, z)
    requires before ==> FrontIsDone(Credentials, o)
    ensures IsClean(Credentials, before, o)
  {
    hide IsClean, FrontIsDone;
    assert o[0..] == o && o[1..] == z;
    CleanFrom(Credentials, before, o, 1);
  }

  lemma MarkerIsClean(before: bool, b: bool, z: string)
    requires IsClean(Credentials, b, z) && Ends(Links, z)
    ensures IsClean(Credentials, before, MARKER + z)
  {
    hide IsClean, FrontIsDone;
    OtherIsDone(Credentials, z);
    CleanEitherWay(Credentials, b, true, z);
    var o := MARKER + z;
    assert o[10..] == z && o[9] == '>';
    forall p | 0 <= p < 10 && BoundaryAt(before, o, p)
      ensures FrontIsDone(Credentials, o[p..])
    {
      assert o[p..][0] == MARKER[p];
      OtherIsDone(Credentials, o[p..]);
    }
    CleanFrom(Credentials, before, o, 10);
  }

  // ---- what it is to be clean, without the scan ----------------------------------------

  /** At a word boundary, what stands behind one of the two schemes is nothing or the marker. */
  predicate ShowsNoCredential(t: string) {
    forall word | word in ["basic ", "bearer "] && StartsWithIgnoreCase(t, word) ::
      ShowsNothing(t[|word|..])
  }

  predicate ShowsNothing(u: string) { u[..Run(ValueChar, u)] == "" || u[..Run(ValueChar, u)] == MARKER }

  predicate ShowsNoLink(t: string) {
    !StartsWithIgnoreCase(t, "http://") && !StartsWithIgnoreCase(t, "https://")
  }

  /** No link and no credential shows at any place that does not follow a letter or a digit. */
  ghost predicate ShowsNeither(o: string) {
    forall p | 0 <= p <= |o| && (p == 0 || !IsAlnum(o[p - 1])) :: ShowsNoCredential(o[p..]) && ShowsNoLink(o[p..])
  }

  lemma DoneMeans(t: string)
    ensures FrontIsDone(Credentials, t) <==> ShowsNoCredential(t)
    ensures FrontIsDone(Links, t) <==> ShowsNoLink(t)
  {
    hide Run;
    OneSchemeAtMost(t);
    var words := ["basic ", "bearer "];
    assert words[0] in words && words[1] in words;
  }

  lemma OneSchemeAtMost(t: string)
    ensures !(StartsWithIgnoreCase(t, "basic ") && StartsWithIgnoreCase(t, "bearer "))
  {
    var basic, bearer := "basic ", "bearer ";
    assert basic[1] == 'a' && bearer[1] == 'e';
  }

  lemma CleanExactly(o: string)
    ensures IsClean(Credentials, true, o) && IsClean(Links, true, o) <==> ShowsNeither(o)
  {
    hide FrontIsDone, ShowsNoCredential, ShowsNoLink;
    forall p | 0 <= p <= |o|
      ensures FrontIsDone(Credentials, o[p..]) <==> ShowsNoCredential(o[p..])
      ensures FrontIsDone(Links, o[p..]) <==> ShowsNoLink(o[p..])
    {
      DoneMeans(o[p..]);
    }
  }
}
