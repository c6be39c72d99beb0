/**
 * Where the original slices text at a byte offset. Text is UTF-8 there, and a slice
 * that cuts a character in two does not return. The other modules say what comes
 * out when every slice is whole; this one says when that is.
 */
module ByteSlices {
  import opened Text
  import opened Redaction
  import opened KnownValues
  import opened KeyValues
  import opened KeyValueTheorems
  import opened BoundaryPasses
  import opened BoundaryLaws
  import opened BoundarySecrecy
  import opened KeyValueLaws
  import opened KeyValueSecrecy
  import opened KeyValueFixpoints
  import Sanitizer
  import Twice

  /** The number of bytes of a character in UTF-8. */
  function Width(c: char): nat {
    if c < '\U{80}' then 1 else if c < '\U{800}' then 2 else if c < '\U{10000}' then 3 else 4
  }

  function ByteLen(t: string): nat { if t == [] then 0 else Width(t[0]) + ByteLen(t[1..]) }

  /** Byte offset `n` of `t` lies between two characters. */
  predicate IsCharBoundary(t: string, n: nat) {
    n == 0 || (t != [] && Width(t[0]) <= n && IsCharBoundary(t[1..], n - Width(t[0])))
  }

  /** The offsets between characters are the byte lengths of the prefixes. */
  lemma {:induction false} CharBoundaryIs(t: string, n: nat)
    ensures IsCharBoundary(t, n) <==> exists k | 0 <= k <= |t| :: ByteLen(t[..k]) == n
  {
    assert ByteLen(t[..0]) == 0;
    if t == [] {
    } else if Width(t[0]) <= n {
      var u, m := t[1..], n - Width(t[0]);
      CharBoundaryIs(u, m);
      forall k | 0 < k <= |t|
        ensures ByteLen(t[..k]) == Width(t[0]) + ByteLen(u[..k - 1])
      {
        assert t[..k][1..] == u[..k - 1];
      }
      if IsCharBoundary(u, m) {
        var k :| 0 <= k <= |u| && ByteLen(u[..k]) == m;
        assert ByteLen(t[..k + 1]) == n;
      }
    } else {
      forall k | 0 < k <= |t|
        ensures Width(t[0]) <= ByteLen(t[..k])
      {
        assert t[..k][0] == t[0];
      }
    }
  }

  /** Comparing a prefix of `t` with `word` is defined: `t` is too short, or the slice is whole. */
  predicate ComparesWith(t: string, word: string) {
    ByteLen(t) >= |word| ==> IsCharBoundary(t, |word|)
  }

  /** The test for a trigger word at the front of `t` is defined. */
  predicate TestIsDefined(kind: Kind, t: string) {
    var (first, second) := match kind case Credentials => ("basic ", "bearer ") case Links => ("https://", "http://");
    ComparesWith(t, first) && (!StartsWithIgnoreCase(t, first) ==> ComparesWith(t, second))
  }

  /** Byte offset `n` is behind the end of `t` or between two of its characters. */
  ghost predicate SlicesWhole(t: string, n: nat) {
    n <= ByteLen(t) ==> exists k | 0 <= k <= |t| :: ByteLen(t[..k]) == n
  }

  /** The test slices at the length of the first word, and at that of the second if the first is not there. */
  lemma TestSlices(t: string)
    ensures TestIsDefined(Credentials, t) <==>
      SlicesWhole(t, 6) && (StartsWithIgnoreCase(t, "basic ") || SlicesWhole(t, 7))
    ensures TestIsDefined(Links, t) <==>
      SlicesWhole(t, 8) && (StartsWithIgnoreCase(t, "https://") || SlicesWhole(t, 7))
  {
    hide ByteLen, IsCharBoundary, StartsWithIgnoreCase;
    CharBoundaryIs(t, 6);
    CharBoundaryIs(t, 7);
    CharBoundaryIs(t, 8);
  }

  /** All tests of the credential or the link pass are. */
  predicate PassIsDefined(kind: Kind, before: bool, t: string)
    decreases |t|
  {
    t == [] ||
    if before && Trigger(kind, t) > 0 then
      StepAdvances(kind, t);
      TestIsDefined(kind, t) && PassIsDefined(kind, TailBoundary(kind, t), Tail(kind, t))
    else
      (before ==> TestIsDefined(kind, t)) && PassIsDefined(kind, BoundaryAt(true, t, 1), t[1..])
  }

  /** If an unquoted authorization value follows the key at the front of `t`, the test for its scheme is. */
  predicate ValueTestIsDefined(t: string) {
    HeadLen(t) > 0 && IsAuthorization(KeyText(t)) && !("\"" <= t[ValueStart(t)..]) ==>
      TestIsDefined(Credentials, t[ValueStart(t)..])
  }

  /** All tests of the key/value pass are. */
  predicate KeyValuePassIsDefined(t: string)
    decreases |t|
  {
    t == [] ||
    if HeadLen(t) == 0 then KeyValuePassIsDefined(t[1..])
    else ValueTestIsDefined(t) && KeyValuePassIsDefined(RestOf(t))
  }

  /** All tests of all passes are: the sanitizer returns. */
  predicate SanitizerIsDefined(s: string, values: seq<string>) {
    var known := KnownValuePass(s, values);
    var kv := KeyValuePass(known);
    && KeyValuePassIsDefined(known)
    && PassIsDefined(Credentials, true, kv)
    && PassIsDefined(Links, true, Pass(Credentials, true, kv))
  }

  // ---- exactly when every test is defined ---------------------------------------------

  /** The test is defined wherever a word may start, but inside what the pass masks. */
  ghost predicate TestsAreDefined(kind: Kind, before: bool, t: string) {
    forall p | 0 <= p < |t| && PassStandsAt(kind, before, t, p) && BoundaryAt(before, t, p) :: TestIsDefined(kind, t[p..])
  }

  lemma PassScanOn(kind: Kind, before: bool, t: string, n: nat)
    requires t != []
    ensures var e := PassStepEnd(kind, before, t);
      && (e <= n ==> (PassStandsAt(kind, before, t, n) <==> PassStandsAt(kind, BoundaryAt(before, t, e), t[e..], n - e)))
      && (0 < n < e ==> !PassStandsAt(kind, before, t, n))
    ensures PassStandsAt(kind, before, t, 0)
  {
  }

  lemma TestsInSteps(kind: Kind, before: bool, t: string)
    requires t != []
    ensures var e := PassStepEnd(kind, before, t);
      TestsAreDefined(kind, before, t) <==>
      (before ==> TestIsDefined(kind, t)) && TestsAreDefined(kind, BoundaryAt(before, t, e), t[e..])
  {
    hide PassStandsAt, PassStepEnd, TestIsDefined;
    var e := PassStepEnd(kind, before, t);
    var b, u := BoundaryAt(before, t, e), t[e..];
    assert t[0..] == t;
    assert forall i | e <= i < |t| :: t[i] == u[i - e];
    if TestsAreDefined(kind, before, t) {
      PassScanOn(kind, before, t, 0);
      forall p | 0 <= p < |u| && PassStandsAt(kind, b, u, p) && BoundaryAt(b, u, p)
        ensures TestIsDefined(kind, u[p..])
      {
        PassScanOn(kind, before, t, e + p);
        Suffixes(t, e, e + p, p);
      }
    }
    if (before ==> TestIsDefined(kind, t)) && TestsAreDefined(kind, b, u) {
      forall p | 0 <= p < |t| && PassStandsAt(kind, before, t, p) && BoundaryAt(before, t, p)
        ensures TestIsDefined(kind, t[p..])
      {
        PassScanOn(kind, before, t, p);
        if e <= p {
          Suffixes(t, e, p, p - e);
          assert BoundaryAt(b, u, p - e);
        }
      }
    }
  }

  lemma DefinedStep(kind: Kind, before: bool, t: string)
    requires t != []
    ensures var e := PassStepEnd(kind, before, t);
      |t[e..]| < |t| &&
      (PassIsDefined(kind, before, t) <==>
        (before ==> TestIsDefined(kind, t)) && PassIsDefined(kind, BoundaryAt(before, t, e), t[e..]))
  {
    hide TestIsDefined, Run, SchemeLen, LinkLen;
  }

  /** A pass returns exactly when each of those tests is defined. */
  lemma {:induction false} PassIsDefinedExactly(kind: Kind, before: bool, t: string)
    ensures PassIsDefined(kind, before, t) <==> TestsAreDefined(kind, before, t)
    decreases |t|
  {
    if t != [] {
      hide *;
      var e := PassStepEnd(kind, before, t);
      DefinedStep(kind, before, t);
      TestsInSteps(kind, before, t);
      PassIsDefinedExactly(kind, BoundaryAt(before, t, e), t[e..]);
    }
  }

  /** The test is defined at every key with an unquoted authorization value that the scan comes to. */
  ghost predicate ValueTestsAreDefined(t: string) {
    forall p | 0 <= p < |t| && ScanStandsAt(t, p) :: ValueTestIsDefined(t[p..])
  }

  lemma ValueTestsInSteps(t: string)
    requires t != []
    ensures ValueTestsAreDefined(t) <==> ValueTestIsDefined(t) && ValueTestsAreDefined(t[StepEnd(t)..])
  {
    hide ValueTestIsDefined, ScanStandsAt, StepEnd;
    var e := StepEnd(t);
    var u := t[e..];
    assert t[0..] == t;
    if ValueTestsAreDefined(t) {
      ScanOn(t, 0);
      forall p | 0 <= p < |u| && ScanStandsAt(u, p)
        ensures ValueTestIsDefined(u[p..])
      {
        ScanOn(t, e + p);
        Suffixes(t, e, e + p, p);
      }
    }
    if ValueTestIsDefined(t) && ValueTestsAreDefined(u) {
      forall p | 0 <= p < |t| && ScanStandsAt(t, p)
        ensures ValueTestIsDefined(t[p..])
      {
        ScanOn(t, p);
        if e <= p {
          Suffixes(t, e, p, p - e);
        }
      }
    }
  }

  lemma ValueDefinedStep(t: string)
    requires t != []
    ensures |t[StepEnd(t)..]| < |t|
    ensures KeyValuePassIsDefined(t) <==> ValueTestIsDefined(t) && KeyValuePassIsDefined(t[StepEnd(t)..])
  {
    hide HeadLen, KeyText, IsAuthorization, ValueStart, ValueOf, TestIsDefined;
  }

  /** The key/value pass returns exactly when each of those tests is defined. */
  lemma {:induction false} KeyValuePassIsDefinedExactly(t: string)
    ensures KeyValuePassIsDefined(t) <==> ValueTestsAreDefined(t)
    decreases |t|
  {
    if t != [] {
      hide *;
      ValueDefinedStep(t);
      ValueTestsInSteps(t);
      KeyValuePassIsDefinedExactly(t[StepEnd(t)..]);
    }
  }

  /** So the sanitizer returns exactly when no slice that any pass takes cuts a character. */
  lemma SanitizerIsDefinedExactly(s: string, values: seq<string>)
    ensures var known := KnownValuePass(s, values);
      var kv := KeyValuePass(known);
      SanitizerIsDefined(s, values) <==>
        && ValueTestsAreDefined(known)
        && TestsAreDefined(Credentials, true, kv)
        && TestsAreDefined(Links, true, Pass(Credentials, true, kv))
  {
    hide KnownValuePass, KeyValuePass, Pass, KeyValuePassIsDefined, PassIsDefined, ValueTestsAreDefined, TestsAreDefined;
    var known := KnownValuePass(s, values);
    var kv := KeyValuePass(known);
    KeyValuePassIsDefinedExactly(known);
    PassIsDefinedExactly(Credentials, true, kv);
    PassIsDefinedExactly(Links, true, Pass(Credentials, true, kv));
  }

  // ---- on ASCII text it is ---------------------------------------------------------------

  predicate IsAscii(t: string) { forall i | 0 <= i < |t| :: t[i] < '\U{80}' }

  lemma {:induction false} AsciiIsWhole(t: string, n: nat)
    requires IsAscii(t)
    ensures ByteLen(t) == |t|
    ensures n <= |t| ==> IsCharBoundary(t, n)
  {
    if t != [] {
      AsciiIsWhole(t[1..], if n > 0 then n - 1 else 0);
    }
  }

  lemma AsciiTestIsDefined(kind: Kind, t: string)
    requires IsAscii(t)
    ensures TestIsDefined(kind, t)
  {
    hide ByteLen, IsCharBoundary, StartsWithIgnoreCase;
    AsciiIsWhole(t, 6);
    AsciiIsWhole(t, 7);
    AsciiIsWhole(t, 8);
  }

  lemma {:induction false} AsciiPassIsDefined(kind: Kind, before: bool, t: string)
    requires IsAscii(t)
    ensures PassIsDefined(kind, before, t)
    decreases |t|
  {
    hide Trigger, TestIsDefined, Kept, Dropped, BoundaryAt;
    if t != [] {
      AsciiTestIsDefined(kind, t);
      if before && Trigger(kind, t) > 0 {
        TriggerStep(kind, t);
        AsciiPassIsDefined(kind, TailBoundary(kind, t), Tail(kind, t));
      } else {
        AsciiPassIsDefined(kind, BoundaryAt(true, t, 1), t[1..]);
      }
    }
  }

  lemma {:induction false} AsciiKeyValuePassIsDefined(t: string)
    requires IsAscii(t)
    ensures KeyValuePassIsDefined(t)
    decreases |t|
  {
    hide HeadLen, ValueStart, ValueOf, KeyText, TestIsDefined, IsAuthorization;
    if t != [] {
      if HeadLen(t) == 0 {
        AsciiKeyValuePassIsDefined(t[1..]);
      } else {
        AsciiTestIsDefined(Credentials, t[ValueStart(t)..]);
        AsciiKeyValuePassIsDefined(RestOf(t));
      }
    }
  }

  lemma {:induction false} PiecesAreAscii(ps: seq<Piece>)
    requires IsAscii(Original(ps))
    ensures IsAscii(Redacted(ps))
  {
    if ps != [] {
      var first := match ps[0] case Keep(c) => [c] case Cut(text) => text;
      assert Original(ps)[|first|..] == Original(ps[1..]);
      PiecesAreAscii(ps[1..]);
      assert ps[0].Keep? ==> Original(ps)[0] == ps[0].c;
    }
  }

  lemma RedactionIsAscii(s: string, o: string)
    requires IsAscii(s) && IsRedaction(s, o)
    ensures IsAscii(o)
  {
    var ps :| Original(ps) == s && Redacted(ps) == o;
    PiecesAreAscii(ps);
  }

  lemma {:induction false} KnownValuePassIsAscii(s: string, values: seq<string>)
    requires IsAscii(s)
    ensures IsAscii(KnownValuePass(s, values))
    decreases |values|
  {
    if values != [] {
      var v := Trim(values[0]);
      if v != [] {
        ReplaceRedacts(s, v);
        RedactionIsAscii(s, Replace(s, v));
      }
      KnownValuePassIsAscii(RedactValue(s, values[0]), values[1..]);
    }
  }

  /** On ASCII text no slice of any pass cuts a character. */
  lemma AsciiIsSanitized(s: string, values: seq<string>)
    requires IsAscii(s)
    ensures SanitizerIsDefined(s, values)
  {
    hide *;
    var known := KnownValuePass(s, values);
    var kv := KeyValuePass(known);
    KnownValuePassIsAscii(s, values);
    AsciiKeyValuePassIsDefined(known);
    KeyValuePassRedacts(known);
    RedactionIsAscii(known, kv);
    AsciiPassIsDefined(Credentials, true, kv);
    PassRedacts(Credentials, true, kv);
    RedactionIsAscii(kv, Pass(Credentials, true, kv));
    AsciiPassIsDefined(Links, true, Pass(Credentials, true, kv));
    DefinedParts(s, values);
  }

  lemma DefinedParts(s: string, values: seq<string>)
    ensures var known := KnownValuePass(s, values);
      var kv := KeyValuePass(known);
      SanitizerIsDefined(s, values) <==>
        && KeyValuePassIsDefined(known)
        && PassIsDefined(Credentials, true, kv)
        && PassIsDefined(Links, true, Pass(Credentials, true, kv))
  {
  }

  // ---- on other text it need not be --------------------------------------------------------

  const ACCENTS: string := "\U{E9}\U{E9}"

  lemma AccentsAreCopied()
    ensures KeyValuePass("abcd" + ("" + ACCENTS)) == "abcd" + ("" + ACCENTS)
  {
    hide KeyValuePass;
    Twice.MarkIsCopied('\U{E9}', []);
    Twice.MarkIsCopied('\U{E9}', "\U{E9}");
    NothingIsCopied();
    assert ['\U{E9}'] + [] == "\U{E9}" && ['\U{E9}'] + "\U{E9}" == ACCENTS;
    Twice.WordIsNoKey("abcd", "", ACCENTS);
  }

  lemma NothingIsCopied()
    ensures KeyValuePass([]) == []
  {
  }

  /** The comparison with the seven bytes of a `Bearer ` scheme cuts the last letter of these eight bytes. */
  lemma AccentsAreCut()
    ensures !PassIsDefined(Credentials, true, "abcd\U{E9}\U{E9}")
  {
    var t := "abcd\U{E9}\U{E9}";
    assert t[1..][1..][1..][1..] == "\U{E9}\U{E9}";
    assert IsCharBoundary(t, 7) == IsCharBoundary("\U{E9}\U{E9}", 3) == false;
    assert ByteLen(t) == 4 + ByteLen("\U{E9}\U{E9}") == 8;
  }

  /** The sanitizer does not return on this text, which its first passes hand on as it is. */
  lemma AccentIsCut()
    ensures !SanitizerIsDefined("abcd\U{E9}\U{E9}", [])
  {
    hide *;
    var t := "abcd" + ("" + ACCENTS);
    AccentText();
    Sanitizer.NoValues(t);
    AccentsAreCopied();
    AccentsAreCut();
    DefinedParts(t, []);
  }

  lemma AccentText()
    ensures "abcd\U{E9}\U{E9}" == "abcd" + ("" + ACCENTS)
  {
  }
}
