/** What the key/value pass leaves behind a masked value, and a text that a second run changes therefore. */
module Twice {
  import opened Text
  import opened Redaction
  import opened KnownValues
  import opened KeyValues
  import opened KeyValueLaws
  import opened KeyValueTheorems
  import opened KeyValueSecrecy
  import opened KeyValueGrammar
  import opened BoundaryPasses
  import opened BoundaryLaws
  import Sanitizer

  /** A word and blanks that run into something other than a separator are copied. */
  lemma {:induction false} WordIsNoKey(w: string, b: string, z: string)
    requires forall i | 0 <= i < |w| :: IsKeyContinue(w[i])
    requires forall i | 0 <= i < |b| :: IsSpace(b[i])
    requires z != [] && !IsSpace(z[0]) && !IsSeparator(z[0]) && (b == [] ==> !IsKeyContinue(z[0]))
    ensures KeyValuePass(w + (b + z)) == w + (b + KeyValuePass(z))
    decreases |w| + |b|
  {
    hide *;
    var t := w + (b + z);
    if w != [] {
      NoHeadInWord(w, b, z);
      CopyStep(t);
      WordIsNoKey(w[1..], b, z);
      Shifted(w, b + z, b + KeyValuePass(z), KeyValuePass(t), KeyValuePass(t[1..]));
    } else {
      BlanksAreCopied(b, z);
      assert t == b + z && w + (b + KeyValuePass(z)) == b + KeyValuePass(z);
    }
  }

  lemma Shifted(w: string, x: string, y: string, o: string, o': string)
    requires w != []
    ensures (w + x)[0] == w[0] && (w + x)[1..] == w[1..] + x
    ensures o == [w[0]] + o' && o' == w[1..] + y ==> o == w + y
  {
    assert [w[0]] + (w[1..] + y) == w + y;
  }

  lemma NoHeadInWord(w: string, b: string, z: string)
    requires w != [] && forall i | 0 <= i < |w| :: IsKeyContinue(w[i])
    requires forall i | 0 <= i < |b| :: IsSpace(b[i])
    requires z != [] && !IsSpace(z[0]) && !IsSeparator(z[0]) && (b == [] ==> !IsKeyContinue(z[0]))
    ensures HeadLen(w + (b + z)) == 0
  {
    hide IsSensitiveKey, KeyText;
    var t := w + (b + z);
    RunIs(KeyChar, t, |w|);
    assert t[|w|..] == b + z;
    RunIs(Blank, t[|w|..], |b|);
  }

  lemma {:induction false} BlanksAreCopied(b: string, z: string)
    requires forall i | 0 <= i < |b| :: IsSpace(b[i])
    ensures KeyValuePass(b + z) == b + KeyValuePass(z)
  {
    hide *;
    if b == [] {
      assert b + z == z;
    } else {
      BlankIsNoKey(b[0]);
      MarkIsCopied(b[0], b[1..] + z);
      assert [b[0]] + (b[1..] + z) == b + z;
      BlanksAreCopied(b[1..], z);
      assert [b[0]] + (b[1..] + KeyValuePass(z)) == b + KeyValuePass(z);
    }
  }

  lemma BlankIsNoKey(c: char)
    ensures IsSpace(c) ==> !IsKeyStart(c) && c != '"'
  {
  }

  /** A character that starts no key is copied, a quote only if no key follows it. */
  lemma MarkIsCopied(c: char, z: string)
    requires !IsKeyStart(c) && (c == '"' && z != [] ==> !IsKeyStart(z[0]))
    ensures KeyValuePass([c] + z) == [c] + KeyValuePass(z)
  {
    var t := [c] + z;
    assert t[1..] == z && KeyEnd(t) == 0;
    CopyStep(t);
  }

  lemma MarkerIsNoKey(z: string)
    requires z != []
    ensures KeyValuePass(MARKER + z) == MARKER + KeyValuePass(z)
  {
    hide KeyValuePass;
    var w := "redacted";
    var y := ['>'] + z;
    MarkIsCopied('<', w + ("" + y));
    WordIsNoKey(w, "", y);
    MarkIsCopied('>', z);
    assert MARKER + z == ['<'] + (w + ("" + y));
    assert ['<'] + (w + ("" + (['>'] + KeyValuePass(z)))) == MARKER + KeyValuePass(z);
  }

  // ---- a key behind the closing quote of a masked value --------------------------

  /** A word that goes on with a quote, blanks, a separator and `y`. */
  function KeyThen(w: string, b: string, c: char, y: string): string {
    w + ("\"" + (b + ([c] + y)))
  }

  lemma KeyThenIsCopied(w: string, b: string, c: char, y: string)
    requires IsWord(w) && AreBlanks(b) && IsSeparator(c)
    ensures KeyValuePass(KeyThen(w, b, c, y)) == KeyThen(w, b, c, KeyValuePass(y))
  {
    hide KeyValuePass;
    var z := [c] + y;
    MarkIsCopied(c, y);
    BlanksAreCopied(b, z);
    MarkIsCopied('"', b + z);
    WordIsNoKey(w, "", "\"" + (b + z));
    assert "" + ("\"" + (b + z)) == "\"" + (b + z);
    assert "" + ("\"" + (b + KeyValuePass(z))) == "\"" + (b + KeyValuePass(z));
  }

  /** Behind a quote such a word is a key, if it is a sensitive one. */
  lemma KeyThenIsKey(w: string, b: string, c: char, y: string)
    requires IsWord(w) && IsSensitiveKey(w) && AreBlanks(b) && IsSeparator(c)
    ensures HeadLen("\"" + KeyThen(w, b, c, y)) == |w| + |b| + 3
    ensures KeyText("\"" + KeyThen(w, b, c, y)) == w
  {
    hide *;
    var k := Key(true, w, b, c);
    KeyThenText(k, y);
    KeyIsRead(k, y);
  }

  lemma KeyThenText(k: Key, y: string)
    requires k.quoted
    ensures k.Text() + y == "\"" + KeyThen(k.word, k.blanks, k.separator, y)
    ensures |k.Text()| == |k.word| + |k.blanks| + 3
    ensures k.Valid() <==> IsWord(k.word) && AreBlanks(k.blanks) && IsSeparator(k.separator)
  {
  }

  /**
   * The value of a sensitive key that starts at the closing quote of another key's value stays:
   * the scan goes on behind that quote, so the text from the key on is passed through.
   */
  lemma KeyBehindMaskIsKept(h: string, v: string, w: string, b: string, c: char, y: string)
    requires IsHead(h) && IsQuoted(v)
    requires IsWord(w) && IsSensitiveKey(w) && AreBlanks(b) && IsSeparator(c)
    ensures var z := KeyThen(w, b, c, KeyValuePass(y));
      && KeyValuePass(h + (v + KeyThen(w, b, c, y))) == h + ("\"" + MARKER + "\"") + z
      && HeadLen("\"" + z) > 0 && KeyText("\"" + z) == w
  {
    hide *;
    SeparatorOf(h);
    QuotedFills(IsAuthorization(KeyText(h)), v, KeyThen(w, b, c, y));
    FilledOutput(h, v, KeyThen(w, b, c, y), "\"", "\"");
    KeyThenIsCopied(w, b, c, y);
    KeyThenIsKey(w, b, c, KeyValuePass(y));
  }

  // ---- a text that a second run changes ---------------------------------------------

  const TAIL: string := "key\":v"
  const TEXT: string := "basic to= \"\"" + TAIL
  const ONCE: string := "basic " + MARKER + " \"" + MARKER + "\"" + TAIL

  const TWICE: string := "basic " + MARKER + " \"" + MARKER + "\"key\":" + MARKER

  lemma Heads()
    ensures IsHead("to= ") && !IsAuthorization(KeyText("to= "))
    ensures IsHead("\"key\":") && !IsAuthorization(KeyText("\"key\":"))
  {
    hide IsSensitiveKey, IsHead, KeyText, IsAuthorization;
    SensitiveWords();
    HeadOfKey(Key(false, "to", "", '='), " ");
    HeadOfKey(Key(true, "key", "", ':'), "");
    assert "to= " == Key(false, "to", "", '=').Text() + " ";
    assert "\"key\":" == Key(true, "key", "", ':').Text() + "";
  }

  lemma ShortWords()
    ensures NormalizedKey("to") == "to" && NormalizedKey("key") == "key"
  {
    var to, key := "to", "key";
    assert to[1..] == "o" && "o"[1..] == "" && NormalizedKey("o") == "o";
    assert key[1..] == "ey" && "ey"[1..] == "y" && "y"[1..] == "" && NormalizedKey("y") == "y";
    assert NormalizedKey("ey") == "ey";
  }

  lemma SensitiveWords()
    ensures IsSensitiveKey("to") && IsSensitiveKey("key")
    ensures !IsAuthorization("to") && !IsAuthorization("key")
  {
    hide NormalizedKey;
    ShortWords();
    assert SENSITIVE_KEYS[22] == "to" && SENSITIVE_KEYS[10] == "key";
  }

  lemma LastLetter()
    ensures KeyValuePass("v") == "v"
  {
    var v := "v";
    RunIs(KeyChar, v, 1);
    assert HeadLen(v) == 0 && v[1..] == [];
  }

  lemma FirstParts()
    ensures TEXT == "basic" + (" " + ("to= " + ("\"\"" + TAIL)))
    ensures "basic" + (" " + ("to= " + ("\"" + MARKER + "\"") + TAIL)) == "basic to= \"" + MARKER + "\"" + TAIL
  {
  }

  lemma FirstKeyValues()
    ensures KeyValuePass(TEXT) == "basic to= \"" + MARKER + "\"" + TAIL
  {
    hide KeyValuePass, HeadLen, IsHead, KeyText, IsAuthorization, Fills, IsSensitiveKey, IsQuoted;
    var h, v := "to= ", "\"\"";
    Heads();
    SensitiveWords();
    EmptyBody();
    KeyBehindMaskIsKept(h, v, "key", "", ':', "v");
    LastLetter();
    assert KeyThen("key", "", ':', "v") == TAIL;
    WordIsNoKey("basic", " ", h + (v + TAIL));
    FirstParts();
  }

  lemma EmptyBody()
    ensures IsQuoted("\"\"")
  {
    var v := "\"\"";
    assert v[1..] == "\"";
  }

  /** Credentials are masked between a scheme and a text without another one. */
  lemma CredentialsMasked(value: string, rest: string)
    requires value != [] && forall i | 0 <= i < |value| :: Is(ValueChar, value[i])
    requires rest != [] && !Is(ValueChar, rest[0])
    requires forall i | 0 <= i < |rest| :: !Starts(Credentials, rest[i])
    ensures Pass(Credentials, true, "basic " + (value + rest)) == "basic " + MARKER + rest
  {
    hide Pass;
    var scheme := "basic ";
    var t := scheme + (value + rest);
    assert SchemeLen(t) == 6 && t[6..] == value + rest;
    RunIs(ValueChar, value + rest, |value|);
    MatchStep(Credentials, t);
    var n := 6 + |value|;
    assert t[n..] == rest && t[..6] == scheme;
    AllCopied(Credentials, BoundaryAt(true, t, n), rest);
  }

  lemma AllCopied(kind: Kind, before: bool, w: string)
    requires forall i | 0 <= i < |w| :: !Starts(kind, w[i])
    ensures Pass(kind, before, w) == w
  {
    WordIsCopied(kind, before, w, []);
    assert w + [] == w;
  }

  lemma FirstRun()
    ensures Sanitizer.Sanitized(TEXT, []) == ONCE
  {
    hide KeyValuePass, Pass;
    FirstKeyValues();
    var value, rest := "to=", " \"" + MARKER + "\"" + TAIL;
    CredentialsMasked(value, rest);
    assert "basic to= \"" + MARKER + "\"" + TAIL == "basic " + (value + rest);
    assert "basic " + MARKER + rest == ONCE;
    AllCopied(Links, true, ONCE);
  }

  /** A text behind which the scan of the second run finds `z`. */
  function Around(z: string): string {
    "basic" + (" " + (MARKER + ([' '] + (['"'] + (MARKER + z)))))
  }

  lemma AroundIsCopied(z: string)
    requires z != []
    ensures KeyValuePass(Around(z)) == Around(KeyValuePass(z))
  {
    hide KeyValuePass;
    MarkerIsNoKey(z);
    MarkIsCopied('"', MARKER + z);
    MarkIsCopied(' ', ['"'] + (MARKER + z));
    MarkerIsNoKey([' '] + (['"'] + (MARKER + z)));
    WordIsNoKey("basic", " ", MARKER + ([' '] + (['"'] + (MARKER + z))));
  }

  lemma AroundIs()
    ensures ONCE == Around("\"key\":" + ("v" + []))
    ensures TWICE == Around("\"key\":" + ("" + MARKER + "") + [])
  {
  }

  lemma NothingIsEmpty()
    ensures KeyValuePass([]) == []
  {
  }

  /** After the first run the closing quote of a masked value opens a key. */
  lemma SecondKeyValues()
    ensures KeyValuePass(ONCE) == TWICE
  {
    hide *;
    Heads();
    BareV();
    FilledOutput("\"key\":", "v", [], "", "");
    AroundIsCopied("\"key\":" + ("v" + []));
    AroundIs();
    NothingIsEmpty();
  }

  lemma BareV()
    ensures Fills(false, "v", [], "", "")
  {
    BareFills("v", []);
  }

  lemma SecondRun()
    ensures Sanitizer.Sanitized(ONCE, []) == TWICE
  {
    hide KeyValuePass, Pass, TWICE;
    SecondKeyValues();
    var rest := " \"" + MARKER + "\"key\":" + MARKER;
    CredentialsMasked(MARKER, rest);
    TwiceIs(rest);
    AllCopied(Links, true, TWICE);
  }

  lemma TwiceIs(rest: string)
    requires rest == " \"" + MARKER + "\"key\":" + MARKER
    ensures "basic " + (MARKER + rest) == TWICE && "basic " + MARKER + rest == TWICE
    ensures forall i | 0 <= i < |TWICE| :: !Starts(Links, TWICE[i])
  {
  }

  /** Sanitizing this text a second time changes it. */
  lemma SanitizingTwiceDiffers()
    ensures Sanitizer.Sanitized(Sanitizer.Sanitized(TEXT, []), []) != Sanitizer.Sanitized(TEXT, [])
  {
    hide Sanitizer.Sanitized;
    FirstRun();
    SecondRun();
    assert |TWICE| != |ONCE|;
  }
}
