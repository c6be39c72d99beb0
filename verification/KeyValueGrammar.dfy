/** What a sensitive key and its value are, said without the scan: the texts the key/value pass masks. */
module KeyValueGrammar {
  import opened Text
  import opened Redaction
  import opened KeyValues
  import opened KeyValueLaws
  import opened KeyValueTheorems
  import opened KeyValueSecrecy

  predicate IsWord(w: string) {
    w != [] && IsKeyStart(w[0]) && forall i | 0 <= i < |w| :: IsKeyContinue(w[i])
  }

  predicate AreBlanks(b: string) { forall i | 0 <= i < |b| :: IsSpace(b[i]) }

  /** A word, perhaps in quotes, blanks and a separator. */
  datatype Key = Key(quoted: bool, word: string, blanks: string, separator: char) {
    predicate Valid() { IsWord(word) && AreBlanks(blanks) && IsSeparator(separator) }

    function Name(): string { if quoted then "\"" + word + "\"" else word }

    function Text(): string { Name() + blanks + [separator] }
  }

  /** A sensitive key with its separator starts `t`. */
  ghost predicate StartsWithKey(t: string) {
    exists k: Key :: k.Valid() && IsSensitiveKey(k.word) && k.Text() <= t
  }

  lemma QuotedNameEnds(w: string, x: string)
    requires IsWord(w)
    ensures var t := "\"" + (w + ("\"" + x));
      KeyEnd(t) == |w| + 2 && KeyText(t) == w && t[|w| + 2..] == x
  {
    var n, t := |w|, "\"" + (w + ("\"" + x));
    assert t[1..] == w + ("\"" + x) && t[1] == w[0] && t[n + 1] == '"';
    RunIs(KeyChar, t[1..], n);
    assert t[1..n + 1] == w;
  }

  lemma BareNameEnds(w: string, x: string)
    requires IsWord(w) && x != [] && !IsKeyContinue(x[0])
    ensures KeyEnd(w + x) == |w| && KeyText(w + x) == w
  {
    RunIs(KeyChar, w + x, |w|);
    assert (w + x)[0] == w[0];
  }

  lemma NameEnds(k: Key, x: string)
    requires k.Valid() && x != [] && (IsSpace(x[0]) || IsSeparator(x[0]))
    ensures var t := k.Name() + x;
      KeyEnd(t) == |k.Name()| && KeyText(t) == k.word && t[|k.Name()|..] == x
  {
    hide KeyEnd, KeyText, IsWord;
    if k.quoted {
      assert k.Name() + x == "\"" + (k.word + ("\"" + x));
      QuotedNameEnds(k.word, x);
    } else {
      BareNameEnds(k.word, x);
    }
  }

  lemma BlanksEnd(b: string, c: char, z: string)
    requires AreBlanks(b) && IsSeparator(c)
    ensures var x := b + ([c] + z); Run(Blank, x) == |b| && x[|b|] == c && (IsSpace(x[0]) || IsSeparator(x[0]))
  {
    var x := b + ([c] + z);
    RunIs(Blank, x, |b|);
  }

  /** Such a text has a key of exactly this length, if the word is a sensitive one. */
  lemma KeyIsRead(k: Key, z: string)
    requires k.Valid()
    ensures var t := k.Text() + z;
      && HeadLen(t) == (if IsSensitiveKey(k.word) then |k.Text()| else 0)
      && KeyEnd(t) > 0 && KeyText(t) == k.word
  {
    hide IsSensitiveKey, KeyEnd, KeyText, Run;
    var b, c := k.blanks, k.separator;
    var t, x := k.Text() + z, b + ([c] + z);
    assert t == k.Name() + x;
    BlanksEnd(b, c, z);
    NameEnds(k, x);
    assert t[|k.Name()| + |b|] == x[|b|];
  }

  lemma WordIsRead(t: string, q: nat, n: nat)
    requires HeadLen(t) > 0 && q == (if t[0] == '"' then 1 else 0) && q <= |t|
    requires n == Run(KeyChar, t[q..]) > 0
    ensures q + n <= |t| && IsWord(t[q..q + n]) && t[q..q + n] == KeyText(t) && IsSensitiveKey(t[q..q + n])
  {
    hide IsSensitiveKey, Run;
    var w, u := t[q..q + n], t[q..];
    assert forall i | 0 <= i < n :: w[i] == u[i];
    assert t[0..] == t;
  }

  lemma BlanksAreRead(t: string, b: nat, e: nat)
    requires b <= e <= |t| && e == b + Run(Blank, t[b..])
    ensures AreBlanks(t[b..e])
  {
    hide Run;
    var w, u := t[b..e], t[b..];
    assert forall i | 0 <= i < e - b :: w[i] == u[i];
  }

  lemma NameIsFront(t: string, q: nat, n: nat)
    requires q <= 1 && q + n + q <= |t| && (q == 1 ==> t[0] == '"' && t[n + 1] == '"')
    ensures t[..q + n + q] == if q == 1 then "\"" + t[q..q + n] + "\"" else t[q..q + n]
  {
  }

  lemma TextIsFront(t: string, b: nat, h: nat)
    requires b < h <= |t|
    ensures t[..h] == t[..b] + t[b..h - 1] + [t[h - 1]]
  {
  }

  /** What the scan finds is such a key. */
  lemma ReadIsKey(t: string) returns (k: Key)
    requires HeadLen(t) > 0
    ensures k.Valid() && k.Text() == t[..HeadLen(t)] && k.word == KeyText(t) && IsSensitiveKey(k.word)
  {
    hide IsSensitiveKey, Run, HeadLen, KeyEnd, KeyText, IsWord, AreBlanks;
    var q, n, b := HeadParts(t);
    var h := HeadLen(t);
    k := Key(q == 1, t[q..q + n], t[b..h - 1], t[h - 1]);
    WordIsRead(t, q, n);
    BlanksAreRead(t, b, h - 1);
    NameIsFront(t, q, n);
    TextIsFront(t, b, h);
  }

  /** The scan sees a sensitive key exactly where one stands, bare or in quotes, with any blanks behind it. */
  lemma HeadExactly(t: string)
    ensures HeadLen(t) > 0 <==> StartsWithKey(t)
  {
    hide *;
    if HeadLen(t) > 0 {
      var k := ReadIsKey(t);
      KeyStandsAt(k, t, HeadLen(t));
    }
    if StartsWithKey(t) {
      KeyAt(t);
    }
  }

  lemma KeyStandsAt(k: Key, t: string, h: nat)
    requires k.Valid() && IsSensitiveKey(k.word) && h <= |t| && k.Text() == t[..h]
    ensures StartsWithKey(t)
  {
    hide IsSensitiveKey;
    assert k.Text() <= t;
  }

  lemma KeyAt(t: string)
    requires StartsWithKey(t)
    ensures HeadLen(t) > 0
  {
    hide HeadLen, IsSensitiveKey;
    var k: Key :| k.Valid() && IsSensitiveKey(k.word) && k.Text() <= t;
    var z := t[|k.Text()|..];
    KeyIsRead(k, z);
    assert k.Text() + z == t;
  }

  // ---- what is put in the place of a value -----------------------------------------------

  /** Behind a sensitive key and blanks, the scan reads a value. */
  lemma HeadOfKey(k: Key, gap: string)
    requires k.Valid() && IsSensitiveKey(k.word) && AreBlanks(gap)
    ensures IsHead(k.Text() + gap) && KeyText(k.Text() + gap) == k.word
  {
    hide IsSensitiveKey, HeadLen, KeyText, KeyEnd, Run;
    var t := k.Text() + gap;
    KeyIsRead(k, gap);
    assert t[|k.Text()|..] == gap;
    RunIs(Blank, gap, |gap|);
  }

  /** The bare value of any sensitive key but an authorization, up to a blank, an ampersand or the end, is masked. */
  lemma BareValueIsMasked(k: Key, gap: string, v: string, r: string)
    requires k.Valid() && IsSensitiveKey(k.word) && AreBlanks(gap)
    requires NormalizedKey(k.word) != "authorization" && IsBare(v, r)
    ensures KeyValuePass(k.Text() + gap + (v + r)) == k.Text() + gap + MARKER + KeyValuePass(r)
  {
    var h := k.Text() + gap;
    hide *;
    HeadOfKey(k, gap);
    SeparatorOf(h);
    AuthorizationIs(h);
    BareFills(v, r);
    FilledOutput(h, v, r, "", "");
    Unquoted(h);
  }

  lemma AuthorizationIs(h: string)
    requires KeyEnd(h) > 0
    ensures IsAuthorization(KeyText(h)) <==> NormalizedKey(KeyText(h)) == "authorization"
  {
  }

  lemma Unquoted(h: string)
    ensures h + ("" + MARKER + "") == h + MARKER
  {
    assert "" + MARKER + "" == MARKER;
  }

  /** A text in quotes, every quote in which is escaped. */
  predicate IsQuotedText(v: string) {
    |v| >= 2 && v[0] == '"' && v[|v| - 1] == '"' && EndsBody(v, 1, |v| - 1)
  }

  lemma QuotedTextIs(v: string)
    ensures IsQuotedText(v) <==> IsQuoted(v)
  {
    hide BodyLen, EndsBody;
    if |v| >= 2 {
      BodyEndsExactly(v, 1, |v| - 1);
      if IsQuoted(v) {
        assert v[1..][|v| - 2] == v[|v| - 1];
      }
    }
  }

  /** The quoted value of any sensitive key is masked between its quotes, escaped quotes and all. */
  lemma QuotedValueIsMasked(k: Key, gap: string, v: string, r: string)
    requires k.Valid() && IsSensitiveKey(k.word) && AreBlanks(gap) && IsQuotedText(v)
    ensures KeyValuePass(k.Text() + gap + (v + r)) == k.Text() + gap + ("\"" + MARKER + "\"") + KeyValuePass(r)
  {
    var h := k.Text() + gap;
    hide *;
    HeadOfKey(k, gap);
    SeparatorOf(h);
    QuotedTextIs(v);
    QuotedFills(IsAuthorization(KeyText(h)), v, r);
    FilledOutput(h, v, r, "\"", "\"");
  }

  /** A quoted value without a closing quote is masked to the end of the text. */
  lemma OpenValueIsMasked(k: Key, gap: string, v: string)
    requires k.Valid() && IsSensitiveKey(k.word) && AreBlanks(gap)
    requires v != [] && v[0] == '"' && EndsBody(v, 1, |v|)
    ensures KeyValuePass(k.Text() + gap + v) == k.Text() + gap + ("\"" + MARKER)
  {
    var h := k.Text() + gap;
    hide *;
    HeadOfKey(k, gap);
    SeparatorOf(h);
    OpenFills(IsAuthorization(KeyText(h)), v);
    FilledOutput(h, v, [], "\"", "");
    NothingBehind(h, v);
  }

  lemma OpenFills(auth: bool, v: string)
    requires v != [] && v[0] == '"' && EndsBody(v, 1, |v|)
    ensures Fills(auth, v, [], "\"", "")
  {
    hide BodyLen, EndsBody;
    BodyEndsExactly(v, 1, |v|);
    assert v + [] == v;
  }

  lemma NothingBehind(h: string, v: string)
    ensures h + (v + []) == h + v && KeyValuePass([]) == []
    ensures h + ("\"" + MARKER + "") + [] == h + ("\"" + MARKER)
  {
    assert v + [] == v;
    assert "\"" + MARKER + "" == "\"" + MARKER;
  }

  /** The text of one of the two schemes, in any case, with the blank behind it. */
  predicate IsScheme(scheme: string) {
    (|scheme| == 6 && StartsWithIgnoreCase(scheme, "basic ")) || (|scheme| == 7 && StartsWithIgnoreCase(scheme, "bearer "))
  }

  lemma SchemeIsScheme(scheme: string)
    requires IsScheme(scheme)
    ensures SchemeLen(scheme) == |scheme| > 0
  {
    var basic, bearer := "basic ", "bearer ";
    if |scheme| == 7 {
      assert Lower(scheme[1]) == bearer[1] && basic[1] == 'a';
    }
  }

  /** Of an authorization key, the scheme and the bare text behind it are masked as one value. */
  lemma AuthorizationIsMasked(k: Key, gap: string, scheme: string, v: string, r: string)
    requires k.Valid() && IsSensitiveKey(k.word) && AreBlanks(gap)
    requires NormalizedKey(k.word) == "authorization" && IsScheme(scheme)
    requires forall i | 0 <= i < |v| :: Is(ValueChar, v[i])
    requires r != [] ==> !Is(ValueChar, r[0])
    ensures KeyValuePass(k.Text() + gap + (scheme + v + r)) == k.Text() + gap + MARKER + KeyValuePass(r)
  {
    var h := k.Text() + gap;
    hide *;
    HeadOfKey(k, gap);
    SeparatorOf(h);
    AuthorizationIs(h);
    SchemeIsScheme(scheme);
    CredentialsOf(scheme, v, r);
    CredentialsFill(scheme + v, r);
    FilledOutput(h, scheme + v, r, "", "");
    Unquoted(h);
  }

  lemma CredentialsOf(scheme: string, v: string, r: string)
    requires SchemeLen(scheme) == |scheme| > 0
    requires forall i | 0 <= i < |v| :: Is(ValueChar, v[i])
    requires r != [] ==> !Is(ValueChar, r[0])
    ensures IsCredentials(scheme + v, r)
  {
    hide SchemeLen;
    SchemeInFront(scheme, v);
  }

  /** Without a scheme it is the bare text alone. */
  lemma PlainAuthorizationIsMasked(k: Key, gap: string, v: string, r: string)
    requires k.Valid() && IsSensitiveKey(k.word) && AreBlanks(gap)
    requires NormalizedKey(k.word) == "authorization" && IsBare(v, r)
    requires !StartsWithIgnoreCase(v + r, "basic ") && !StartsWithIgnoreCase(v + r, "bearer ")
    ensures KeyValuePass(k.Text() + gap + (v + r)) == k.Text() + gap + MARKER + KeyValuePass(r)
  {
    var h := k.Text() + gap;
    hide *;
    HeadOfKey(k, gap);
    SeparatorOf(h);
    AuthorizationIs(h);
    PlainFills(v, r);
    FilledOutput(h, v, r, "", "");
    Unquoted(h);
  }

  lemma PlainFills(v: string, r: string)
    requires IsBare(v, r) && !StartsWithIgnoreCase(v + r, "basic ") && !StartsWithIgnoreCase(v + r, "bearer ")
    ensures Fills(true, v, r, "", "")
  {
    hide StartsWithIgnoreCase;
    var u := v + r;
    assert u[0..] == u;
    RunIs(ValueChar, u, |v|);
  }
}
