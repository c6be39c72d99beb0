/** The pass that masks the values of sensitive keys, as a function of the text still to scan. */
module KeyValues {
  import opened Text
  import opened Redaction

  // The table of the original. Two of its entries hold an underscore, which a
  // normalized key never does, so they never match.
  const SENSITIVE_KEYS: seq<string> := [
    "authorization", "authtoken", "accesstoken", "refreshtoken", "idtoken", "token", "password",
    "passwd", "secret", "apikey", "key", "sid", "accountsid", "messagesid", "message_sid", "mediasid",
    "parentsid", "servicesid", "messagingservicesid", "phonenumbersid", "shortcodesid", "body", "to",
    "from", "fallbackfrom", "url", "uri", "mediaurl", "mediaurls", "persistentaction",
    "persistentactions", "contentvariables", "contentvariablesjson", "tags", "tagsjson",
    "statuscallback", "callbackurl", "inboundrequesturl", "fallbackurl", "sender", "alphasender",
    "friendlyname", "phone_number", "phonenumber", "shortcode", "subresourceuris", "links",
    "nextpageuri", "firstpageuri", "previouspageuri", "nextpageurl", "firstpageurl", "previouspageurl"
  ]

  /** The key in lower case without anything but letters and digits. */
  function NormalizedKey(key: string): string {
    if key == [] then [] else NormalizedChar(key[0]) + NormalizedKey(key[1..])
  }

  function NormalizedChar(c: char): string { if IsAlnum(c) then [Lower(c)] else [] }

  /** Every letter and digit counts, in lower case and in its place; nothing else does. */
  lemma {:induction false} NormalizedKeyInParts(a: string, c: char, b: string)
    ensures NormalizedKey(a + ([c] + b))
      == NormalizedKey(a) + (if IsAlnum(c) then [Lower(c)] else []) + NormalizedKey(b)
  {
    assert NormalizedChar(c) == if IsAlnum(c) then [Lower(c)] else [];
    hide NormalizedChar;
    var k := a + ([c] + b);
    if a == [] {
      assert k[0] == c && k[1..] == b;
      assert [] + NormalizedChar(c) == NormalizedChar(c);
    } else {
      assert k[0] == a[0] && k[1..] == a[1..] + ([c] + b);
      NormalizedKeyInParts(a[1..], c, b);
      Grouped(NormalizedChar(a[0]), NormalizedKey(a[1..]), NormalizedChar(c), NormalizedKey(b));
    }
  }

  lemma Grouped(a: string, b: string, c: string, d: string)
    ensures a + (b + c + d) == a + b + c + d
  {
  }

  /** Normalizing leaves lower-case letters and digits. */
  lemma {:induction false} NormalizedKeyIsPlain(key: string)
    ensures forall c | c in NormalizedKey(key) :: IsDigit(c) || 'a' <= c <= 'z'
  {
    if key != [] {
      NormalizedKeyIsPlain(key[1..]);
    }
  }

  /** So an entry of the table with anything else in it is the normalized form of no key. */
  lemma UnderscoresMatchNothing(key: string)
    ensures NormalizedKey(key) != "message_sid" && NormalizedKey(key) != "phone_number"
  {
    hide NormalizedKey;
    NormalizedKeyIsPlain(key);
    assert '_' in "message_sid" by { assert "message_sid"[7] == '_'; }
    assert '_' in "phone_number" by { assert "phone_number"[5] == '_'; }
  }

  predicate IsSensitiveKey(key: string) { NormalizedKey(key) in SENSITIVE_KEYS }

  predicate IsAuthorization(key: string) { NormalizedKey(key) == "authorization" }

  /** The length of a `Basic ` or `Bearer ` scheme at the front of `t`, or zero. */
  function SchemeLen(t: string): (n: nat)
    ensures n <= |t|
  {
    if StartsWithIgnoreCase(t, "basic ") then 6
    else if StartsWithIgnoreCase(t, "bearer ") then 7
    else 0
  }

  /** The length of an authorization scheme at a boundary of `s`, or zero. */
  function AuthSchemeAt(s: string, i: nat): (n: nat)
    requires i <= |s|
    ensures i + n <= |s|
  {
    if BoundaryAt(true, s, i) then SchemeLen(s[i..]) else 0
  }

  /** The end of a bare or quoted key at the front of `t`, its closing quote included, or zero. */
  function KeyEnd(t: string): (e: nat)
    ensures e <= |t|
  {
    if t == [] then 0
    else if IsKeyStart(t[0]) then Run(KeyChar, t)
    else if t[0] == '"' && |t| > 1 && IsKeyStart(t[1]) then
      var e := 1 + Run(KeyChar, t[1..]);
      if e < |t| && t[e] == '"' then e + 1 else 0
    else 0
  }

  function KeyText(t: string): string
    requires KeyEnd(t) > 0
  {
    if t[0] == '"' then t[1..KeyEnd(t) - 1] else t[..KeyEnd(t)]
  }

  /** The length of a sensitive key with its separator at the front of `t`, or zero. */
  function HeadLen(t: string): (h: nat)
    ensures h <= |t|
    ensures h > 0 ==> KeyEnd(t) > 0
  {
    var e := KeyEnd(t);
    if e == 0 then 0 else
    var c := e + Run(Blank, t[e..]);
    if c < |t| && IsSeparator(t[c]) && IsSensitiveKey(KeyText(t)) then c + 1 else 0
  }

  /** Where the value of that key starts: behind the blanks after the separator. */
  function ValueStart(t: string): (c: nat)
    ensures HeadLen(t) <= c <= |t|
  {
    HeadLen(t) + Run(Blank, t[HeadLen(t)..])
  }

  /** The position of the first unescaped quote, or the length of `t`. */
  function BodyLen(t: string, escaped: bool): (n: nat)
    ensures n <= |t|
    ensures n < |t| ==> t[n] == '"'
  {
    if t == [] then 0
    else if escaped then 1 + BodyLen(t[1..], false)
    else if t[0] == '\\' then 1 + BodyLen(t[1..], true)
    else if t[0] == '"' then 0
    else 1 + BodyLen(t[1..], false)
  }

  /** The character at `i` of a quoted body that starts at `start` is escaped, found by looking back. */
  predicate IsEscaped(s: string, start: nat, i: nat)
    requires start <= i <= |s|
  {
    i > start && s[i - 1] == '\\' && !IsEscaped(s, start, i - 1)
  }

  /** The body that starts at `start` ends at `i`: at its first quote that is not escaped, or with the text. */
  predicate EndsBody(s: string, start: nat, i: nat)
    requires start <= i <= |s|
  {
    && (forall j | start <= j < i && s[j] == '"' :: IsEscaped(s, start, j))
    && (i < |s| ==> s[i] == '"' && !IsEscaped(s, start, i))
  }

  lemma EscapedStep(s: string, start: nat, i: nat)
    requires start <= i < |s|
    ensures IsEscaped(s, start, i + 1) <==> s[i] == '\\' && !IsEscaped(s, start, i)
  {
  }

  lemma BodyStep(s: string, i: nat, escaped: bool)
    requires i <= |s|
    ensures i == |s| ==> BodyLen(s[i..], escaped) == 0
    ensures i < |s| && !escaped && s[i] == '"' ==> BodyLen(s[i..], escaped) == 0
    ensures i < |s| && (escaped || s[i] != '"') ==>
      BodyLen(s[i..], escaped) == 1 + BodyLen(s[i + 1..], !escaped && s[i] == '\\')
  {
    if i < |s| {
      assert s[i..][1..] == s[i + 1..] && s[i..][0] == s[i];
    }
  }

  lemma {:induction false} BodyEndsFrom(s: string, start: nat, i: nat)
    requires start <= i <= |s|
    ensures var n := i + BodyLen(s[i..], IsEscaped(s, start, i));
      && (forall j | i <= j < n && s[j] == '"' :: IsEscaped(s, start, j))
      && (n < |s| ==> s[n] == '"' && !IsEscaped(s, start, n))
    decreases |s| - i
  {
    hide BodyLen, IsEscaped;
    BodyStep(s, i, IsEscaped(s, start, i));
    if i < |s| {
      EscapedStep(s, start, i);
      BodyEndsFrom(s, start, i + 1);
    }
  }

  /** `BodyLen` finds that end, and there is no other. */
  lemma BodyEndsExactly(s: string, start: nat, i: nat)
    requires start <= i <= |s|
    ensures EndsBody(s, start, i) <==> i == start + BodyLen(s[start..], false)
  {
    hide BodyLen;
    BodyEndsFrom(s, start, start);
  }

  /** How much of `u` the value is, and the quotes that stay around it. */
  datatype Value = Value(len: nat, open: string, close: string)

  function ValueAt(u: string, auth: bool): (v: Value)
    ensures |v.open| + |v.close| <= v.len <= |u|
  {
    if u != [] && u[0] == '"' then
      var n := 1 + BodyLen(u[1..], false);
      if n < |u| then Value(n + 1, "\"", "\"") else Value(n, "\"", "")
    else
      var n := if auth then SchemeLen(u) else 0;
      Value(n + Run(ValueChar, u[n..]), "", "")
  }

  /** What stands in the output for such a value. */
  function Masked(v: Value): string { v.open + MARKER + v.close }

  function ValueOf(t: string): (v: Value)
    requires HeadLen(t) > 0
    ensures v.len <= |t| - ValueStart(t)
  {
    ValueAt(t[ValueStart(t)..], IsAuthorization(KeyText(t)))
  }

  /** The output of the pass for the text `t` that is still to scan. */
  function KeyValuePass(t: string): string
    decreases |t|
  {
    if t == [] then []
    else if HeadLen(t) == 0 then [t[0]] + KeyValuePass(t[1..])
    else
      var c := ValueStart(t);
      var v := ValueOf(t);
      t[..c] + Masked(v) + KeyValuePass(t[c + v.len..])
  }
}
