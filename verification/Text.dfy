/** Characters and the forward scans every pass of the sanitizer is built from. */
module Text {

  predicate IsLetter(c: char) { 'a' <= c <= 'z' || 'A' <= c <= 'Z' }

  predicate IsDigit(c: char) { '0' <= c <= '9' }

  predicate IsAlnum(c: char) { IsLetter(c) || IsDigit(c) }

  /** ASCII white space: the vertical tab is not in it. */
  predicate IsSpace(c: char) { c == ' ' || c == '\t' || c == '\n' || c == '\r' || c == '\U{0C}' }

  function Lower(c: char): char { if 'A' <= c <= 'Z' then (c as int + 32) as char else c }

  predicate IsKeyStart(c: char) { IsLetter(c) || c == '_' }

  predicate IsKeyContinue(c: char) { IsAlnum(c) || c == '_' || c == '-' }

  predicate IsSeparator(c: char) { c == '=' || c == ':' }

  /** `t` starts with `word`, which is in lower case, whatever the case of `t`. */
  predicate StartsWithIgnoreCase(t: string, word: string) {
    |word| <= |t| && forall i | 0 <= i < |word| :: Lower(t[i]) == word[i]
  }

  /** The four kinds of text the scanners run over. */
  datatype CharClass = KeyChar | Blank | ValueChar | UrlChar

  predicate Is(k: CharClass, c: char) {
    match k
    case KeyChar => IsKeyContinue(c)
    case Blank => IsSpace(c)
    case ValueChar => !IsSpace(c) && c != '&'
    case UrlChar => !IsSpace(c) && c != '"' && c != '\'' && c != '<' && c != '>' && c != ')' && c != ']' && c != '}'
  }

  const BLANKS: string := " \t\n\r\U{0C}"

  /** What ends a stretch of each class, listed. */
  lemma ClassesAre(c: char)
    ensures Is(Blank, c) <==> c in BLANKS
    ensures Is(ValueChar, c) <==> c !in BLANKS + "&"
    ensures Is(UrlChar, c) <==> c !in BLANKS + "\"'<>)]}"
    ensures Is(KeyChar, c) <==> 'a' <= Lower(c) <= 'z' || c in "0123456789_-"
  {
    assert BLANKS == [' ', '\t', '\n', '\r', '\U{0C}'];
  }

  /** How many leading characters of `t` are of class `k`. */
  function Run(k: CharClass, t: string): (n: nat)
    ensures n <= |t|
    ensures forall i | 0 <= i < n :: Is(k, t[i])
    ensures n < |t| ==> !Is(k, t[n])
  {
    if t != [] && Is(k, t[0]) then 1 + Run(k, t[1..]) else 0
  }

  /** `Run` is the only number with its contract. */
  lemma {:induction false} RunIs(k: CharClass, t: string, n: nat)
    requires n <= |t|
    requires forall i | 0 <= i < n :: Is(k, t[i])
    requires n < |t| ==> !Is(k, t[n])
    ensures Run(k, t) == n
  {
    if n > 0 {
      RunIs(k, t[1..], n - 1);
    }
  }

  /** The loop every `*_end` helper is: advance over one class of characters. */
  method RunEnd(k: CharClass, s: string, start: nat) returns (i: nat)
    requires start <= |s|
    ensures i == start + Run(k, s[start..])
  {
    i := start;
    while i < |s| && Is(k, s[i])
      invariant start <= i <= |s|
      invariant forall j | start <= j < i :: Is(k, s[j])
    {
      i := i + 1;
    }
    RunIs(k, s[start..], i - start);
  }

  predicate Contains(s: string, w: string) {
    exists p | 0 <= p <= |s| :: w <= s[p..]
  }

  /** `t` and `u` look the same to a scan that stops at position `d`. */
  predicate AgreeTo(t: string, u: string, d: nat) {
    && d <= |t| && d <= |u|
    && t[..d] == u[..d]
    && (d == |t| <==> d == |u|)
    && (d < |t| ==> t[d] == u[d])
  }

  /** Whether a word may start behind `t[..n]`; `before` says so for `n == 0`. */
  predicate BoundaryAt(before: bool, t: string, n: nat)
    requires n <= |t|
  {
    if n == 0 then before else !IsAlnum(t[n - 1])
  }

  // ---- slices ----------------------------------------------------------------

  lemma Suffixes(t: string, a: nat, b: nat, n: nat)
    requires a <= |t| && b <= |t| && a + n == b
    ensures t[a..][n..] == t[b..] && t[a..][0..] == t[a..]
  {
  }

  /** A loop that has written `out` may write its next step piece by piece. */
  lemma Emitted(all: string, step: string, out: string, a: string, m: string, z: string)
    requires step == a + m + z && all == out + step
    ensures out + a + m + z == all
  {
  }

  lemma EmittedOne(all: string, step: string, out: string, a: string, z: string)
    requires step == a + z && all == out + step
    ensures out + a + z == all
  {
  }

  lemma Slice(s: string, i: nat, k: nat, n: nat)
    requires i + n == k <= |s|
    ensures s[i..][..n] == s[i..k]
  {
  }
}
