/** The key/value pass as the index-driven loop it is, proved against `KeyValuePass`. */
module KeyValueScan {
  import opened Text
  import opened Redaction
  import opened KeyValues
  import opened KeyValueLaws
  import opened KeyValueTheorems

  method QuotedValueEnd(s: string, start: nat) returns (i: nat, hadQuote: bool)
    requires start <= |s|
    ensures start <= i <= |s| && EndsBody(s, start, i)
    ensures i == start + BodyLen(s[start..], false)
    ensures hadQuote <==> i < |s|
  {
    hide BodyLen;
    var escaped := false;
    i := start;
    while i < |s|
      invariant start <= i <= |s|
      invariant escaped <==> IsEscaped(s, start, i)
      invariant forall j | start <= j < i && s[j] == '"' :: IsEscaped(s, start, j)
    {
      if escaped {
        escaped := false;
      } else if s[i] == '\\' {
        escaped := true;
      } else if s[i] == '"' {
        hadQuote := true;
        BodyEndsExactly(s, start, i);
        return;
      }
      i := i + 1;
    }
    hadQuote := false;
    BodyEndsExactly(s, start, i);
  }

  method AuthorizationValueEnd(s: string, i: nat) returns (end: nat)
    requires i <= |s| && BoundaryAt(true, s, i)
    ensures end == i + SchemeLen(s[i..]) + Run(ValueChar, s[i..][SchemeLen(s[i..])..])
  {
    var n := AuthSchemeAt(s, i);
    assert s[i..][n..] == s[i + n..];
    end := RunEnd(ValueChar, s, i + n);
  }

  /** The bounds of a key at `i` and where it ends, its closing quote included; `i` when none stands there. */
  method ScanKey(s: string, i: nat) returns (keyStart: nat, keyEnd: nat, cursor: nat)
    requires i < |s|
    ensures cursor == i + KeyEnd(s[i..])
    ensures keyStart <= keyEnd <= |s|
    ensures KeyEnd(s[i..]) > 0 ==> s[keyStart..keyEnd] == KeyText(s[i..])
  {
    hide Run;
    keyStart := if s[i] == '"' then i + 1 else i;
    keyEnd, cursor := keyStart, i;
    ghost var t := s[i..];
    assert t[0] == s[i] && (keyStart < |s| ==> t[keyStart - i] == s[keyStart]);
    if keyStart == |s| || !IsKeyStart(s[keyStart]) {
      return;
    }
    keyEnd := RunEnd(KeyChar, s, keyStart);
    Suffixes(s, i, keyStart, keyStart - i);
    if s[i] != '"' {
      cursor := keyEnd;
      Slice(s, i, keyEnd, keyEnd - i);
    } else if keyEnd < |s| && s[keyEnd] == '"' {
      cursor := keyEnd + 1;
      assert t[keyEnd - i] == s[keyEnd] && t[1..keyEnd - i] == s[keyStart..keyEnd];
    } else {
      assert keyEnd < |s| ==> t[keyEnd - i] == s[keyEnd];
    }
  }

  /** The end of a sensitive key with its separator at `i`, or `i` when none stands there. */
  method ScanHead(s: string, i: nat) returns (key: string, cursor: nat)
    requires i < |s|
    ensures cursor == i + HeadLen(s[i..])
    ensures cursor > i ==> key == KeyText(s[i..])
  {
    hide IsSensitiveKey, KeyEnd, KeyText;
    var keyStart, keyEnd, c := ScanKey(s, i);
    key, cursor := s[keyStart..keyEnd], i;
    if c > i {
      assert s[i..][c - i..] == s[c..];
      c := RunEnd(Blank, s, c);
      if c < |s| && IsSeparator(s[c]) && IsSensitiveKey(key) {
        cursor := c + 1;
      }
    }
  }

  /** Masks the value at `cursor`: what goes to the output and where the scan goes on. */
  method MaskValue(s: string, cursor: nat, auth: bool) returns (mask: string, end: nat)
    requires cursor <= |s| && BoundaryAt(true, s, cursor)
    ensures mask == Masked(ValueAt(s[cursor..], auth))
    ensures end == cursor + ValueAt(s[cursor..], auth).len
  {
    var u := s[cursor..];
    assert u[0..] == u;
    if cursor < |s| && s[cursor] == '"' {
      assert s[cursor + 1..] == u[1..];
      var e, hadQuote := QuotedValueEnd(s, cursor + 1);
      mask, end := "\"" + MARKER, e;
      if hadQuote {
        mask, end := mask + "\"", e + 1;
      }
    } else {
      mask := MARKER;
      if auth {
        end := AuthorizationValueEnd(s, cursor);
      } else {
        end := RunEnd(ValueChar, s, cursor);
      }
    }
  }

  /** A value follows a separator or a blank, so the look-back of the scheme test never fails there. */
  lemma ValueIsAtBoundary(s: string, i: nat)
    requires i < |s| && HeadLen(s[i..]) > 0
    ensures BoundaryAt(true, s, i + ValueStart(s[i..]))
  {
    hide IsSensitiveKey, KeyText;
    var t := s[i..];
    var h, c := HeadLen(t), ValueStart(t);
    assert s[i + c - 1] == t[c - 1];
    assert h < c ==> t[c - 1] == t[h..][c - 1 - h];
  }

  /** The loop of the original: copy a character, or a head and the mask of its value. */
  method RedactSensitiveKeyValues(s: string) returns (out: string)
    ensures out == KeyValuePass(s)
  {
    hide *;
    out := "";
    var i := 0;
    Started(s);
    while i < |s|
      invariant 0 <= i <= |s|
      invariant out + KeyValuePass(s[i..]) == KeyValuePass(s)
    {
      var key, cursor := ScanHead(s, i);
      if cursor > i {
        Suffixes(s, i, cursor, cursor - i);
        cursor := RunEnd(Blank, s, cursor);
        HeadAndBlanks(s[i..], cursor - i);
        ValueIsAtBoundary(s, i);
        var mask, end := MaskValue(s, cursor, IsAuthorization(key));
        ValueInPlace(s, i, cursor);
        MaskAdvances(s, i, cursor, mask, end, out);
        out := out + s[i..cursor] + mask;
        i := end;
      } else {
        CopyAdvances(s, i, out);
        out := out + [s[i]];
        i := i + 1;
      }
    }
    Finished(out, s);
  }

  lemma HeadAndBlanks(t: string, n: nat)
    requires HeadLen(t) > 0 && n == HeadLen(t) + Run(Blank, t[HeadLen(t)..])
    ensures 0 < n == ValueStart(t) <= |t|
  {
  }

  lemma ValueInPlace(s: string, i: nat, c: nat)
    requires i < |s| && HeadLen(s[i..]) > 0 && c == i + ValueStart(s[i..])
    ensures ValueOf(s[i..]) == ValueAt(s[c..], IsAuthorization(KeyText(s[i..])))
    ensures c + ValueOf(s[i..]).len <= |s|
    ensures RestOf(s[i..]) == s[c + ValueOf(s[i..]).len..]
  {
    hide ValueOf, RestOf;
    ValueStartsHere(s[i..]);
    Suffixes(s, i, c, ValueStart(s[i..]));
    Suffixes(s, c, c + ValueOf(s[i..]).len, ValueOf(s[i..]).len);
  }

  lemma MaskAdvances(s: string, i: nat, c: nat, mask: string, end: nat, out: string)
    requires i < |s| && HeadLen(s[i..]) > 0 && c == i + ValueStart(s[i..])
    requires mask == Masked(ValueOf(s[i..])) && end == c + ValueOf(s[i..]).len
    requires out + KeyValuePass(s[i..]) == KeyValuePass(s)
    ensures end <= |s| && out + s[i..c] + mask + KeyValuePass(s[end..]) == KeyValuePass(s)
  {
    hide *;
    ValueInPlace(s, i, c);
    MaskStep(s[i..]);
    Slice(s, i, c, c - i);
    Emitted(KeyValuePass(s), KeyValuePass(s[i..]), out, s[i..][..ValueStart(s[i..])], mask, KeyValuePass(s[end..]));
  }

  lemma CopyAdvances(s: string, i: nat, out: string)
    requires i < |s| && HeadLen(s[i..]) == 0
    requires out + KeyValuePass(s[i..]) == KeyValuePass(s)
    ensures out + [s[i]] + KeyValuePass(s[i + 1..]) == KeyValuePass(s)
  {
    hide *;
    CopyStep(s[i..]);
    Suffixes(s, i, i + 1, 1);
    EmittedOne(KeyValuePass(s), KeyValuePass(s[i..]), out, [s[i]], KeyValuePass(s[i + 1..]));
  }

  lemma Started(s: string)
    ensures "" + KeyValuePass(s[0..]) == KeyValuePass(s)
  {
    assert s[0..] == s;
  }

  lemma Finished(out: string, s: string)
    ensures out + KeyValuePass(s[|s|..]) == out
  {
  }
}
