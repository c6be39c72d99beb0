/** Reading the bodies of error responses: at most a bounded part, and codes only from a whole body. */
module ErrorBodies {
  import opened Errors
  import opened Numbers
  import opened Text

  type Byte = n: nat | n < 256

  const MAX_DIAGNOSTIC_BODY_BYTES: nat := 2048
  const BUFFER_BYTES: nat := 8192

  datatype LimitedBody = LimitedBody(body: seq<Byte>, complete: bool)

  /** What is read of a body with this content that ends cleanly or breaks off with an error. */
  function ReadLimited(content: seq<Byte>, breaks: bool): Result<LimitedBody> {
    if |content| > MAX_DIAGNOSTIC_BODY_BYTES then
      Ok(LimitedBody(content[..MAX_DIAGNOSTIC_BODY_BYTES + 1], false))
    else if breaks then Err(Transport)
    else Ok(LimitedBody(content, true))
  }

  /** A body up to the bound is read whole, of a longer one a byte more than the bound; breaking off matters only before that. */
  lemma ReadLimitedIs(content: seq<Byte>, breaks: bool)
    ensures var r := ReadLimited(content, breaks);
      && (r.Err? <==> breaks && |content| <= 2048)
      && (r.Err? ==> r.error == Transport)
      && (r.Ok? ==> r.value.body <= content && |r.value.body| == Min(|content|, 2049))
      && (r.Ok? ==> (r.value.complete <==> r.value.body == content && |content| <= 2048))
  {
  }

  function Concat(chunks: seq<seq<Byte>>): seq<Byte> {
    if chunks == [] then [] else chunks[0] + Concat(chunks[1..])
  }

  lemma {:induction false} ConcatOfSum(a: seq<seq<Byte>>, b: seq<seq<Byte>>)
    ensures Concat(a + b) == Concat(a) + Concat(b)
  {
    if a == [] {
      assert a + b == b;
    } else {
      assert (a + b)[1..] == a[1..] + b;
      ConcatOfSum(a[1..], b);
    }
  }

  lemma ConcatAt(chunks: seq<seq<Byte>>, i: nat)
    requires i < |chunks|
    ensures Concat(chunks[..i + 1]) == Concat(chunks[..i]) + chunks[i]
  {
    var one := [chunks[i]];
    assert one[1..] == [] && Concat(one) == chunks[i] + Concat(one[1..]) == chunks[i];
    assert chunks[..i + 1] == chunks[..i] + one;
    ConcatOfSum(chunks[..i], one);
  }

  lemma ConcatPrefix(all: seq<seq<Byte>>, front: seq<seq<Byte>>)
    requires front <= all
    ensures Concat(front) <= Concat(all)
  {
    hide Concat;
    assert all == front + all[|front|..];
    ConcatOfSum(front, all[|front|..]);
  }

  lemma Truncated(body: seq<Byte>, content: seq<Byte>, breaks: bool)
    requires body <= content && |body| == MAX_DIAGNOSTIC_BODY_BYTES + 1
    ensures ReadLimited(content, breaks) == Ok(LimitedBody(body, false))
  {
    assert content[..|body|] == body;
  }

  /** Reading chunk by chunk, however the stream is cut: a chunk may be empty. */
  method ReadLimitedResponseBody(chunks: seq<seq<Byte>>, breaks: bool) returns (r: Result<LimitedBody>)
    ensures r == ReadLimited(Concat(chunks), breaks)
  {
    hide Concat;
    var body: seq<Byte> := [];
    var i := 0;
    WholeConcat(chunks);
    while |body| <= MAX_DIAGNOSTIC_BODY_BYTES
      invariant i <= |chunks| && |body| <= MAX_DIAGNOSTIC_BODY_BYTES + 1
      invariant body == Concat(chunks[..i]) && body <= Concat(chunks)
      decreases |chunks| - i
    {
      if i == |chunks| {
        if breaks {
          return Err(Transport);
        }
        return Ok(LimitedBody(body, true));
      }
      var chunk := chunks[i];
      ConcatAt(chunks, i);
      ConcatPrefix(chunks, chunks[..i + 1]);
      var remaining := MAX_DIAGNOSTIC_BODY_BYTES + 1 - |body|;
      if |chunk| > remaining {
        assert body + chunk[..remaining] <= body + chunk;
        body := body + chunk[..remaining];
        Truncated(body, Concat(chunks), breaks);
        return Ok(LimitedBody(body, false));
      }
      body := body + chunk;
      i := i + 1;
    }
    Truncated(body, Concat(chunks), breaks);
    r := Ok(LimitedBody(body, false));
  }

  lemma WholeConcat(chunks: seq<seq<Byte>>)
    ensures chunks[..|chunks|] == chunks && Concat(chunks[..0]) == []
  {
  }

  /** The reads up to the first that returns nothing, which is the end of the stream. */
  function UpToEnd(parts: seq<seq<Byte>>): seq<seq<Byte>> {
    if parts == [] || parts[0] == [] then [] else [parts[0]] + UpToEnd(parts[1..])
  }

  /** Whether some read returns nothing. */
  predicate HasEnd(parts: seq<seq<Byte>>) { exists i | 0 <= i < |parts| :: parts[i] == [] }

  lemma {:induction false} UpToEndIs(parts: seq<seq<Byte>>, i: nat)
    requires i <= |parts| && forall j | 0 <= j < i :: parts[j] != []
    ensures i == |parts| || parts[i] == [] ==> UpToEnd(parts) == parts[..i]
    ensures parts[..i] <= UpToEnd(parts)
  {
    if i > 0 {
      UpToEndIs(parts[1..], i - 1);
      assert parts[..i] == [parts[0]] + parts[1..][..i - 1];
    }
  }

  /** Reading through a fixed buffer: a read fills a part of it, and nothing is the end. */
  method ReadLimitedReaderBody(parts: seq<seq<Byte>>, breaks: bool) returns (r: Result<LimitedBody>)
    requires forall i | 0 <= i < |parts| :: |parts[i]| <= BUFFER_BYTES
    ensures r == ReadLimited(Concat(UpToEnd(parts)), breaks && !HasEnd(parts))
  {
    hide Concat, UpToEnd;
    var body: seq<Byte> := [];
    var i := 0;
    WholeConcat(parts);
    while |body| <= MAX_DIAGNOSTIC_BODY_BYTES
      invariant i <= |parts| && |body| <= MAX_DIAGNOSTIC_BODY_BYTES + 1
      invariant forall j | 0 <= j < i :: parts[j] != []
      invariant body == Concat(parts[..i])
      decreases |parts| - i
    {
      UpToEndIs(parts, i);
      if i == |parts| {
        if breaks {
          return Err(Transport);
        }
        return Ok(LimitedBody(body, true));
      }
      var chunk := parts[i];
      if |chunk| == 0 {
        return Ok(LimitedBody(body, true));
      }
      ConcatAt(parts, i);
      UpToEndIs(parts, i + 1);
      ConcatPrefix(UpToEnd(parts), parts[..i + 1]);
      var remaining := MAX_DIAGNOSTIC_BODY_BYTES + 1 - |body|;
      if |chunk| > remaining {
        assert body + chunk[..remaining] <= body + chunk;
        body := body + chunk[..remaining];
        Truncated(body, Concat(UpToEnd(parts)), breaks && !HasEnd(parts));
        return Ok(LimitedBody(body, false));
      }
      body := body + chunk;
      i := i + 1;
    }
    UpToEndIs(parts, i);
    ConcatPrefix(UpToEnd(parts), parts[..i]);
    Truncated(body, Concat(UpToEnd(parts)), breaks && !HasEnd(parts));
    r := Ok(LimitedBody(body, false));
  }

  /**
   * As long as no read comes back empty, the blocking reader finds what the other one finds in any
   * cutting of the same content. An empty read ends the stream for it alone.
   */
  lemma CuttingDoesNotMatter(parts: seq<seq<Byte>>, chunks: seq<seq<Byte>>, breaks: bool)
    requires !HasEnd(parts) && Concat(chunks) == Concat(parts)
    ensures ReadLimited(Concat(UpToEnd(parts)), breaks && !HasEnd(parts)) == ReadLimited(Concat(chunks), breaks)
  {
    UpToEndIs(parts, |parts|);
    assert parts[..|parts|] == parts;
  }

  // ---- the error of a response -----------------------------------------------------

  datatype ApiError = ApiError(status: nat, code: Option<nat>, details: seq<nat>, bodyLen: nat)

  /** How the library turns bytes into UTF-8 text, and what it finds as codes in a JSON error document. */
  datatype Decoder = Decoder(lossy: seq<Byte> -> seq<Byte>, codes: seq<Byte> -> seq<nat>)

  function ApiErrorFromText(status: nat, text: seq<Byte>, complete: bool, d: Decoder): ApiError {
    var details := if complete then d.codes(text) else [];
    ApiError(status, if details == [] then None else Some(details[0]), details, |text|)
  }

  /**
   * The error of a refused response: its codes are those of the whole body, or none
   * if the body is longer than the bound or breaks off. The length it names is that of
   * the text, in which a byte that is no UTF-8 takes more than its place.
   */
  method ReadApiErrorResponse(status: nat, chunks: seq<seq<Byte>>, breaks: bool, message: seq<Byte>, d: Decoder)
    returns (e: ApiError)
    ensures e.status == status
    ensures e.details ==
      if |Concat(chunks)| <= MAX_DIAGNOSTIC_BODY_BYTES && !breaks then d.codes(d.lossy(Concat(chunks))) else []
    ensures e.code == if e.details == [] then None else Some(e.details[0])
    ensures e.bodyLen ==
      if |Concat(chunks)| > MAX_DIAGNOSTIC_BODY_BYTES then |d.lossy(Concat(chunks)[..MAX_DIAGNOSTIC_BODY_BYTES + 1])|
      else if breaks then |message| else |d.lossy(Concat(chunks))|
  {
    hide Concat;
    var limited := ReadLimitedResponseBody(chunks, breaks);
    if limited.Err? {
      return ApiErrorFromText(status, message, false, d);
    }
    e := ApiErrorFromText(status, d.lossy(limited.value.body), limited.value.complete, d);
  }

  // ---- the context of a bulk error ---------------------------------------------------

  const ALLOWED_TOKENS: seq<string> := [
    "to", "addresses", "address", "channel", "profileId", "memoryStoreId", "variables", "content", "text",
    "media", "url", "contentId", "modules", "sms", "rcs", "from", "senderId", "senderPoolId", "channels",
    "filterIn", "priority", "schedule", "sendAt", "tags", "recipientAddresses", "senderAddresses",
    "displayName", "credentialSid", "startDate", "endDate", "operationId", "pageToken", "pageSize",
    "status", "name", "senders"
  ]

  predicate IsPathMark(c: char) { c == '$' || c == '.' || c == '[' || c == ']' }

  predicate IsToken(t: string) { (forall i | 0 <= i < |t| :: IsDigit(t[i])) || t in ALLOWED_TOKENS }

  /** `s[a..b]` is a run of letters and digits that no more of them border. */
  predicate IsMaximalRun(s: string, a: nat, b: nat) {
    && a < b <= |s|
    && (forall i | a <= i < b :: IsAlnum(s[i]))
    && (a > 0 ==> !IsAlnum(s[a - 1]))
    && (b < |s| ==> !IsAlnum(s[b]))
  }

  /** A short path whose names are all numbers or known ones. */
  predicate IsSafeContext(s: string) {
    "$." <= s && |s| <= 160 && IsPathTo(s, |s| + 1)
  }

  /** The characters before `n` are those of a path, and the runs that end before `n` are tokens. */
  predicate IsPathTo(s: string, n: nat) {
    && (forall i | 0 <= i < |s| && i < n :: IsAlnum(s[i]) || IsPathMark(s[i]))
    && (forall a, b | 0 <= a < b <= |s| && b < n && IsMaximalRun(s, a, b) :: IsToken(s[a..b]))
  }

  lemma IsPathBefore(s: string, m: nat, n: nat)
    requires m <= n && IsPathTo(s, n)
    ensures IsPathTo(s, m)
  {
    hide IsMaximalRun, IsToken, IsAlnum;
  }

  /** `token` is what has been read of the run before position `i`. */
  predicate IsOpenRun(s: string, token: string, i: nat) {
    && |token| <= i <= |s| && token == s[i - |token|..i]
    && (forall k | i - |token| <= k < i :: IsAlnum(s[k]))
    && (i > |token| ==> !IsAlnum(s[i - |token| - 1]))
  }

  lemma RunGoesOn(s: string, token: string, i: nat)
    requires i < |s| && IsOpenRun(s, token, i) && IsPathTo(s, i) && IsAlnum(s[i])
    ensures IsOpenRun(s, token + [s[i]], i + 1) && IsPathTo(s, i + 1)
  {
    hide *;
    OneMoreIsOpen(s, token, i);
    NoRunEndsHere(s, i);
  }

  lemma OneMoreIsOpen(s: string, token: string, i: nat)
    requires i < |s| && IsOpenRun(s, token, i) && IsAlnum(s[i])
    ensures IsOpenRun(s, token + [s[i]], i + 1)
  {
    hide IsAlnum;
    var longer, a := token + [s[i]], i - |token|;
    SliceGrows(s, a, i);
    assert |longer| == |token| + 1 && i + 1 - |longer| == a;
  }

  lemma SliceGrows(s: string, a: nat, i: nat)
    requires a <= i < |s|
    ensures s[a..i + 1] == s[a..i] + [s[i]]
  {
  }

  /** No run ends in front of a letter or a digit. */
  lemma NoRunEndsHere(s: string, i: nat)
    requires i < |s| && IsPathTo(s, i) && IsAlnum(s[i])
    ensures IsPathTo(s, i + 1)
  {
    hide IsToken, IsMaximalRun, IsAlnum;
    forall a, b | 0 <= a < b <= |s| && b < i + 1 && IsMaximalRun(s, a, b)
      ensures IsToken(s[a..b])
    {
      RunStops(s, a, b);
    }
  }

  lemma RunStops(s: string, a: nat, b: nat)
    requires IsMaximalRun(s, a, b)
    ensures b <= |s| && (b < |s| ==> !IsAlnum(s[b]))
  {
  }

  /** The open run is the only one that can end at position `i`. */
  lemma OpenRunEnds(s: string, token: string, i: nat, a: nat)
    requires IsOpenRun(s, token, i) && (i < |s| ==> !IsAlnum(s[i])) && a < i
    ensures IsMaximalRun(s, a, i) <==> token != "" && a == i - |token|
  {
    hide IsAlnum;
    if IsMaximalRun(s, a, i) {
      SameStart(s, a, i - |token|, i);
    }
  }

  lemma SameStart(s: string, a: nat, b: nat, i: nat)
    requires a < i <= |s| && b <= i
    requires forall k | a <= k < i :: IsAlnum(s[k])
    requires forall k | b <= k < i :: IsAlnum(s[k])
    requires (a > 0 ==> !IsAlnum(s[a - 1])) && (b > 0 ==> !IsAlnum(s[b - 1]))
    ensures a == b
  {
    hide IsAlnum;
  }

  lemma RunEnds(s: string, token: string, i: nat)
    requires IsOpenRun(s, token, i) && IsPathTo(s, i)
    requires i < |s| ==> !IsAlnum(s[i])
    ensures IsPathTo(s, i + 1) <==> (token == "" || IsToken(token)) && (i < |s| ==> IsPathMark(s[i]))
    ensures i < |s| ==> IsOpenRun(s, "", i + 1)
  {
    hide IsToken, IsMaximalRun;
    forall a | 0 <= a < i
      ensures IsMaximalRun(s, a, i) <==> token != "" && a == i - |token|
    {
      OpenRunEnds(s, token, i, a);
    }
    if token != "" {
      assert IsMaximalRun(s, i - |token|, i);
    }
  }

  method SafeBulkErrorContext(value: Option<string>) returns (r: Option<string>)
    ensures r == if value.Some? && IsSafeContext(value.value) then value else None
  {
    hide IsToken, IsPathTo, IsOpenRun;
    if value.None? {
      return None;
    }
    var s := value.value;
    if s == "null" || !("$." <= s) || |s| > 160 {
      assert "null"[0] == 'n' && "$."[0] == '$';
      return None;
    }
    var token := "";
    NothingRead(s);
    for i := 0 to |s| + 1
      invariant i <= |s| ==> IsOpenRun(s, token, i)
      invariant IsPathTo(s, i)
    {
      var c := if i < |s| then s[i] else '.';
      if IsAlnum(c) {
        RunGoesOn(s, token, i);
        token := token + [c];
      } else {
        RunEnds(s, token, i);
        if !((token == "" || IsToken(token)) && IsPathMark(c)) {
          if IsPathTo(s, |s| + 1) {
            IsPathBefore(s, i + 1, |s| + 1);
          }
          return None;
        }
        token := "";
      }
    }
    r := Some(s);
  }

  lemma NothingRead(s: string)
    ensures IsOpenRun(s, "", 0) && IsPathTo(s, 0)
  {
  }

  lemma IndexedPathParts(name: string, digits: string)
    ensures var s, n, e := "$." + name + "[" + digits + "]", 2 + |name|, |name| + |digits| + 3;
      && |s| == e + 1 && "$." <= s && s[0] == '$' && s[1] == '.' && s[n] == '[' && s[e] == ']'
      && s[2..n] == name && s[n + 1..e] == digits
      && (forall i | 2 <= i < n :: s[i] == name[i - 2]) && (forall i | n < i < e :: s[i] == digits[i - n - 1])
  {
  }

  /** A path of marks at the ends and at `n` and of names between them is one of safe contexts if both names are. */
  lemma TwoNamesAreSafe(s: string, n: nat, e: nat)
    requires 2 < n < e - 1 && |s| == e + 1 <= 160 && "$." <= s && s[n] == '[' && s[e] == ']'
    requires forall i | 2 <= i < e && i != n :: IsAlnum(s[i])
    requires IsToken(s[2..n]) && IsToken(s[n + 1..e])
    ensures IsSafeContext(s)
  {
    hide IsToken, IsMaximalRun;
    assert s[0] == '$' && s[1] == '.';
    forall a, b | 0 <= a < b <= |s| && IsMaximalRun(s, a, b)
      ensures IsToken(s[a..b])
    {
      RunBetween(s, n, e, a, b);
    }
  }

  /** An entry of a list is named by a known name and any number. */
  lemma IndexedPathIsSafe(name: string, digits: string)
    requires name in ALLOWED_TOKENS && name != "" && forall i | 0 <= i < |name| :: IsAlnum(name[i])
    requires digits != "" && |name| + |digits| <= 156 && forall i | 0 <= i < |digits| :: IsDigit(digits[i])
    ensures IsSafeContext("$." + name + "[" + digits + "]")
  {
    hide IsSafeContext;
    IndexedPathParts(name, digits);
    TwoNamesAreSafe("$." + name + "[" + digits + "]", 2 + |name|, |name| + |digits| + 3);
  }

  /** Between marks at the ends and at `n` there are two maximal runs. */
  lemma RunBetween(s: string, n: nat, e: nat, a: nat, b: nat)
    requires 2 < n < e - 1 && |s| == e + 1 && IsMaximalRun(s, a, b)
    requires !IsAlnum(s[0]) && !IsAlnum(s[1]) && !IsAlnum(s[n]) && !IsAlnum(s[e])
    requires forall i | 2 <= i < e && i != n :: IsAlnum(s[i])
    ensures (a == 2 && b == n) || (a == n + 1 && b == e)
  {
    hide IsAlnum;
    assert IsAlnum(s[a]) && IsAlnum(s[b - 1]);
  }
}
