/** URLs of pages: how they are built, resolved and checked, and what continuing from one to the next keeps. */
module PageUrls {
  import opened Errors

  datatype Origin = Origin(scheme: string, host: string, port: nat)

  /** A parsed URL. Its path is never empty: the root is one empty segment. */
  datatype Url = Url(
    origin: Origin,
    username: string,
    password: Option<string>,
    path: seq<string>,
    query: seq<(string, string)>,
    fragment: Option<string>)

  /**
   * What a server gives as the next page: a path rooted at `/`, split at its
   * slashes, or anything else together with what the URL library joins it to.
   */
  datatype PageRef =
    | Rooted(parts: seq<string>, query: seq<(string, string)>, hasFragment: bool)
    | Other(joined: Option<Url>)

  datatype PricingPage = V1Messaging | V1PhoneNumbers | V1Voice | V2Voice | V2Trunking

  datatype ContentPage = V1Content | V1ContentAndApprovals | V1LegacyContent | V2Content | V2ContentAndApprovals {
    predicate IsV2() { V2Content? || V2ContentAndApprovals? }
  }

  datatype Resource =
    | Messages(account: string)
    | Media(account: string, message: string)
    | AccountShortCodes(account: string)
    | Services
    | TollfreeVerifications
    | BrandRegistrations
    | BrandVettings(brand: string)
    | Usa2p(service: string)
    | PhoneNumbers(service: string)
    | ServiceShortCodes(service: string)
    | AlphaSenders(service: string)
    | ServiceChannelSenders(service: string)
    | DestinationAlphaSenders(service: string)
    | Pricing(pricing: PricingPage)
    | ChannelSenders
    | Content(content: ContentPage)

  // ---- the tables of the original --------------------------------------------------

  function ExpectedPath(r: Resource): seq<string> {
    match r
    case Messages(a) => ["2010-04-01", "Accounts", a, "Messages.json"]
    case Media(a, m) => ["2010-04-01", "Accounts", a, "Messages", m, "Media.json"]
    case AccountShortCodes(a) => ["2010-04-01", "Accounts", a, "SMS", "ShortCodes.json"]
    case Services => ["v1", "Services"]
    case TollfreeVerifications => ["v1", "Tollfree", "Verifications"]
    case BrandRegistrations => ["v1", "a2p", "BrandRegistrations"]
    case BrandVettings(b) => ["v1", "a2p", "BrandRegistrations", b, "Vettings"]
    case Usa2p(s) => ["v1", "Services", s, "Compliance", "Usa2p"]
    case PhoneNumbers(s) => ["v1", "Services", s, "PhoneNumbers"]
    case ServiceShortCodes(s) => ["v1", "Services", s, "ShortCodes"]
    case AlphaSenders(s) => ["v1", "Services", s, "AlphaSenders"]
    case ServiceChannelSenders(s) => ["v1", "Services", s, "ChannelSenders"]
    case DestinationAlphaSenders(s) => ["v1", "Services", s, "DestinationAlphaSenders"]
    case Pricing(V1Messaging) => ["v1", "Messaging", "Countries"]
    case Pricing(V1PhoneNumbers) => ["v1", "PhoneNumbers", "Countries"]
    case Pricing(V1Voice) => ["v1", "Voice", "Countries"]
    case Pricing(V2Voice) => ["v2", "Voice", "Countries"]
    case Pricing(V2Trunking) => ["v2", "Trunking", "Countries"]
    case ChannelSenders => ["v2", "Channels", "Senders"]
    case Content(V1Content) => ["v1", "Content"]
    case Content(V1ContentAndApprovals) => ["v1", "ContentAndApprovals"]
    case Content(V1LegacyContent) => ["v1", "LegacyContent"]
    case Content(V2Content) => ["v2", "Content"]
    case Content(V2ContentAndApprovals) => ["v2", "ContentAndApprovals"]
  }

  const PAGING_KEYS: seq<string> := ["PageSize", "Page", "PageToken"]

  const CONTENT_FILTERS: seq<string> := [
    "Language", "ContentType", "ChannelEligibility", "Content", "ContentName",
    "SortByDate", "SortByContentName", "DateCreatedBefore", "DateCreatedAfter"
  ]

  const TOLLFREE_FILTERS: seq<string> := [
    "TollfreePhoneNumberSid", "Status", "ExternalReferenceId", "IncludeSubAccounts", "TrustProductSid"
  ]

  predicate IsAllowedKey(r: Resource, key: string) {
    || key in PAGING_KEYS
    || match r
       case Messages(_) => key in ["To", "From", "DateSent", "DateSent<", "DateSent>"]
       case Media(_, _) => key in ["DateCreated", "DateCreated<", "DateCreated>"]
       case AccountShortCodes(_) => key in ["FriendlyName", "ShortCode"]
       case TollfreeVerifications => key in TOLLFREE_FILTERS
       case BrandVettings(_) => key == "VettingProvider"
       case DestinationAlphaSenders(_) => key == "IsoCountryCode"
       case ChannelSenders => key == "Channel"
       case Content(c) => c.IsV2() && key in CONTENT_FILTERS
       case _ => false
  }

  predicate MayRepeat(r: Resource, key: string) {
    match r
    case TollfreeVerifications => key == "TrustProductSid"
    case Content(c) => c.IsV2() && key in ["Language", "ContentType", "ChannelEligibility"]
    case _ => false
  }

  function StableKeys(r: Resource): seq<string> {
    match r
    case Messages(_) => ["To", "From", "DateSent", "DateSent<", "DateSent>", "PageSize"]
    case Media(_, _) => ["DateCreated", "DateCreated<", "DateCreated>", "PageSize"]
    case AccountShortCodes(_) => ["FriendlyName", "ShortCode", "PageSize"]
    case DestinationAlphaSenders(_) => ["IsoCountryCode", "PageSize"]
    case TollfreeVerifications => TOLLFREE_FILTERS + ["PageSize"]
    case ChannelSenders => ["Channel", "PageSize"]
    case Content(c) => if c.IsV2() then CONTENT_FILTERS + ["PageSize"] else ["PageSize"]
    case _ => ["PageSize"]
  }

  /** What selects a listing, as opposed to a page of it. */
  predicate IsFilter(r: Resource, key: string) { IsAllowedKey(r, key) && key !in PAGING_KEYS }

  /**
   * The only allowed filter whose value a continuation may change is the
   * vetting provider; `Page` and `PageToken` say which page it is.
   */
  lemma UnstableKeys(r: Resource, key: string)
    requires IsAllowedKey(r, key)
    ensures key !in StableKeys(r) <==>
      key == "Page" || key == "PageToken" || (r.BrandVettings? && key == "VettingProvider")
  {
    assert "PageSize" in StableKeys(r) by {
      assert StableKeys(r)[|StableKeys(r)| - 1] == "PageSize";
    }
    if r.TollfreeVerifications? {
      assert forall k :: k in StableKeys(r) <==> k in TOLLFREE_FILTERS || k == "PageSize";
    } else if r.Content? && r.content.IsV2() {
      assert forall k :: k in StableKeys(r) <==> k in CONTENT_FILTERS || k == "PageSize";
    }
  }

  lemma PagingKeys(key: string)
    ensures key in PAGING_KEYS <==> key == "PageSize" || key == "Page" || key == "PageToken"
    ensures "VettingProvider" !in PAGING_KEYS
  {
    var provider, size := "VettingProvider", "PageSize";
    assert provider[0] == 'V' && size[0] == 'P';
    assert PAGING_KEYS[0] == "PageSize" && PAGING_KEYS[1] == "Page" && PAGING_KEYS[2] == "PageToken";
  }

  /** Whether every filter of a listing is held against a change. */
  ghost predicate KeepsFilters(r: Resource) { forall key | IsFilter(r, key) :: key in StableKeys(r) }

  /** It is for every resource but one. */
  lemma FiltersAreKeptExactly(r: Resource)
    ensures KeepsFilters(r) <==> !r.BrandVettings?
  {
    hide StableKeys;
    forall key | IsFilter(r, key)
      ensures key in StableKeys(r) <==> !(r.BrandVettings? && key == "VettingProvider")
    {
      UnstableKeys(r, key);
      PagingKeys(key);
    }
    PagingKeys("");
    if r.BrandVettings? {
      assert IsFilter(r, "VettingProvider");
    }
  }

  // ---- paths -----------------------------------------------------------------------

  function NonEmpty(segments: seq<string>): (r: seq<string>)
    ensures forall s :: s in r <==> s in segments && s != ""
  {
    if segments == [] then [] else (if segments[0] == "" then [] else [segments[0]]) + NonEmpty(segments[1..])
  }

  predicate IsDots(segment: string) { segment == "." || segment == ".." }

  /** What the URL library does with a segment pushed onto a path: dot segments are ignored. */
  function Push(encode: string -> string, path: seq<string>, segment: string): seq<string> {
    if IsDots(segment) then path
    else if path == [""] then [encode(segment)]
    else path + [encode(segment)]
  }

  function Extend(encode: string -> string, path: seq<string>, segments: seq<string>): seq<string>
    decreases |segments|
  {
    if segments == [] then path else Extend(encode, Push(encode, path, segments[0]), segments[1..])
  }

  /** A trailing empty segment is dropped, unless it is the root. */
  function PopIfEmpty(path: seq<string>): seq<string> {
    if |path| > 1 && path[|path| - 1] == "" then path[..|path| - 1] else path
  }

  function Endpoint(encode: string -> string, base: Url, segments: seq<string>): Url {
    base.(path := Extend(encode, PopIfEmpty(base.path), segments))
  }

  function PageUrlFromBase(encode: string -> string, base: Url, page: PageRef): Result<Url> {
    match page
    case Rooted(parts, query, hasFragment) =>
      if hasFragment then Err(InvalidResponseMetadata(Fragment))
      else
        var path := Extend(encode, Extend(encode, [""], NonEmpty(base.path)), NonEmpty(parts));
        Ok(base.(path := path, query := query, fragment := None))
    case Other(joined) =>
      if joined.Some? then Ok(joined.value) else Err(InvalidResponseMetadata(ForeignUrl))
  }

  /** The path behind the base path. */
  function ApiSegments(base: Url, page: Url): Result<seq<string>> {
    var prefix, segments := NonEmpty(base.path), NonEmpty(page.path);
    if prefix <= segments then Ok(segments[|prefix|..]) else Err(InvalidResponseMetadata(LeftBasePath))
  }

  /** What a path shows of segments pushed onto it. */
  function Encoded(encode: string -> string, segments: seq<string>): seq<string> {
    if segments == [] then []
    else Shown(encode, segments[0]) + Encoded(encode, segments[1..])
  }

  function Shown(encode: string -> string, segment: string): seq<string> {
    if IsDots(segment) || encode(segment) == "" then [] else [encode(segment)]
  }

  /** The segments that a path keeps as they are. */
  predicate IsKept(encode: string -> string, segment: string) {
    segment != "" && !IsDots(segment) && encode(segment) == segment
  }

  lemma {:induction false} NonEmptyOfSum(a: seq<string>, b: seq<string>)
    ensures NonEmpty(a + b) == NonEmpty(a) + NonEmpty(b)
  {
    if a == [] {
      assert a + b == b;
    } else {
      assert (a + b)[1..] == a[1..] + b;
      NonEmptyOfSum(a[1..], b);
    }
  }

  lemma NonEmptyOfPush(encode: string -> string, path: seq<string>, s: string)
    requires path != []
    ensures NonEmpty(Push(encode, path, s)) == NonEmpty(path) + Shown(encode, s)
  {
    NonEmptyOfSum(path, [encode(s)]);
    assert NonEmpty([encode(s)]) == if encode(s) == "" then [] else [encode(s)];
    if path == [""] {
      assert NonEmpty(path) == [] && [] + NonEmpty([encode(s)]) == NonEmpty([encode(s)]);
    }
  }

  lemma {:induction false} NonEmptyOfExtend(encode: string -> string, path: seq<string>, segments: seq<string>)
    requires path != []
    ensures NonEmpty(Extend(encode, path, segments)) == NonEmpty(path) + Encoded(encode, segments)
    decreases |segments|
  {
    if segments == [] {
      assert NonEmpty(path) + [] == NonEmpty(path);
    } else {
      hide NonEmpty, Shown, Push;
      var s, rest := segments[0], segments[1..];
      NonEmptyOfPush(encode, path, s);
      PushIsNotEmpty(encode, path, s);
      NonEmptyOfExtend(encode, Push(encode, path, s), rest);
      Associates(NonEmpty(path), Shown(encode, s), Encoded(encode, rest));
    }
  }

  lemma PushIsNotEmpty(encode: string -> string, path: seq<string>, segment: string)
    requires path != []
    ensures Push(encode, path, segment) != []
  {
  }

  lemma Associates(a: seq<string>, b: seq<string>, c: seq<string>)
    ensures a + b + c == a + (b + c)
  {
  }

  lemma NonEmptyOfPop(path: seq<string>)
    ensures NonEmpty(PopIfEmpty(path)) == NonEmpty(path)
  {
    if PopIfEmpty(path) != path {
      assert path == PopIfEmpty(path) + [""];
      NonEmptyOfSum(PopIfEmpty(path), [""]);
      assert NonEmpty([""]) == [];
    }
  }

  /** Nothing is lost and nothing changes exactly when every segment is kept. */
  lemma {:induction false} EncodedKeepsAll(encode: string -> string, segments: seq<string>)
    ensures |Encoded(encode, segments)| <= |segments|
    ensures Encoded(encode, segments) == segments <==> forall s | s in segments :: IsKept(encode, s)
  {
    if segments != [] {
      var s, rest := segments[0], segments[1..];
      EncodedKeepsAll(encode, rest);
      AllOfOneMore(encode, segments);
      hide Encoded, IsKept;
      SameParts(Shown(encode, s), s, Encoded(encode, rest), rest);
      assert segments == [s] + rest;
      assert Encoded(encode, segments) == Shown(encode, s) + Encoded(encode, rest) by { EncodedStep(encode, segments); }
      ShownIs(encode, s);
    }
  }

  lemma AllOfOneMore(encode: string -> string, segments: seq<string>)
    requires segments != []
    ensures (forall s | s in segments :: IsKept(encode, s))
      <==> IsKept(encode, segments[0]) && forall s | s in segments[1..] :: IsKept(encode, s)
  {
    hide IsKept;
    assert forall s | s in segments :: s == segments[0] || s in segments[1..];
  }

  lemma EncodedStep(encode: string -> string, segments: seq<string>)
    requires segments != []
    ensures Encoded(encode, segments) == Shown(encode, segments[0]) + Encoded(encode, segments[1..])
  {
  }

  lemma ShownIs(encode: string -> string, s: string)
    ensures Shown(encode, s) == [s] <==> IsKept(encode, s)
  {
  }

  lemma SameParts(shown: seq<string>, s: string, e: seq<string>, rest: seq<string>)
    requires |shown| <= 1 && |e| <= |rest|
    ensures shown + e == [s] + rest <==> shown == [s] && e == rest
  {
    if shown + e == [s] + rest {
      assert (shown + e)[0] == s && (shown + e)[1..] == rest;
    }
  }

  /** Behind the base path, an endpoint has its own segments, exactly if the path keeps each of them. */
  lemma EndpointRoundTrip(encode: string -> string, base: Url, segments: seq<string>)
    requires base.path != []
    ensures var url := Endpoint(encode, base, segments);
      && ApiSegments(base, url) == Ok(Encoded(encode, segments))
      && (ApiSegments(base, url) == Ok(segments) <==> forall s | s in segments :: IsKept(encode, s))
  {
    var path := PopIfEmpty(base.path);
    NonEmptyOfExtend(encode, path, segments);
    NonEmptyOfPop(base.path);
    EncodedKeepsAll(encode, segments);
    var prefix := NonEmpty(base.path);
    assert (prefix + Encoded(encode, segments))[|prefix|..] == Encoded(encode, segments);
  }

  /** The base path of a parsed URL has no dot segments. */
  predicate IsParsed(base: Url) { base.path != [] && forall s | s in base.path :: !IsDots(s) }

  /** Percent-encoding makes nothing empty. */
  ghost predicate IsEncoding(encode: string -> string) { forall s :: encode(s) == "" <==> s == "" }

  lemma {:induction false} EncodedOfNonEmpty(encode: string -> string, segments: seq<string>)
    requires encode("") == ""
    ensures Encoded(encode, NonEmpty(segments)) == Encoded(encode, segments)
  {
    if segments != [] {
      EncodedOfNonEmpty(encode, segments[1..]);
      var s, n := segments[0], NonEmpty(segments[1..]);
      if s == "" {
        assert NonEmpty(segments) == [] + n == n;
        assert Encoded(encode, segments) == [] + Encoded(encode, segments[1..]) == Encoded(encode, segments[1..]);
      } else {
        assert NonEmpty(segments) == [s] + n && ([s] + n)[1..] == n;
      }
    }
  }

  lemma {:induction false} EncodedIsAsLong(encode: string -> string, segments: seq<string>)
    requires IsEncoding(encode) && forall s | s in segments :: s != "" && !IsDots(s)
    ensures |Encoded(encode, segments)| == |segments|
  {
    if segments != [] {
      assert forall s | s in segments[1..] :: s in segments;
      EncodedIsAsLong(encode, segments[1..]);
    }
  }

  /** The base path reads the same when it is encoded once more. */
  ghost predicate BaseIsKept(encode: string -> string, base: Url) { forall s | s in base.path :: encode(s) == s }

  /** Any other reference is what the URL library joins it to, or refused if it cannot be joined. */
  lemma OthersAreJoined(encode: string -> string, base: Url, joined: Option<Url>)
    ensures match PageUrlFromBase(encode, base, Other(joined))
      case Ok(url) => joined == Some(url)
      case Err(error) => joined.None? && error == InvalidResponseMetadata(ForeignUrl)
  {
  }

  /** The path of a resolved rooted reference: the base path, encoded once more, and its own parts. */
  lemma RootedSegments(encode: string -> string, base: Url, parts: seq<string>, query: seq<(string, string)>)
    requires IsEncoding(encode)
    ensures var url := PageUrlFromBase(encode, base, Rooted(parts, query, false));
      && url.Ok? && url.value.origin == base.origin && url.value.query == query
      && NonEmpty(url.value.path) == Encoded(encode, NonEmpty(base.path)) + Encoded(encode, parts)
  {
    hide IsEncoding;
    var prefix := NonEmpty(base.path);
    NonEmptyOfExtend(encode, [""], prefix);
    var e := Encoded(encode, prefix);
    assert NonEmpty([""]) == [] && [] + e == e;
    ExtendIsNotEmpty(encode, [""], prefix);
    NonEmptyOfExtend(encode, Extend(encode, [""], prefix), NonEmpty(parts));
    assert encode("") == "" by { EmptyIsEmpty(encode); }
    EncodedOfNonEmpty(encode, parts);
  }

  lemma EmptyIsEmpty(encode: string -> string)
    requires IsEncoding(encode)
    ensures encode("") == ""
  {
  }

  /**
   * A rooted page reference resolves beneath the base path to its own parts, exactly if no
   * segment of the base path changes when it is encoded once more. Else it leaves the base path.
   */
  lemma RootedStaysBeneathBase(encode: string -> string, base: Url, parts: seq<string>, query: seq<(string, string)>)
    requires IsParsed(base) && IsEncoding(encode)
    ensures var url := PageUrlFromBase(encode, base, Rooted(parts, query, false));
      && url.Ok? && url.value.origin == base.origin && url.value.query == query
      && url.value.username == base.username && url.value.password == base.password && url.value.fragment.None?
      && ApiSegments(base, url.value) ==
        if BaseIsKept(encode, base) then Ok(Encoded(encode, parts)) else Err(InvalidResponseMetadata(LeftBasePath))
    ensures PageUrlFromBase(encode, base, Rooted(parts, query, true)) == Err(InvalidResponseMetadata(Fragment))
  {
    RootedSegments(encode, base, parts, query);
    var prefix := NonEmpty(base.path);
    var e, rest := Encoded(encode, prefix), Encoded(encode, parts);
    EncodedIsAsLong(encode, prefix);
    EncodedKeepsAll(encode, prefix);
    KeptPrefix(encode, base);
    PrefixOfEqualLength(prefix, e, rest);
  }

  lemma KeptPrefix(encode: string -> string, base: Url)
    requires IsParsed(base) && IsEncoding(encode)
    ensures BaseIsKept(encode, base) <==> forall s | s in NonEmpty(base.path) :: IsKept(encode, s)
  {
    var prefix := NonEmpty(base.path);
    if forall s | s in prefix :: IsKept(encode, s) {
      forall s | s in base.path
        ensures encode(s) == s
      {
        assert s != "" ==> s in prefix;
      }
    }
  }

  lemma PrefixOfEqualLength(a: seq<string>, b: seq<string>, c: seq<string>)
    requires |a| == |b|
    ensures a <= b + c <==> a == b
    ensures (b + c)[|a|..] == c
  {
    assert (b + c)[..|a|] == b;
  }

  lemma {:induction false} ExtendIsNotEmpty(encode: string -> string, path: seq<string>, segments: seq<string>)
    requires path != []
    ensures Extend(encode, path, segments) != []
    decreases |segments|
  {
    if segments != [] {
      ExtendIsNotEmpty(encode, Push(encode, path, segments[0]), segments[1..]);
    }
  }

  // ---- checks ----------------------------------------------------------------------

  function OriginFault(base: Url, page: Url): Option<PageFault> {
    if page.origin != base.origin then Some(OriginChanged)
    else if page.username != "" || page.password.Some? then Some(Credentials)
    else if page.fragment.Some? then Some(Fragment)
    else None
  }

  predicate KeyBefore(query: seq<(string, string)>, i: nat)
    requires i < |query|
  {
    exists j | 0 <= j < i :: query[j].0 == query[i].0
  }

  /** What is wrong with the key at position `i`. */
  function KeyFault(r: Resource, query: seq<(string, string)>, i: nat): Option<PageFault>
    requires i < |query|
  {
    if !IsAllowedKey(r, query[i].0) then Some(UnsupportedKey)
    else if !MayRepeat(r, query[i].0) && KeyBefore(query, i) then Some(RepeatedKey)
    else None
  }

  /** The first fault among the keys from `i` on. */
  function QueryFault(r: Resource, query: seq<(string, string)>, i: nat): Option<PageFault>
    requires i <= |query|
    decreases |query| - i
  {
    if i == |query| then None
    else if KeyFault(r, query, i).Some? then KeyFault(r, query, i)
    else QueryFault(r, query, i + 1)
  }

  method ValidatePageQueryKeys(r: Resource, query: seq<(string, string)>) returns (fault: Option<PageFault>)
    ensures fault == QueryFault(r, query, 0)
  {
    hide IsAllowedKey, MayRepeat;
    var seen: seq<string> := [];
    for i := 0 to |query|
      invariant |seen| == i && forall j | 0 <= j < i :: seen[j] == query[j].0
      invariant QueryFault(r, query, 0) == QueryFault(r, query, i)
    {
      var key := query[i].0;
      if !IsAllowedKey(r, key) {
        return Some(UnsupportedKey);
      }
      if !MayRepeat(r, key) && key in seen {
        assert KeyBefore(query, i);
        return Some(RepeatedKey);
      }
      assert KeyBefore(query, i) ==> key in seen;
      seen := seen + [key];
    }
    fault := None;
  }

  /** A query passes exactly when all its keys are allowed and only repeatable ones occur twice. */
  predicate IsGoodQuery(r: Resource, query: seq<(string, string)>) {
    && (forall i | 0 <= i < |query| :: IsAllowedKey(r, query[i].0))
    && (forall i, j | 0 <= j < i < |query| && query[j].0 == query[i].0 :: MayRepeat(r, query[i].0))
  }

  lemma {:induction false} QueryFaultFrom(r: Resource, query: seq<(string, string)>, i: nat)
    requires i <= |query|
    ensures QueryFault(r, query, i) == None <==> forall k | i <= k < |query| :: KeyFault(r, query, k) == None
    decreases |query| - i
  {
    hide KeyFault;
    if i < |query| {
      QueryFaultFrom(r, query, i + 1);
    }
  }

  lemma QueryFaultExactly(r: Resource, query: seq<(string, string)>)
    ensures QueryFault(r, query, 0) == None <==> IsGoodQuery(r, query)
  {
    hide IsAllowedKey, MayRepeat, QueryFault;
    QueryFaultFrom(r, query, 0);
    if IsGoodQuery(r, query) {
      forall k | 0 <= k < |query|
        ensures KeyFault(r, query, k) == None
      {
      }
    } else if forall i | 0 <= i < |query| :: IsAllowedKey(r, query[i].0) {
      var i, j :| 0 <= j < i < |query| && query[j].0 == query[i].0 && !MayRepeat(r, query[i].0);
      assert KeyBefore(query, i);
      assert KeyFault(r, query, i) != None;
    } else {
      var i :| 0 <= i < |query| && !IsAllowedKey(r, query[i].0);
      assert KeyFault(r, query, i) != None;
    }
  }

  /** A reported fault is that of the first key that has one. */
  lemma {:induction false} QueryFaultIsFirst(r: Resource, query: seq<(string, string)>, i: nat) returns (k: nat)
    requires i <= |query| && QueryFault(r, query, i).Some?
    requires forall j | 0 <= j < i :: KeyFault(r, query, j).None?
    ensures i <= k < |query| && forall j | 0 <= j < k :: KeyFault(r, query, j).None?
    ensures match QueryFault(r, query, i).value
      case UnsupportedKey => !IsAllowedKey(r, query[k].0)
      case RepeatedKey =>
        IsAllowedKey(r, query[k].0) && !MayRepeat(r, query[k].0) && exists j | 0 <= j < k :: query[j].0 == query[k].0
      case _ => false
    decreases |query| - i
  {
    hide IsAllowedKey, MayRepeat;
    if KeyFault(r, query, i).Some? {
      k := i;
    } else {
      k := QueryFaultIsFirst(r, query, i + 1);
    }
  }

  /** Resolving the next page and checking where it leads. */
  function PageUrl(encode: string -> string, base: Url, r: Resource, page: PageRef): Result<Url> {
    var url :- PageUrlFromBase(encode, base, page);
    var origin := OriginFault(base, url);
    if origin.Some? then Err(InvalidResponseMetadata(origin.value)) else
    var segments :- ApiSegments(base, url);
    if segments != ExpectedPath(r) then Err(InvalidResponseMetadata(WrongResource)) else
    var query := QueryFault(r, url.query, 0);
    if query.Some? then Err(InvalidResponseMetadata(query.value)) else
    Ok(url)
  }

  /** What a checked page URL is known to be. */
  predicate IsPageOf(base: Url, r: Resource, url: Url) {
    && url.origin == base.origin && url.username == "" && url.password.None? && url.fragment.None?
    && ApiSegments(base, url) == Ok(ExpectedPath(r))
    && IsGoodQuery(r, url.query)
  }

  lemma PageUrlChecks(encode: string -> string, base: Url, r: Resource, page: PageRef)
    ensures var url := PageUrlFromBase(encode, base, page);
      && (PageUrl(encode, base, r, page).Ok? <==> url.Ok? && IsPageOf(base, r, url.value))
      && (PageUrl(encode, base, r, page).Ok? ==> PageUrl(encode, base, r, page) == url)
  {
    hide IsGoodQuery, QueryFault, ExpectedPath, ApiSegments, PageUrlFromBase;
    var url := PageUrlFromBase(encode, base, page);
    if url.Ok? {
      QueryFaultExactly(r, url.value.query);
    }
  }

  /** What a refused page URL has done; the checks are made in this order. */
  predicate Explains(encode: string -> string, base: Url, r: Resource, page: PageRef, fault: PageFault) {
    var url := PageUrlFromBase(encode, base, page);
    match fault
    case ForeignUrl => page.Other? && page.joined.None?
    case OriginChanged => url.Ok? && url.value.origin != base.origin
    case Credentials => url.Ok? && url.value.origin == base.origin && (url.value.username != "" || url.value.password.Some?)
    case Fragment => (page.Rooted? && page.hasFragment) || (url.Ok? && url.value.origin == base.origin && url.value.fragment.Some?)
    case LeftBasePath => url.Ok? && OriginFault(base, url.value).None? && !(NonEmpty(base.path) <= NonEmpty(url.value.path))
    case WrongResource =>
      url.Ok? && OriginFault(base, url.value).None?
      && NonEmpty(base.path) <= NonEmpty(url.value.path) && NonEmpty(url.value.path) != NonEmpty(base.path) + ExpectedPath(r)
    case UnsupportedKey =>
      url.Ok? && NonEmpty(url.value.path) == NonEmpty(base.path) + ExpectedPath(r)
      && exists k | 0 <= k < |url.value.query| :: !IsAllowedKey(r, url.value.query[k].0)
    case RepeatedKey =>
      url.Ok? && NonEmpty(url.value.path) == NonEmpty(base.path) + ExpectedPath(r)
      && exists j, k | 0 <= j < k < |url.value.query| ::
        url.value.query[j].0 == url.value.query[k].0 && !MayRepeat(r, url.value.query[k].0)
    case _ => false
  }

  lemma QueryIsExplained(r: Resource, query: seq<(string, string)>)
    requires QueryFault(r, query, 0).Some?
    ensures match QueryFault(r, query, 0).value
      case UnsupportedKey => exists k | 0 <= k < |query| :: !IsAllowedKey(r, query[k].0)
      case RepeatedKey =>
        exists j, k | 0 <= j < k < |query| :: query[j].0 == query[k].0 && !MayRepeat(r, query[k].0)
      case _ => false
  {
    hide IsAllowedKey, MayRepeat, QueryFault;
    var k := QueryFaultIsFirst(r, query, 0);
  }

  lemma BehindPrefix(prefix: seq<string>, all: seq<string>, rest: seq<string>)
    ensures prefix <= all ==> (all[|prefix|..] == rest <==> all == prefix + rest)
  {
    if prefix <= all {
      assert all == prefix + all[|prefix|..];
    }
    assert (prefix + rest)[|prefix|..] == rest;
  }

  /** Every refusal says what was wrong. */
  lemma RefusalIsExplained(encode: string -> string, base: Url, r: Resource, page: PageRef)
    requires PageUrl(encode, base, r, page).Err?
    ensures var e := PageUrl(encode, base, r, page).error;
      e.InvalidResponseMetadata? && Explains(encode, base, r, page, e.fault)
  {
    hide IsAllowedKey, MayRepeat, QueryFault, ExpectedPath, NonEmpty, Extend;
    var url := PageUrlFromBase(encode, base, page);
    if url.Ok? {
      BehindPrefix(NonEmpty(base.path), NonEmpty(url.value.path), ExpectedPath(r));
      if QueryFault(r, url.value.query, 0).Some? {
        QueryIsExplained(r, url.value.query);
      }
    }
  }

  // ---- continuation ----------------------------------------------------------------

  /** All values of `key`, in order. */
  function Values(query: seq<(string, string)>, key: string): seq<string> {
    if query == [] then []
    else (if query[0].0 == key then [query[0].1] else []) + Values(query[1..], key)
  }

  /** The number that decimal digits spell, or none. */
  function ParseDigits(s: string): Option<nat> {
    if s == "" then Some(0)
    else
      var c := s[|s| - 1];
      var front := ParseDigits(s[..|s| - 1]);
      if '0' <= c <= '9' && front.Some? then Some(front.value * 10 + (c as int - '0' as int)) else None
  }

  /** An unsigned 32-bit integer as the original's library parses it: a leading plus is fine. */
  function ParseU32(s: string): Option<nat> {
    var digits := if s != "" && s[0] == '+' then s[1..] else s;
    if digits == "" then None else
    var n := ParseDigits(digits);
    if n.Some? && n.value < 0x1_0000_0000 then n else None
  }

  predicate IsValidPageSize(values: seq<string>) {
    |values| == 1 && ParseU32(values[0]).Some? && 1 <= ParseU32(values[0]).value <= 1000
  }

  predicate StableMatches(u: Url, v: Url, key: string) {
    || Values(u.query, key) == Values(v.query, key)
    || (key == "PageSize" && Values(u.query, key) == [] && IsValidPageSize(Values(v.query, key)))
  }

  /** The first stable key from `i` on whose values a continuation changes. */
  function ValueFault(keys: seq<string>, i: nat, u: Url, v: Url): Option<PageFault>
    requires i <= |keys|
    decreases |keys| - i
  {
    if i == |keys| then None
    else if !StableMatches(u, v, keys[i]) then Some(ValueChanged(keys[i]))
    else ValueFault(keys, i + 1, u, v)
  }

  function ContinuationFault(r: Resource, u: Url, v: Url): Option<PageFault> {
    if u.path != v.path then Some(PathChanged) else ValueFault(StableKeys(r), 0, u, v)
  }

  method ValidateContinuation(r: Resource, u: Url, v: Url) returns (fault: Option<PageFault>)
    ensures fault == ContinuationFault(r, u, v)
  {
    hide StableKeys, StableMatches;
    if u.path != v.path {
      return Some(PathChanged);
    }
    var keys := StableKeys(r);
    for i := 0 to |keys|
      invariant ValueFault(keys, 0, u, v) == ValueFault(keys, i, u, v)
    {
      if !StableMatches(u, v, keys[i]) {
        return Some(ValueChanged(keys[i]));
      }
    }
    fault := None;
  }

  /** `v` continues `u`: same path, same values of every stable key, but a page size may appear. */
  predicate Continues(r: Resource, u: Url, v: Url) {
    u.path == v.path && forall key | key in StableKeys(r) :: StableMatches(u, v, key)
  }

  lemma {:induction false} ValueFaultFrom(keys: seq<string>, i: nat, u: Url, v: Url)
    requires i <= |keys|
    ensures ValueFault(keys, i, u, v) == None <==> forall k | i <= k < |keys| :: StableMatches(u, v, keys[k])
    decreases |keys| - i
  {
    hide StableMatches;
    if i < |keys| {
      ValueFaultFrom(keys, i + 1, u, v);
    }
  }

  lemma ContinuationExactly(r: Resource, u: Url, v: Url)
    ensures ContinuationFault(r, u, v) == None <==> Continues(r, u, v)
  {
    hide StableKeys, StableMatches, ValueFault;
    var keys := StableKeys(r);
    ValueFaultFrom(keys, 0, u, v);
    if Continues(r, u, v) {
      assert forall k | 0 <= k < |keys| :: keys[k] in keys;
    }
  }

  /** Two pages of the vettings of a brand that continue each other, for different providers. */
  lemma ProviderMayChange(u: Url, brand: string)
    ensures var v, w := u.(query := [("VettingProvider", "a")]), u.(query := [("VettingProvider", "b")]);
      && IsGoodQuery(BrandVettings(brand), v.query) && IsGoodQuery(BrandVettings(brand), w.query)
      && Continues(BrandVettings(brand), v, w)
      && Values(v.query, "VettingProvider") != Values(w.query, "VettingProvider")
  {
    var a, b := [("VettingProvider", "a")], [("VettingProvider", "b")];
    var provider, size := "VettingProvider", "PageSize";
    assert provider[0] != size[0];
    assert a[1..] == [] && b[1..] == [];
    assert Values(a, provider) == ["a"] && Values(b, provider) == ["b"];
    assert ["a"][0] != ["b"][0];
    assert Values(a, size) == [] && Values(b, size) == [];
  }

  /** A refused continuation says what changed: the path, or the first stable key whose values did. */
  lemma ContinuationIsExplained(r: Resource, u: Url, v: Url)
    requires ContinuationFault(r, u, v).Some?
    ensures match ContinuationFault(r, u, v).value
      case PathChanged => u.path != v.path
      case ValueChanged(key) => u.path == v.path && key in StableKeys(r) && !StableMatches(u, v, key)
      case _ => false
  {
    hide StableKeys, StableMatches;
    if u.path == v.path {
      ValueFaultIsChange(StableKeys(r), 0, u, v);
    }
  }

  lemma {:induction false} ValueFaultIsChange(keys: seq<string>, i: nat, u: Url, v: Url)
    requires i <= |keys| && ValueFault(keys, i, u, v).Some?
    ensures var f := ValueFault(keys, i, u, v).value;
      f.ValueChanged? && f.key in keys && !StableMatches(u, v, f.key)
    decreases |keys| - i
  {
    hide StableMatches;
    if StableMatches(u, v, keys[i]) {
      ValueFaultIsChange(keys, i + 1, u, v);
    }
  }

  lemma ContinuesItself(r: Resource, u: Url)
    ensures Continues(r, u, u)
  {
  }

  /** Continuing twice is continuing: the page size appears at most once. */
  lemma ContinuesOn(r: Resource, u: Url, v: Url, w: Url)
    requires Continues(r, u, v) && Continues(r, v, w)
    ensures Continues(r, u, w)
  {
    hide StableKeys, Values, IsValidPageSize;
    forall key | key in StableKeys(r)
      ensures StableMatches(u, w, key)
    {
      assert StableMatches(u, v, key) && StableMatches(v, w, key);
      NoPageSizeIsNotValid();
    }
  }

  lemma NoPageSizeIsNotValid()
    ensures !IsValidPageSize([])
  {
  }

  /** A page size that is there stays as it is. */
  lemma PageSizeIsFixed(r: Resource, u: Url, v: Url)
    requires Continues(r, u, v) && Values(u.query, "PageSize") != []
    ensures Values(v.query, "PageSize") == Values(u.query, "PageSize")
  {
    hide Values, IsValidPageSize;
    assert StableKeys(r)[|StableKeys(r)| - 1] == "PageSize";
    assert StableMatches(u, v, "PageSize");
  }

  /** A page size may be added once, if it is one number from 1 to 1000, and that is the only addition. */
  lemma PageSizeMayAppear(r: Resource, u: Url, v: Url)
    requires u.path == v.path && Values(u.query, "PageSize") == []
    requires forall key | key in StableKeys(r) && key != "PageSize" :: Values(u.query, key) == Values(v.query, key)
    ensures var sizes := Values(v.query, "PageSize");
      Continues(r, u, v) <==>
        || sizes == []
        || (|sizes| == 1 && ParseU32(sizes[0]).Some? && 1 <= ParseU32(sizes[0]).value <= 1000)
  {
    hide Values, ParseU32;
    assert StableKeys(r)[|StableKeys(r)| - 1] == "PageSize";
    hide StableKeys;
    forall key | key in StableKeys(r) && key != "PageSize"
      ensures StableMatches(u, v, key)
    {
    }
    assert Continues(r, u, v) <==> StableMatches(u, v, "PageSize");
  }

  /** No value of any other stable key changes, appears or goes. */
  lemma StableValuesAreKept(r: Resource, u: Url, v: Url, key: string)
    requires Continues(r, u, v) && key in StableKeys(r) && key != "PageSize"
    ensures Values(v.query, key) == Values(u.query, key)
  {
    hide StableKeys, Values;
    assert StableMatches(u, v, key);
  }

  // ---- numbers as text --------------------------------------------------------------

  function Decimal(n: nat): (s: string)
    ensures s != ""
  {
    var last := [('0' as int + n % 10) as char];
    if n < 10 then last else Decimal(n / 10) + last
  }

  lemma {:induction false} DecimalDigits(n: nat)
    ensures ParseDigits(Decimal(n)) == Some(n)
    ensures '0' <= Decimal(n)[0] <= '9'
  {
    var d := Decimal(n);
    if n < 10 {
      assert d[..0] == "";
    } else {
      DecimalDigits(n / 10);
      assert d[..|d| - 1] == Decimal(n / 10);
    }
  }

  /** A number written out is read back, with a plus in front or without, exactly if it fits into 32 bits. */
  lemma DecimalRoundTrip(n: nat)
    ensures ParseU32(Decimal(n)) == ParseU32("+" + Decimal(n)) == if n < 0x1_0000_0000 then Some(n) else None
  {
    hide ParseDigits, Decimal;
    DecimalDigits(n);
    assert ("+" + Decimal(n))[1..] == Decimal(n);
  }

  lemma {:induction false} DigitsOnly(s: string)
    ensures ParseDigits(s).Some? <==> forall i | 0 <= i < |s| :: '0' <= s[i] <= '9'
  {
    if s != "" {
      var front, n := s[..|s| - 1], |s| - 1;
      DigitsOnly(front);
      assert forall i | 0 <= i < n :: front[i] == s[i];
    }
  }

  /** What is read as a number is digits, perhaps behind one plus, and fits into 32 bits. */
  lemma NumbersAreDigits(s: string)
    requires ParseU32(s).Some?
    ensures var digits := if s[0] == '+' then s[1..] else s;
      && digits != "" && (forall i | 0 <= i < |digits| :: '0' <= digits[i] <= '9')
      && ParseU32(s).value < 0x1_0000_0000
  {
    hide ParseDigits;
    DigitsOnly(if s[0] == '+' then s[1..] else s);
  }
}
