/** Listing runs: the paginator driven by page URLs that are validated on the page before. */
module PageRuns {
  import opened Errors
  import opened PageUrls
  import opened Paginators

  /** A decoded page: its items and where the server says the next one is. */
  datatype Page<+T> = Page(items: seq<T>, next: Option<PageRef>)

  /** One listing: where it starts and what the server answers to the `k`-th request for a URL. */
  datatype Listing<!T> = Listing(
    encode: string -> string,
    base: Url,
    resource: Resource,
    first: Result<Url>,
    server: (nat, Url) -> Result<Page<T>>)

  /** The URL a fetch asks for; nothing is sent when there is none. */
  function RequestUrl<T>(l: Listing<T>, cursor: Option<PageRef>): Result<Url> {
    if cursor.None? then l.first else PageUrl(l.encode, l.base, l.resource, cursor.value)
  }

  /** A page is accepted when the page it points to may follow the current URL. */
  function ReadPage<T>(l: Listing<T>, page: Page<T>, current: Url): Result<Page<T>> {
    if page.next.None? then Ok(page) else
    var next :- PageUrl(l.encode, l.base, l.resource, page.next.value);
    var fault := ContinuationFault(l.resource, current, next);
    if fault.Some? then Err(InvalidResponseMetadata(fault.value)) else Ok(page)
  }

  /** Whether the page that `page` points to may follow the URL `u`. */
  predicate MayFollow<T>(l: Listing<T>, page: Page<T>, u: Url) {
    page.next.None? ||
    var url := PageUrlFromBase(l.encode, l.base, page.next.value);
    url.Ok? && IsPageOf(l.base, l.resource, url.value) && Continues(l.resource, u, url.value)
  }

  /** A page is accepted as it is exactly when it is the last or points to a page that may follow. */
  lemma ReadPageExactly<T>(l: Listing<T>, page: Page<T>, u: Url)
    ensures ReadPage(l, page, u) == Ok(page) <==> MayFollow(l, page, u)
    ensures ReadPage(l, page, u).Ok? ==> ReadPage(l, page, u).value == page
    ensures ReadPage(l, page, u).Err? ==> ReadPage(l, page, u).error.InvalidResponseMetadata?
  {
    hide PageUrl, PageUrlFromBase, ContinuationFault, Continues, IsPageOf;
    if page.next.Some? {
      PageUrlChecks(l.encode, l.base, l.resource, page.next.value);
      var url := PageUrl(l.encode, l.base, l.resource, page.next.value);
      if url.Ok? {
        ContinuationExactly(l.resource, u, url.value);
      } else {
        RefusalIsExplained(l.encode, l.base, l.resource, page.next.value);
      }
    }
  }

  function Fetch<T>(l: Listing<T>, k: nat, cursor: Option<PageRef>): Result<Page<T>> {
    var url :- RequestUrl(l, cursor);
    var page :- l.server(k, url);
    ReadPage(l, page, url)
  }

  function SplitPage<T>(page: Page<T>): (seq<T>, Option<PageRef>) { (page.items, page.next) }

  /** The feed a `list_all` paginator runs on. */
  function FeedOf<T>(l: Listing<T>): Feed<PageRef, Page<T>, T> {
    Feed((k: nat, cursor: Option<PageRef>) => Fetch(l, k, cursor), SplitPage)
  }

  /** Whether the `k`-th fetch of the run happens, and the URL it asks for. */
  function IsFetched<T>(l: Listing<T>, k: nat): bool { CursorAt(FeedOf(l), k).Some? }

  function UrlAt<T>(l: Listing<T>, k: nat): Result<Url>
    requires IsFetched(l, k)
  {
    RequestUrl(l, CursorAt(FeedOf(l), k).value)
  }

  /** The URL fetched next is the one that was validated against the current URL, on the current page. */
  lemma NextUrlWasValidated<T>(l: Listing<T>, k: nat)
    requires IsFetched(l, k + 1)
    ensures IsFetched(l, k) && UrlAt(l, k).Ok? && UrlAt(l, k + 1).Ok?
    ensures CursorAt(FeedOf(l), k + 1).value.Some?
    ensures UrlAt(l, k + 1) == PageUrl(l.encode, l.base, l.resource, CursorAt(FeedOf(l), k + 1).value.value)
    ensures Continues(l.resource, UrlAt(l, k).value, UrlAt(l, k + 1).value)
    ensures IsPageOf(l.base, l.resource, UrlAt(l, k + 1).value)
  {
    hide CursorAt, PageUrl, ContinuationFault, Continues, IsPageOf;
    var feed := FeedOf(l);
    CursorComesFromPage(feed, k);
    var cursor := CursorAt(feed, k).value;
    var page := PageAt(feed, k);
    assert page == Fetch(l, k, cursor);
    CursorIsSome(feed, k);
    var url, next := RequestUrl(l, cursor).value, page.value.next;
    ContinuationExactly(l.resource, url, PageUrl(l.encode, l.base, l.resource, next.value).value);
    PageUrlChecks(l.encode, l.base, l.resource, next.value);
  }

  /**
   * A page the server answers with, and that may follow, is delivered as it is, and the run goes on
   * exactly if there is a next one, at its URL. An error of the server ends the run with that error.
   */
  lemma GoodPagesAreDelivered<T>(l: Listing<T>, k: nat)
    requires IsFetched(l, k) && UrlAt(l, k).Ok?
    ensures var answer, u := l.server(k, UrlAt(l, k).value), UrlAt(l, k).value;
      && (answer.Err? ==> PageAt(FeedOf(l), k) == Err(answer.error) && !IsFetched(l, k + 1))
      && (answer.Ok? && MayFollow(l, answer.value, u) ==>
        && PageAt(FeedOf(l), k) == answer
        && Delivered(FeedOf(l), PageAt(FeedOf(l), k)) == Items(answer.value.items)
        && (IsFetched(l, k + 1) <==> answer.value.next.Some?)
        && (IsFetched(l, k + 1) ==> UrlAt(l, k + 1) == PageUrlFromBase(l.encode, l.base, answer.value.next.value)))
      && (answer.Ok? && !MayFollow(l, answer.value, u) ==> PageAt(FeedOf(l), k).Err? && !IsFetched(l, k + 1))
  {
    hide CursorAt, PageUrl, PageUrlFromBase, ReadPage, MayFollow, Continues, IsPageOf;
    var feed, u := FeedOf(l), UrlAt(l, k).value;
    var answer := l.server(k, u);
    ChainGoesOn(feed, k);
    assert PageAt(feed, k) == Fetch(l, k, CursorAt(feed, k).value);
    if answer.Ok? {
      ReadPageExactly(l, answer.value, u);
      if IsFetched(l, k + 1) {
        NextIsAt(l, k, answer.value);
      }
    }
  }

  lemma NextIsAt<T>(l: Listing<T>, k: nat, page: Page<T>)
    requires IsFetched(l, k + 1) && IsFetched(l, k) && PageAt(FeedOf(l), k) == Ok(page)
    ensures page.next.Some? && UrlAt(l, k + 1) == PageUrlFromBase(l.encode, l.base, page.next.value)
  {
    hide CursorAt, PageUrl, PageUrlFromBase, ContinuationFault, Continues, IsPageOf;
    CursorComesFromPage(FeedOf(l), k);
    CursorIsSome(FeedOf(l), k);
    NextUrlWasValidated(l, k);
    PageUrlChecks(l.encode, l.base, l.resource, page.next.value);
  }

  /** If nothing can be asked for, the first call says why. */
  lemma NoUrlNoPage<T>(l: Listing<T>)
    requires l.first.Err?
    ensures IsFetched(l, 0) && PageAt(FeedOf(l), 0) == Err(l.first.error) && !IsFetched(l, 1)
  {
    ChainGoesOn(FeedOf(l), 0);
  }

  lemma CursorIsSome<C, P, T>(feed: Feed<C, P, T>, k: nat)
    requires CursorAt(feed, k + 1).Some?
    ensures CursorAt(feed, k + 1).value.Some?
  {
  }

  /** On any run, every URL fetched later continues every URL fetched before. */
  lemma {:induction false} LaterUrlContinues<T>(l: Listing<T>, i: nat, j: nat)
    requires i <= j && IsFetched(l, j) && l.first.Ok?
    ensures IsFetched(l, i) && UrlAt(l, i).Ok? && UrlAt(l, j).Ok?
    ensures Continues(l.resource, UrlAt(l, i).value, UrlAt(l, j).value)
    decreases j - i
  {
    hide CursorAt, Continues, RequestUrl, FeedOf;
    ChainHasNoGaps(FeedOf(l), i, j);
    if i == j {
      UrlIsThere(l, i);
      ContinuesItself(l.resource, UrlAt(l, i).value);
    } else {
      NextUrlWasValidated(l, j - 1);
      LaterUrlContinues(l, i, j - 1);
      ContinuesOn(l.resource, UrlAt(l, i).value, UrlAt(l, j - 1).value, UrlAt(l, j).value);
    }
  }

  lemma UrlIsThere<T>(l: Listing<T>, k: nat)
    requires IsFetched(l, k) && l.first.Ok?
    ensures UrlAt(l, k).Ok?
  {
    hide PageUrl;
    if k > 0 {
      NextUrlWasValidated(l, k - 1);
    }
  }

  /** Every page fetched after the first is a page of the resource at the configured origin. */
  lemma {:induction false} FetchedPagesAreOfResource<T>(l: Listing<T>, k: nat)
    requires k > 0 && IsFetched(l, k)
    ensures UrlAt(l, k).Ok? && IsPageOf(l.base, l.resource, UrlAt(l, k).value)
  {
    hide *;
    NextUrlWasValidated(l, k - 1);
  }

  // ---- the messages of an account ---------------------------------------------------

  datatype ListMessagesRequest = ListMessagesRequest(
    to: Option<string>,
    from: Option<string>,
    dateSent: Option<string>,
    dateSentBefore: Option<string>,
    dateSentAfter: Option<string>,
    pageSize: Option<nat>,
    page: Option<nat>,
    pageToken: Option<string>)

  const DEFAULT_PAGE_SIZE: nat := 50

  function Pair(key: string, value: Option<string>): seq<(string, string)> {
    if value.Some? then [(key, value.value)] else []
  }

  function Number(value: Option<nat>): Option<string> {
    if value.Some? then Some(Decimal(value.value)) else None
  }

  /** The fields of a request in the order in which they are appended to the URL. */
  const MESSAGE_KEYS: seq<string> := [
    "To", "From", "DateSent", "DateSent<", "DateSent>", "PageSize", "Page", "PageToken"
  ]

  function Field(r: ListMessagesRequest, n: nat): Option<string>
    requires n < 8
  {
    match n
    case 0 => r.to
    case 1 => r.from
    case 2 => r.dateSent
    case 3 => r.dateSentBefore
    case 4 => r.dateSentAfter
    case 5 => Number(r.pageSize)
    case 6 => Number(r.page)
    case 7 => r.pageToken
  }

  function QueryOf(r: ListMessagesRequest, n: nat): seq<(string, string)>
    requires n <= 8
  {
    if n == 0 then [] else QueryOf(r, n - 1) + Pair(MESSAGE_KEYS[n - 1], Field(r, n - 1))
  }

  /** A base URL as the configuration accepts it. */
  predicate IsBaseUrl(base: Url) {
    IsParsed(base) && base.username == "" && base.password.None? && base.query == [] && base.fragment.None?
  }

  function MessagesPath(account: string): seq<string> { ["2010-04-01", "Accounts", account, "Messages.json"] }

  function MessagesUrl(encode: string -> string, base: Url, account: string, r: ListMessagesRequest): Url {
    var url := Endpoint(encode, base, MessagesPath(account));
    url.(query := url.query + QueryOf(r, 8))
  }

  function FirstMessagesUrl(encode: string -> string, base: Url, account: string, r: ListMessagesRequest): Result<Url> {
    if r.pageSize.Some? && !(1 <= r.pageSize.value <= 1000) then Err(InvalidRequest)
    else Ok(MessagesUrl(encode, base, account, r))
  }

  /** `list_all_with`: the paginator over all messages, with a page size in any case. */
  function ListAllWith<T>(encode: string -> string, base: Url, account: string, r: ListMessagesRequest,
                          server: (nat, Url) -> Result<Page<T>>): Listing<T> {
    var request := if r.pageSize.None? then r.(pageSize := Some(DEFAULT_PAGE_SIZE)) else r;
    Listing(encode, base, Messages(account), FirstMessagesUrl(encode, base, account, request), server)
  }

  // ---- the first URL is a page like the others -----------------------------------------

  lemma {:induction false} ValuesOfSum(a: seq<(string, string)>, b: seq<(string, string)>, key: string)
    ensures Values(a + b, key) == Values(a, key) + Values(b, key)
  {
    if a == [] {
      assert a + b == b;
    } else {
      assert (a + b)[1..] == a[1..] + b && (a + b)[0] == a[0];
      ValuesOfSum(a[1..], b, key);
      var first := if a[0].0 == key then [a[0].1] else [];
      assert first + (Values(a[1..], key) + Values(b, key)) == first + Values(a[1..], key) + Values(b, key);
    }
  }

  lemma ValuesOfPair(key: string, value: Option<string>, k: string)
    ensures Values(Pair(key, value), k) == if value.Some? && key == k then [value.value] else []
  {
    var p := Pair(key, value);
    if value.Some? {
      assert p[1..] == [];
    }
  }

  lemma KeysAreDistinct(i: nat, j: nat)
    requires i < j < 8
    ensures MESSAGE_KEYS[i] != MESSAGE_KEYS[j]
  {
    var to, from, ds, dl, dg := "To", "From", "DateSent", "DateSent<", "DateSent>";
    var ps, p, pt := "PageSize", "Page", "PageToken";
    assert dl[8] == '<' && dg[8] == '>' && ds[0] == 'D' && ps[0] == 'P' && pt[0] == 'P' && pt[4] == 'T';
    assert |to| == 2 && |from| == |p| == 4 && from[0] == 'F' && |ds| == |ps| == 8 && |dl| == |dg| == |pt| == 9;
  }

  /** A query stays good when an allowed key that it lacks is appended. */
  lemma GoodOfOneMore(r: Resource, q: seq<(string, string)>, key: string, value: Option<string>)
    requires IsGoodQuery(r, q) && IsAllowedKey(r, key)
    requires forall i | 0 <= i < |q| :: q[i].0 != key
    ensures IsGoodQuery(r, q + Pair(key, value))
  {
    hide IsAllowedKey, MayRepeat;
  }

  lemma KeysOfOneMore(q: seq<(string, string)>, n: nat, value: Option<string>)
    requires n < 8 && forall i | 0 <= i < |q| :: q[i].0 in MESSAGE_KEYS[..n]
    ensures forall i | 0 <= i < |q| :: q[i].0 != MESSAGE_KEYS[n]
    ensures forall i | 0 <= i < |q + Pair(MESSAGE_KEYS[n], value)| ::
      (q + Pair(MESSAGE_KEYS[n], value))[i].0 in MESSAGE_KEYS[..n + 1]
  {
    var before, after := MESSAGE_KEYS[..n], MESSAGE_KEYS[..n + 1];
    assert after == before + [MESSAGE_KEYS[n]];
    forall k | k in before
      ensures k != MESSAGE_KEYS[n]
    {
      var i :| 0 <= i < n && before[i] == k;
      KeysAreDistinct(i, n);
    }
  }

  lemma {:induction false} RequestQueryIsGood(r: ListMessagesRequest, account: string, n: nat)
    requires n <= 8
    ensures IsGoodQuery(Messages(account), QueryOf(r, n))
    ensures forall i | 0 <= i < |QueryOf(r, n)| :: QueryOf(r, n)[i].0 in MESSAGE_KEYS[..n]
  {
    if n > 0 {
      hide IsGoodQuery, IsAllowedKey, Pair;
      RequestQueryIsGood(r, account, n - 1);
      KeyIsAllowed(account, n - 1);
      KeysOfOneMore(QueryOf(r, n - 1), n - 1, Field(r, n - 1));
      GoodOfOneMore(Messages(account), QueryOf(r, n - 1), MESSAGE_KEYS[n - 1], Field(r, n - 1));
    }
  }

  /** The values a field gives to its key. */
  function AsList(value: Option<string>): seq<string> {
    if value.Some? then [value.value] else []
  }

  lemma {:induction false} QueryShows(r: ListMessagesRequest, n: nat, m: nat)
    requires n <= 8 && m < 8
    ensures Values(QueryOf(r, n), MESSAGE_KEYS[m]) == if m < n then AsList(Field(r, m)) else []
  {
    if n > 0 {
      hide Values, Pair, Field;
      QueryShows(r, n - 1, m);
      ValuesOfSum(QueryOf(r, n - 1), Pair(MESSAGE_KEYS[n - 1], Field(r, n - 1)), MESSAGE_KEYS[m]);
      ValuesOfPair(MESSAGE_KEYS[n - 1], Field(r, n - 1), MESSAGE_KEYS[m]);
      if n - 1 != m {
        KeysAreDistinct(if n - 1 < m then n - 1 else m, if n - 1 < m then m else n - 1);
      }
    } else {
      assert QueryOf(r, 0) == [];
    }
  }

  /** The first URL asks for what the request says: each field under its own key, and nothing else. */
  lemma FirstUrlShowsRequest(encode: string -> string, base: Url, account: string, r: ListMessagesRequest)
    requires IsBaseUrl(base)
    ensures var q := MessagesUrl(encode, base, account, r).query;
      && Values(q, "To") == AsList(r.to) && Values(q, "From") == AsList(r.from)
      && Values(q, "DateSent") == AsList(r.dateSent)
      && Values(q, "DateSent<") == AsList(r.dateSentBefore) && Values(q, "DateSent>") == AsList(r.dateSentAfter)
      && Values(q, "PageSize") == (if r.pageSize.Some? then [Decimal(r.pageSize.value)] else [])
      && Values(q, "Page") == (if r.page.Some? then [Decimal(r.page.value)] else [])
      && Values(q, "PageToken") == AsList(r.pageToken)
      && forall i | 0 <= i < |q| :: q[i].0 in MESSAGE_KEYS
  {
    hide Values, Decimal, Endpoint, QueryOf;
    var q := MessagesUrl(encode, base, account, r).query;
    EndpointKeeps(encode, base, MessagesPath(account));
    assert q == QueryOf(r, 8);
    forall m | 0 <= m < 8
      ensures Values(q, MESSAGE_KEYS[m]) == AsList(Field(r, m))
    {
      QueryShows(r, 8, m);
    }
    RequestQueryIsGood(r, account, 8);
    assert MESSAGE_KEYS[..8] == MESSAGE_KEYS;
    assert Values(q, MESSAGE_KEYS[0]) == AsList(r.to) && Values(q, MESSAGE_KEYS[1]) == AsList(r.from);
    assert Values(q, MESSAGE_KEYS[2]) == AsList(r.dateSent);
    assert Values(q, MESSAGE_KEYS[3]) == AsList(r.dateSentBefore) && Values(q, MESSAGE_KEYS[4]) == AsList(r.dateSentAfter);
    assert Values(q, MESSAGE_KEYS[5]) == AsList(Number(r.pageSize)) && Values(q, MESSAGE_KEYS[6]) == AsList(Number(r.page));
    assert Values(q, MESSAGE_KEYS[7]) == AsList(r.pageToken);
  }

  /** A listing of all messages starts unless its page size is out of range, and asks for pages of 50 if it names none. */
  lemma ListingStarts<T>(encode: string -> string, base: Url, account: string, r: ListMessagesRequest,
                         server: (nat, Url) -> Result<Page<T>>)
    requires IsBaseUrl(base)
    ensures var l := ListAllWith(encode, base, account, r, server);
      && (l.first.Ok? <==> r.pageSize.None? || 1 <= r.pageSize.value <= 1000)
      && (l.first.Err? ==> l.first.error == InvalidRequest)
      && (l.first.Ok? ==>
        && l.first.value == MessagesUrl(encode, base, account, r.(pageSize := Some(if r.pageSize.Some? then r.pageSize.value else 50)))
        && IsValidPageSize(Values(l.first.value.query, "PageSize")))
  {
    hide MessagesUrl, Values, IsValidPageSize;
    var size := if r.pageSize.Some? then r.pageSize.value else 50;
    assert r.pageSize.Some? ==> r.(pageSize := Some(size)) == r;
    FirstUrlIsPage(encode, base, account, r.(pageSize := Some(size)));
  }

  lemma KeyIsAllowed(account: string, n: nat)
    requires n < 8
    ensures IsAllowedKey(Messages(account), MESSAGE_KEYS[n])
  {
    assert n < 5 ==> MESSAGE_KEYS[n] == ["To", "From", "DateSent", "DateSent<", "DateSent>"][n];
    assert n >= 5 ==> MESSAGE_KEYS[n] == PAGING_KEYS[n - 5];
  }

  /** The first URL passes the checks of a page exactly if the path keeps the account and the fixed segments. */
  lemma FirstUrlIsPage(encode: string -> string, base: Url, account: string, r: ListMessagesRequest)
    requires IsBaseUrl(base)
    ensures var url := MessagesUrl(encode, base, account, r);
      && (IsPageOf(base, Messages(account), url) <==> forall s | s in MessagesPath(account) :: IsKept(encode, s))
      && (r.pageSize.Some? ==> Values(url.query, "PageSize") == [Decimal(r.pageSize.value)])
      && (r.pageSize.Some? && 1 <= r.pageSize.value <= 1000 ==> IsValidPageSize(Values(url.query, "PageSize")))
  {
    hide IsGoodQuery, Endpoint, ApiSegments, Decimal, Values, QueryOf, ParseU32, IsKept;
    if r.pageSize.Some? && r.pageSize.value <= 1000 {
      DecimalRoundTrip(r.pageSize.value);
    }
    var segments := MessagesPath(account);
    var url := MessagesUrl(encode, base, account, r);
    EndpointRoundTrip(encode, base, segments);
    RequestQueryIsGood(r, account, 8);
    QueryShows(r, 8, 5);
    EndpointKeeps(encode, base, segments);
    assert url.query == QueryOf(r, 8);
    SamePath(base, Endpoint(encode, base, segments), url);
  }

  lemma EndpointKeeps(encode: string -> string, base: Url, segments: seq<string>)
    ensures Endpoint(encode, base, segments) == base.(path := Endpoint(encode, base, segments).path)
  {
  }

  lemma SamePath(base: Url, u: Url, v: Url)
    requires u.path == v.path
    ensures ApiSegments(base, u) == ApiSegments(base, v)
  {
  }

  /**
   * On every run of `list_all` over the messages of an account, whatever the server
   * answers: each fetched URL is a page of that account at the configured origin,
   * has the path of the first one and its values for every filter and the page size.
   */
  lemma MessagesRunIsSafe<T>(encode: string -> string, base: Url, account: string, r: ListMessagesRequest,
                             server: (nat, Url) -> Result<Page<T>>, k: nat)
    requires IsBaseUrl(base) && forall s | s in MessagesPath(account) :: IsKept(encode, s)
    requires var l := ListAllWith(encode, base, account, r, server); l.first.Ok? && IsFetched(l, k)
    ensures var l := ListAllWith(encode, base, account, r, server);
      && UrlAt(l, k).Ok?
      && IsPageOf(base, Messages(account), UrlAt(l, k).value)
      && UrlAt(l, k).value.path == l.first.value.path
      && forall key | key in StableKeys(Messages(account)) ::
        Values(UrlAt(l, k).value.query, key) == Values(l.first.value.query, key)
  {
    hide CursorAt, IsPageOf, MessagesUrl, Values, RequestUrl, StableKeys;
    var l := ListAllWith(encode, base, account, r, server);
    var request := if r.pageSize.None? then r.(pageSize := Some(DEFAULT_PAGE_SIZE)) else r;
    FirstUrlIsPage(encode, base, account, request);
    LaterUrlContinues(l, 0, k);
    FirstIsFirst(l);
    if k > 0 {
      FetchedPagesAreOfResource(l, k);
    }
    var u, v := l.first.value, UrlAt(l, k).value;
    PageSizeIsFixed(l.resource, u, v);
    forall key | key in StableKeys(Messages(account))
      ensures Values(v.query, key) == Values(u.query, key)
    {
      assert StableMatches(u, v, key);
    }
  }

  lemma FirstIsFirst<T>(l: Listing<T>)
    ensures IsFetched(l, 0) && UrlAt(l, 0) == l.first
  {
  }
}
