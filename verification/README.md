# A verified model of the twilio2 client's hard core

twilio2 is a Rust client for Twilio's HTTP APIs. This project models the parts of it
whose correctness is not visible in one function body, and proves what they promise
on all inputs and all runs. `dafny verify dfyconfig.toml` checks everything.

**The diagnostic sanitizer** (`KnownValues`, `KeyValues*`, `BoundaryPasses`,
`BoundaryLaws`, `BoundaryTheorems`, `BoundarySecrecy`, `Sanitizer`, `Idempotence`, `Twice`,
`ByteSlices`). Four passes mask known values, the values of sensitive keys, credentials
(section 2 of RFC 7617, section 2.1 of RFC 6750) and links. Each scanning pass is a function
of the text still to scan and a loop over an index that computes it; the theorems are about
the function. A text is a sequence of Unicode characters, and no theorem about what comes out
asks for ASCII. The main results:

- The output of all four passes has every credential, every link and the value of every
  sensitive key masked, bare or quoted, although the later passes rewrite the output of the
  earlier ones. The one exception is a key that starts at the closing quote of a masked value.
- A known value never shows again if its trimmed form cannot overlap the marker. For
  the pass that replaces the values this condition is exact, and for values without
  angle brackets it is exact end to end.
- Every scanning pass is a fixpoint of itself, and which texts it leaves alone is
  characterised exactly; so is which texts the whole sanitizer leaves alone.
- What a key, a value, a credential and a link are is also said of the text alone, without
  the scan (`KeyValueGrammar`, `CleanExactly`), and the scan finds exactly these.
- The output of each scanning pass does not depend on the text it masks, in any
  context in which the scan comes to stand there.

**Pages** (`PageUrls`, `Paginators`, `PageRuns`). URLs of pages are resolved, checked
and compared with the URL before; a paginator with three fields fetches one page per
call from an arbitrary server, and any call may be dropped while it waits. A page may
continue another is a preorder, so the validation of single steps holds over whole runs.
And a run is not stopped without a reason: a page that may follow is accepted and delivered.

**Retries** (`Retries`): the attempt loop with its guards, saturating backoff and event
log, for every sequence of outcomes. **Smaller loops** (`ErrorBodies`, `Waits`,
`Uniqueness`): the bounded body reader, the safe context of bulk errors, polling
against a deadline, and lists that must not repeat.

Where the code and what is said of it differ, the model follows the code:

- The sanitizer is not idempotent as a whole: `SanitizingTwiceDiffers` has a text that a
  second run changes. `IdempotentExactly` says exactly when one does not, and
  `UnquotedIsIdempotent` that none does on a text without a sensitive key in quotes.
- A sensitive key that starts at the closing quote of a masked value, as in `to= ""key":v`,
  is not where the scan stands, and its value stays (`KeyBehindMaskIsKept`, for every such
  key). That is why `KeysMasked` excuses a key that starts there, and no other.
- Two entries of the table of sensitive keys contain an underscore, which a normalized
  key never does (`UnderscoresMatchNothing`).
- The comparisons with schemes slice the text at byte offsets and do not return when
  one cuts a character (`AccentIsCut`). `SanitizerIsDefinedExactly` says exactly on which
  texts all of them return; on ASCII text they do (`AsciiIsSanitized`).
- The segments of a base path are encoded once more when a rooted page reference is resolved;
  if that changes one, every such reference is refused (`RootedStaysBeneathBase`).
- An empty read ends a body for the blocking reader and not for the other one
  (`CuttingDoesNotMatter` asks for reads that are not empty).
- The delay before a retry does not look at the error, so `Retry-After` plays no part.
- Attempts are counted in 32 bits. The count is right for every run exactly when the
  budget is below the largest 32-bit number (`ReportsAllExactly`); the model wraps
  where a build with overflow checks would stop.
- Of the filters of a listing, continuation does not protect the vetting provider, and only
  that one (`FiltersAreKeptExactly`, `ProviderMayChange`).

## Model

| member | source | states |
|---|---|---|
| KnownValues.RedactKnownValues | src/common.rs:3362-3371 | the loop over the values computes their replacement one after the other, blank ones skipped |
| KnownValues.TrimIs | src/common.rs:3364-3367 | what is trimmed off a known value is white space at its two ends and nothing else |
| KnownValues.ReplaceIsFromLeft | src/common.rs:3368 | exactly the occurrences found from the left are replaced: no other text is cut, and none is kept that could have been cut there |
| KnownValues.ValuesInTurn | src/common.rs:3362-3371 | each value is replaced in what the ones before it left |
| KnownValues.ReplaceLeavesNone | src/common.rs:3362-3371 | replacing a value that cannot overlap the marker leaves no occurrence of it |
| KnownValues.ListedIsGone | src/common.rs:3362-3371 | later replacements of other values do not bring it back |
| KnownValues.ListedIsGoneExactly | src/common.rs:3362-3371 | a value never comes back, whatever the text and the other values, exactly when its trimmed form cannot overlap the marker |
| Redaction.RedactionCreatesNothing | src/common.rs:27 | masking stretches of a text creates no text that cannot overlap the marker |
| Redaction.PlainTextIsClear | src/common.rs:27 | without angle brackets only parts of the word in the marker can overlap it |
| KeyValues.UnderscoresMatchNothing | src/common.rs:3559-3623 | the two entries of the table with an underscore are the normalized form of no key |
| KeyValues.NormalizedKeyInParts | src/common.rs:3618-3623 | every letter and digit of a key counts in its place and in lower case, and nothing else does |
| Text.ClassesAre | src/common.rs:3545-3557 | which characters end a key, a blank stretch, a bare value and a link |
| KeyValues.BodyEndsExactly | src/common.rs:3633-3654 | the end of a quoted body is its first quote that no unescaped backslash precedes, or the end of the text |
| KeyValueScan.QuotedValueEnd | src/common.rs:3633-3654 | every quote before the end it finds is escaped, and the end is a quote that is not, or the end of the text |
| Text.RunEnd | src/common.rs:3656-3667 | advances exactly over the maximal stretch of one class of characters |
| KeyValueScan.AuthorizationValueEnd | src/common.rs:3669-3674 | a scheme and the text behind it, or bare text |
| KeyValueScan.ValueIsAtBoundary | src/common.rs:3692-3700 | the look-back of the scheme test never fails where the value of a key starts |
| KeyValueScan.ScanHead | src/common.rs:3381-3429 | finds a bare or quoted sensitive key with its separator |
| KeyValueScan.MaskValue | src/common.rs:3439-3470 | emits the mask with the quotes that were there and moves behind the value |
| KeyValueScan.RedactSensitiveKeyValues | src/common.rs:3373-3477 | the loop over the index computes the function of the remaining text |
| KeyValueGrammar.HeadExactly | src/common.rs:3380-3429 | the scan sees a sensitive key exactly where a word of the table stands, bare or in quotes, with any blanks and a separator behind it |
| KeyValueGrammar.BareValueIsMasked | src/common.rs:3455-3471 | the bare value of any such key is masked up to a blank, an ampersand or the end |
| KeyValueGrammar.QuotedValueIsMasked | src/common.rs:3455-3465 | a quoted value is masked between its quotes, with all escaped quotes in it |
| KeyValueGrammar.OpenValueIsMasked | src/common.rs:3455-3465 | without a closing quote it is masked to the end of the text |
| KeyValueGrammar.AuthorizationIsMasked | src/common.rs:3439-3454 | of an authorization key, scheme and credentials are masked together, whatever the case of the scheme |
| KeyValueGrammar.PlainAuthorizationIsMasked | src/common.rs:3451-3454 | without a scheme, the bare text is |
| KeyValueLaws.HeadIsLocal | src/common.rs:3380-3429 | whether a sensitive key stands at a position depends on nothing beyond the last character looked at |
| KeyValueLaws.CopyIsStable | src/common.rs:3373-3477 | masking the rest never changes the look-ahead that decided an earlier non-match |
| KeyValueTheorems.MaskIsStable | src/common.rs:3428-3471 | a masked value reads back as the same value, ending at the same place |
| KeyValueTheorems.KeyValuePassRedacts | src/common.rs:3373-3477 | the output is the input with disjoint stretches masked, nothing else dropped, added or reordered |
| KeyValueTheorems.KeyValuePassIsIdempotent | src/common.rs:3373-3477 | a second run of the pass changes nothing, on every text |
| KeyValueTheorems.KeyValuePassMasksKeys | src/common.rs:3373-3477 | in the output the whole value of every sensitive key, bare or quoted and wherever it stands, is the marker, unless the key starts at the closing quote of a masked value |
| KeyValueFixpoints.MaskedExactly | src/common.rs:3428-3471 | a value counts as masked exactly when the scan reads it as its own mask |
| KeyValueFixpoints.UnchangedExactly | src/common.rs:3373-3477 | the pass leaves a text alone exactly when every key the scan comes to has the marker as its whole value |
| KeyValueFixpoints.OutputKeysAreMasked | src/common.rs:3373-3477 | in the output every key the scan comes to, quoted ones too, has the marker as its whole value |
| KeyValueSecrecy.FilledOutput | src/common.rs:3426-3471 | at a sensitive key the output is the head, the mask and the output of the rest |
| KeyValueSecrecy.ValuesDoNotShow | src/common.rs:3426-3471 | non-interference: values of one shape give the same whole output in every context |
| KeyValueSecrecy.PlainValuesDoNotShow | src/common.rs:3426-3471 | so for all bare and all well-escaped quoted values of keys other than authorization |
| KeyValueSecrecy.CredentialsDoNotShow | src/common.rs:3439-3454 | so for all credentials of an authorization key, and for which scheme they have |
| BoundaryPasses.RedactAuthorizationSchemes | src/common.rs:3479-3500 | the loop computes the credential pass |
| BoundaryPasses.RedactUrls | src/common.rs:3502-3518 | the loop computes the link pass |
| BoundaryLaws.PassRedacts | src/common.rs:3479-3518 | the outputs of both passes are their inputs with disjoint stretches masked |
| BoundaryLaws.PassIsIdempotent | src/common.rs:3479-3518 | a second run of either pass changes nothing |
| BoundaryTheorems.CleanIsFixed | src/common.rs:3479-3557 | a pass leaves a text alone exactly when no link stands at a boundary, or every scheme there has an empty value or the marker |
| BoundaryTheorems.CleanExactly | src/common.rs:3520-3557 | said of the text alone: at no place behind anything but a letter or a digit does a link start, or show a scheme in any case more than the marker |
| BoundaryTheorems.OutputFront | src/common.rs:3479-3518 | output without angle brackets was copied from the same place of the input |
| BoundaryTheorems.PassKeepsKeysMasked | src/common.rs:3355-3360 | both later passes keep every sensitive key masked that was, bare and quoted ones |
| BoundaryTheorems.LinksKeepClean | src/common.rs:3355-3360 | the link pass keeps every credential masked |
| BoundarySecrecy.CredentialIsMasked | src/common.rs:3479-3500 | behind a scheme, text up to a blank or an ampersand becomes the marker and the scheme stays |
| BoundarySecrecy.LinkIsMasked | src/common.rs:3502-3518 | a link becomes the marker as a whole |
| BoundarySecrecy.SchemeValuesDoNotShow | src/common.rs:3479-3500 | non-interference of the credential pass: any two non-empty credentials behind the same scheme give the same output in every context |
| BoundarySecrecy.LinksDoNotShow | src/common.rs:3502-3518 | non-interference of the link pass: any two links in front of the same text give the same output in every context |
| Sanitizer.SanitizeDiagnostic | src/common.rs:3355-3360 | the four passes in a row: in the result every credential, every link and every sensitive key is masked, bare or quoted, unless the key starts at the closing quote of a masked value, and the known values that cannot overlap the marker are gone |
| Sanitizer.SanitizedIsSafe | src/common.rs:3355-3360 | no pass undoes what an earlier one established, for keys in quotes and without |
| Sanitizer.KeyShowsNoValue | src/common.rs:3355-3360 | wherever a word of the table stands as a key in the result, the marker is its whole value, unless its quote closes a masked value |
| Sanitizer.ValuesNeverShow | src/common.rs:3355-3360 | non-interference of all passes together: without known values, values of one shape give the same result in every context |
| Sanitizer.ValueIsGone | src/common.rs:3355-3371 | no later replacement and no later pass recreates a known value |
| Sanitizer.PlainValueNeverShows | src/common.rs:3355-3371 | a known value without angle brackets never shows exactly when it is no part of the marker's word |
| Idempotence.SanitizedIsFixedExactly | src/common.rs:3355-3360 | sanitizing leaves a text alone exactly when every key the scan comes to, every credential and every link is masked |
| Idempotence.IdempotentExactly | src/common.rs:3355-3360 | sanitizing twice is sanitizing once exactly when the first run left no scanned key to mask |
| Idempotence.UnquotedIsIdempotent | src/common.rs:3355-3360 | so it is for every text without a sensitive key in quotes, whatever the known values |
| Idempotence.SameValuesAgain | src/common.rs:3355-3371 | naming the same values in the second run makes no difference if none can overlap the marker |
| Twice.KeyBehindMaskIsKept | src/common.rs:3455-3465 | any sensitive key that starts at the closing quote of a masked value keeps its own value, and is a key in the output |
| Twice.SanitizingTwiceDiffers | src/common.rs:3355-3360 | a text that sanitizing a second time changes |
| ByteSlices.CharBoundaryIs | src/common.rs:3520-3534 | a byte offset lies between characters exactly when it is the byte length of a prefix |
| ByteSlices.TestSlices | src/common.rs:3520-3534 | a comparison is whole exactly when the slices at the lengths of the two words are |
| ByteSlices.PassIsDefinedExactly | src/common.rs:3520-3534 | the credential and the link pass return exactly when the comparison is whole at every word boundary outside what they mask |
| ByteSlices.KeyValuePassIsDefinedExactly | src/common.rs:3669-3690 | the key/value pass returns exactly when it is whole at every unquoted authorization value the scan comes to |
| ByteSlices.SanitizerIsDefinedExactly | src/common.rs:3355-3360 | the sanitizer returns exactly when all of these comparisons are whole |
| ByteSlices.AsciiIsSanitized | src/common.rs:3520-3534 | on ASCII text it always returns |
| ByteSlices.AccentIsCut | src/common.rs:3676-3690 | a text on which the sanitizer does not return: its first passes hand it on and the comparison with a scheme cuts a character |
| PageUrls.EndpointRoundTrip | src/common.rs:2520-2533 | behind the base path an endpoint has its own segments, exactly when none is empty or dots and percent-encoding changes none |
| PageUrls.RootedStaysBeneathBase | src/common.rs:2716-2753 | a rooted page reference resolves beneath the base path to its own parts exactly when encoding changes no base segment, else it is found to leave the base path |
| PageUrls.OthersAreJoined | src/common.rs:2754-2759 | any other reference is what it joins to, or refused |
| PageUrls.ValidatePageQueryKeys | src/common.rs:2950-2976 | the loop finds the first unsupported or repeated key |
| PageUrls.QueryFaultExactly | src/common.rs:2950-2976 | a query passes exactly when all keys are allowed and only repeatable ones occur twice |
| PageUrls.QueryFaultIsFirst | src/common.rs:2950-2976 | a reported fault is that of the first key with one, and names what is wrong with it |
| PageUrls.PageUrlChecks | src/common.rs:2605-2715 | a page URL passes exactly when origin, credentials, fragment, path and query are those of its resource |
| PageUrls.RefusalIsExplained | src/common.rs:2605-2828 | every refusal names something that is wrong with the URL, found after all earlier checks passed |
| PageUrls.UnstableKeys | src/common.rs:2978-3030 | the allowed keys that a continuation may change: the page, its token and the vetting provider |
| PageUrls.FiltersAreKeptExactly | src/common.rs:3148-3196 | every allowed filter is protected exactly when the resource is not the vettings of a brand |
| PageUrls.ProviderMayChange | src/common.rs:3052-3071 | two good pages of vettings continue each other although their providers differ |
| PageUrls.ValidateContinuation | src/common.rs:3032-3146 | the loop finds the first stable key whose values change |
| PageUrls.ContinuationExactly | src/common.rs:3032-3146 | a continuation passes exactly when the path and the values of all stable keys are kept |
| PageUrls.ContinuationIsExplained | src/common.rs:3032-3146 | a refused continuation names the path, or a stable key whose values change |
| PageUrls.ContinuesOn | src/common.rs:3210-3217 | continuing twice is continuing |
| PageUrls.PageSizeIsFixed | src/common.rs:3210-3224 | a page size that is there stays |
| PageUrls.PageSizeMayAppear | src/common.rs:3210-3224 | a page size may be added exactly when it is one number from 1 to 1000 |
| PageUrls.StableValuesAreKept | src/common.rs:3210-3217 | no value of another stable key changes, appears or goes |
| PageUrls.DecimalRoundTrip | src/common.rs:3219-3224 | a number written out is read back, with a plus or without, exactly when it fits into 32 bits |
| PageUrls.NumbersAreDigits | src/common.rs:3219-3224 | only digits that fit into 32 bits are read as a number, perhaps behind a plus |
| Paginators.TwilioPaginator.constructor | src/common.rs:1682-1699 | a new paginator has fetched nothing |
| Paginators.ChainGoesOn | src/common.rs:1701-1732 | a further page is fetched exactly behind one that hands on a cursor |
| Paginators.TwilioPaginator.NextPage | src/common.rs:1701-1732 | one call fetches exactly the next cursor of the chain, or nothing behind its end or a dropped call |
| Paginators.TwilioPaginator.CollectAll | src/common.rs:1734-1746 | all items of the remaining pages in order, or the first error, and nothing after a dropped call |
| Paginators.TwilioPaginator.Stream | src/common.rs:1748-1769 | the items of the remaining pages one by one, then at most one error |
| Paginators.TwilioPaginator.Drive | src/common.rs:1701-1732 | over any calls, dropped or not, call i delivers page i of the chain, and no page is fetched twice |
| Paginators.NothingFollowsTheEnd | src/common.rs:1701-1732 | after a dropped call, an error or the last page no call finds anything |
| Paginators.StreamAgrees | src/common.rs:1739-1769 | the stream yields the items of all pages up to the first that fails and then its error; collecting returns these items, or the error alone |
| Paginators.GatheredAt | src/common.rs:1734-1769 | conservation: the items of each page stand whole and in order behind those of the pages before |
| Paginators.ErrorIsOfPage | src/common.rs:1734-1746 | an error that collecting returns is that of the last page of the chain |
| Paginators.GoodPagesAreCollected | src/common.rs:1734-1746 | if no page fails, collecting does not |
| Paginators.BoundIsFree | src/common.rs:1739-1769 | what is collected and streamed does not depend on the bound by which the chain has ended |
| PageRuns.NextUrlWasValidated | src/messages.rs:1263-1317 | the URL fetched next is the one validated on the page before, against the URL of that page |
| PageRuns.ReadPageExactly | src/messages.rs:1294-1317 | a page is accepted, as it is, exactly when it is the last or points to a page of the resource that continues the current URL |
| PageRuns.GoodPagesAreDelivered | src/messages.rs:1229-1347 | on every run such a page is delivered with all its items, and the next fetch happens exactly if it names one, at its URL; anything else ends the run with an error |
| PageRuns.LaterUrlContinues | src/messages.rs:1326-1347 | on every run each fetched URL continues each one before it |
| PageRuns.FetchedPagesAreOfResource | src/messages.rs:1263-1292 | each later URL is a page of the resource at the configured origin |
| PageRuns.FirstUrlIsPage | src/messages.rs:1229-1247 | the first URL passes the same checks, exactly when the path keeps the account as it is, and has the page size of the request, as a valid one |
| PageRuns.FirstUrlShowsRequest | src/messages.rs:585-611 | the first URL has each field of the request under its own key and nothing else |
| PageRuns.ListingStarts | src/messages.rs:1326-1347 | a listing starts unless the page size is out of range, and asks for 50 if the request names none |
| PageRuns.MessagesRunIsSafe | src/messages.rs:1326-1347 | on every run over an account's messages all URLs have the path, the filters and the page size of the first |
| Retries.RawDelayIs | src/common.rs:896-904 | the delay is the smaller of the cap and base times 2^n, both saturations invisible |
| Retries.BackoffGrows | src/common.rs:896-904 | it never shrinks and never exceeds the cap |
| Retries.JitterOnlyShortens | src/common.rs:899-903 | jitter never increases it |
| Retries.JitterIs | src/common.rs:896-904 | without jitter the sleep is the backoff, with it that fraction rounded down |
| Retries.SendRawOnce | src/client.rs:689-786 | one attempt leaves one event with its number, a response exactly if a status came back that is refused or whose body could be read; the caller gets the status then, and a transport error else |
| Retries.GoesOnExactly | src/common.rs:110-120 | an attempt is followed by another exactly within the budget, if no status came back, an accepted body could not be read, or the status is 408, 425, 429 or 5xx |
| Retries.GuardsInTurn | src/client.rs:472-509 | the guards are asked in turn and the first that fails gives the error |
| Retries.AttemptLoop | src/client.rs:507-549 | the loop stops at the first attempt that is not followed by another, with its outcome, count, events and sleeps |
| Retries.SendRawSpec | src/client.rs:465-550 | nothing is sent when a guard fails, else at most budget plus one attempts, and one if the method is not safe (safe methods: section 9.2.1 of RFC 9110); every retry event shows the sleep and the error of its attempt |
| Retries.LastAttemptIs | src/common.rs:110-120 | that attempt succeeds, is not retryable or uses up the budget, and all before it failed retryably |
| Retries.ReportsAllExactly | src/blocking_client.rs:532-571 | every run reports the number of its attempts exactly when the budget is below the largest 32-bit number |
| Retries.TotalSleepIsBounded | src/blocking_client.rs:552-563 | all sleeps of a run together are at most budget times cap |
| Retries.SendWithResponse | src/client.rs:950-1013 | the result is that of the first step that fails, the request, a guard, the last attempt or the decoding, or the status; the log of every run is one failure, or attempts and retries in turn closed by one event that tells this result |
| ErrorBodies.ReadLimitedResponseBody | src/common.rs:2084-2109 | the result depends on the content of the stream alone, not on its chunks |
| ErrorBodies.ReadLimitedReaderBody | src/common.rs:2112-2139 | the same result as of a function of the bytes read before the end |
| ErrorBodies.ReadApiErrorResponse | src/client.rs:591-647 | error codes are those of the text of the whole body, or none if it is longer than the bound or breaks off; the length is that of the text |
| ErrorBodies.CuttingDoesNotMatter | src/common.rs:2084-2139 | if no read is empty both readers agree on the same content, however it is cut |
| ErrorBodies.ReadLimitedIs | src/common.rs:2084-2139 | what is read is the whole body, or its first 2049 bytes, and breaking off is an error only up to 2048 |
| ErrorBodies.SafeBulkErrorContext | src/common.rs:1977-2039 | accepts exactly the short paths whose maximal runs of letters and digits are numbers or known names |
| ErrorBodies.IndexedPathIsSafe | src/common.rs:1977-2039 | a known name with any number in brackets is accepted |
| Waits.Wait | src/bulk_messaging.rs:2142-2161 | a failed poll and a terminal status are returned as they are, timeout comes only at or after the deadline, each sleep is an interval or what is left of the time, and the polls are bounded |
| Waits.PollsAreBounded | src/bulk_messaging.rs:2490-2508 | at most one poll more than intervals fit into the timeout, rounded up |
| Waits.TerminalExactly | src/bulk_messaging.rs:1670-1674 | which statuses end an operation of either kind |
| Uniqueness.SetSizeTells | src/bulk_messaging_v1.rs:893-905 | a set is as large as its list exactly when nothing repeats |
| Uniqueness.SenderMembersExactly | src/bulk_messaging_v1.rs:880-905 | accepted are exactly 1 to 1000 distinct valid sender IDs |
| Uniqueness.ControlsExactly | src/bulk_messaging_v1.rs:468-477 | accepted are exactly lists without a repeated channel, so at most five entries each |
| Uniqueness.ValidateInline | src/bulk_messaging.rs:1170-1190 | the loop accepts exactly 1 to 4 valid modules of distinct kinds, and else reports the first that repeats a kind or is not valid |
| Uniqueness.AtMostTwoModules | src/bulk_messaging.rs:1170-1190 | so at most two modules |

## Left out

- Retries.DelayFor: jitter is a fraction k/1000000 cut off to whole nanoseconds, because floating point rounding and the random generator are not modelled.
- Retries.SendRawSpec: one method stands for the async and the blocking client, whose loops are the same but for waiting; a call to the network is a given sequence of outcomes.
- Waits.Wait: the clock is the time the polls and sleeps take; adding the timeout to it does not overflow. One method stands for both clients and both kinds of operation.
- Paginators.TwilioPaginator.CollectAll: asks for a chain of cursors that ends, unless a call was dropped, because the original does not return on an endless one; `NextPage` and `Drive` do not ask for it. The same for `Stream`.
- Paginators.TwilioPaginator.NextPage: stands for the blocking paginator too, which is the case that no call is dropped.
- PageUrls.PageUrlFromBase: how the URL library percent-encodes a segment is a parameter, and so is what a reference that is not rooted joins to; query pairs are given decoded. Tabs and line ends in a segment, which the library drops, are not modelled.
- PageRuns.MessagesRunIsSafe: only the listing of messages is tied to its first URL; the general run lemmas hold for every resource in the table.
- PageRuns.QueryOf: the pairs a request appends to its URL are a value, not an update in place.
- ErrorBodies.ApiErrorFromText: decoding JSON and turning bytes into UTF-8 text are parameters; the capturing path of the sensitive diagnostics reads the whole body and is not modelled.
- HTTP, TLS and real clocks, JSON, dates and base64.
- Texts of error messages, debug output, builders and field-by-field copies.
- Validators of single fields that test a range or emptiness.
- The callbacks of the sensitive diagnostics, the environment and the example servers.
