/** Lazy paginators: one fetch per call, driven by the cursor each page hands on. */
module Paginators {
  import opened Errors

  /**
   * The server as the paginator sees it: what the `k`-th fetch returns for a
   * cursor, and how a page splits into its items and the cursor of the next one.
   */
  datatype Feed<!C, !P, !T> = Feed(fetch: (nat, Option<C>) -> Result<P>, split: P -> (seq<T>, Option<C>))

  // ---- the chain of cursors -----------------------------------------------------

  /** The cursor a page hands on, if there is a page and it hands one on. */
  function NextCursor<C, P, T>(feed: Feed<C, P, T>, page: Result<P>): Option<C> {
    if page.Ok? then feed.split(page.value).1 else None
  }

  /** The cursor of the `k`-th fetch, if the chain is that long; the first fetch has no cursor. */
  function CursorAt<C, P, T>(feed: Feed<C, P, T>, k: nat): Option<Option<C>> {
    if k == 0 then Some(None) else
    var before := CursorAt(feed, k - 1);
    if before.None? then None else
    var next := NextCursor(feed, feed.fetch(k - 1, before.value));
    if next.None? then None else Some(next)
  }

  function PageAt<C, P, T>(feed: Feed<C, P, T>, k: nat): Result<P>
    requires CursorAt(feed, k).Some?
  {
    feed.fetch(k, CursorAt(feed, k).value)
  }

  lemma {:induction false} ChainHasNoGaps<C, P, T>(feed: Feed<C, P, T>, i: nat, j: nat)
    requires i <= j && CursorAt(feed, j).Some?
    ensures CursorAt(feed, i).Some?
    decreases j - i
  {
    if i < j {
      ChainHasNoGaps(feed, i, j - 1);
    }
  }

  lemma ChainEndsLater<C, P, T>(feed: Feed<C, P, T>, k: nat, n: nat)
    requires CursorAt(feed, k).Some? && CursorAt(feed, n).None?
    ensures k < n
  {
    hide CursorAt;
    if n <= k {
      ChainHasNoGaps(feed, n, k);
    }
  }

  /** Every fetch but the first goes to the cursor that the page before handed on. */
  lemma CursorComesFromPage<C, P, T>(feed: Feed<C, P, T>, k: nat)
    requires CursorAt(feed, k + 1).Some?
    ensures CursorAt(feed, k).Some? && PageAt(feed, k).Ok?
    ensures CursorAt(feed, k + 1).value == feed.split(PageAt(feed, k).value).1
  {
  }

  /** The chain goes on exactly behind a page that hands on a cursor. */
  lemma ChainGoesOn<C, P, T>(feed: Feed<C, P, T>, k: nat)
    ensures CursorAt(feed, 0) == Some(None)
    ensures CursorAt(feed, k + 1).Some? <==>
      CursorAt(feed, k).Some? && PageAt(feed, k).Ok? && feed.split(PageAt(feed, k).value).1.Some?
  {
  }

  // ---- one call ------------------------------------------------------------------

  datatype Outcome<+T> = End | Items(items: seq<T>) | Failed(error: Error) | Cancelled

  /** What the caller gets for a page. */
  function Delivered<C, P, T>(feed: Feed<C, P, T>, page: Result<P>): Outcome<T> {
    if page.Ok? then Items(feed.split(page.value).0) else Failed(page.error)
  }

  class TwilioPaginator<C, P, T> {
    const feed: Feed<C, P, T>
    var nextCursor: Option<C>
    var first: bool
    var done: bool
    // What the server has seen: the cursors of all fetches so far.
    var fetched: seq<Option<C>>
    // Whether a call was dropped while its fetch was under way.
    ghost var lost: bool

    constructor (feed: Feed<C, P, T>)
      ensures Valid() && this.feed == feed && first && fetched == [] && !lost
    {
      this.feed := feed;
      nextCursor, first, done, fetched, lost := None, true, false, [], false;
    }

    ghost predicate Valid()
      reads this
    {
      var n := |fetched|;
      && (forall k | 0 <= k < n :: CursorAt(feed, k) == Some(fetched[k]))
      && (first ==> n == 0 && nextCursor.None? && !done && !lost)
      && (!first && !lost && !done ==> nextCursor.Some? && CursorAt(feed, n) == Some(nextCursor))
      && (!lost && done ==> CursorAt(feed, n) == None)
      && (lost ==> nextCursor.None? && !first)
    }

    /**
     * The next page. The caller may drop the call while the page is fetched,
     * after the cursor was taken and before the next one is stored.
     */
    method NextPage(cancelled: bool) returns (r: Outcome<T>)
      requires Valid()
      modifies this
      ensures Valid() && !first
      // behind the chain or a dropped call there is nothing to fetch
      ensures old(lost) || CursorAt(feed, |old(fetched)|).None? ==>
        r == End && fetched == old(fetched) && lost == old(lost)
      // else exactly the next cursor of the chain is fetched
      ensures !old(lost) && CursorAt(feed, |old(fetched)|).Some? ==>
        && fetched == old(fetched) + [CursorAt(feed, |old(fetched)|).value]
        && lost == cancelled
        && r == if cancelled then Cancelled else Delivered(feed, PageAt(feed, |old(fetched)|))
      // without a dropped call the branch for a missing cursor is never taken
      ensures !old(lost) && !old(first) && !old(done) ==> old(nextCursor).Some?
    {
      if done {
        return End;
      }
      var wasFirst := first;
      var cursor;
      if wasFirst {
        first := false;
        cursor := None;
      } else {
        cursor := nextCursor;
        nextCursor := None;
      }
      if !wasFirst && cursor.None? {
        done := true;
        return End;
      }
      ghost var k := |fetched|;
      assert CursorAt(feed, k) == Some(cursor);
      var page := feed.fetch(|fetched|, cursor);
      fetched := fetched + [cursor];
      if cancelled {
        lost := true;
        return Cancelled;
      }
      match page {
        case Ok(value) =>
          var (items, next) := feed.split(value);
          nextCursor := next;
          if nextCursor.None? {
            done := true;
          }
          r := Items(items);
        case Err(error) =>
          done := true;
          r := Failed(error);
      }
    }

    /**
     * The items of all remaining pages in order, or the first error; nothing after a dropped
     * call. It returns when the chain ends, which is before fetch `n`.
     */
    method CollectAll(ghost n: nat) returns (r: Result<seq<T>>)
      requires Valid() && (lost || CursorAt(feed, n).None?)
      modifies this
      ensures r == if old(lost) then Ok([]) else Collected(feed, |old(fetched)|, n)
      ensures Valid() && lost == old(lost)
      ensures if lost then fetched == old(fetched) else CursorAt(feed, |fetched|).None?
    {
      hide CursorAt;
      var out: seq<T> := [];
      ghost var from := |fetched|;
      PrependNothing(Collected(feed, from, n));
      while true
        invariant Valid() && lost == old(lost)
        invariant lost ==> out == [] && fetched == old(fetched)
        invariant !lost ==> Collected(feed, from, n) == Prepend(out, Collected(feed, |fetched|, n))
        decreases n - |fetched|
      {
        ghost var k := |fetched|;
        if !lost && CursorAt(feed, k).Some? {
          ChainEndsLater(feed, k, n);
        }
        var page := NextPage(false);
        match page {
          case Items(items) =>
            PrependTwice(out, items, Collected(feed, k + 1, n));
            out := out + items;
          case Failed(error) =>
            ChainStops(feed, k);
            return Err(error);
          case _ =>
            NothingLeft(out);
            return Ok(out);
        }
      }
    }

    /** The items of all remaining pages one by one, then at most one error; nothing after a dropped call. */
    method Stream(ghost n: nat) returns (out: seq<Result<T>>)
      requires Valid() && (lost || CursorAt(feed, n).None?)
      modifies this
      ensures out == if old(lost) then [] else Streamed(feed, |old(fetched)|, n)
      ensures Valid() && lost == old(lost)
      ensures if lost then fetched == old(fetched) else CursorAt(feed, |fetched|).None?
    {
      hide CursorAt, Streamed, Oks;
      out := [];
      ghost var from := |fetched|;
      while true
        invariant Valid() && lost == old(lost)
        invariant lost ==> out == [] && fetched == old(fetched)
        invariant !lost ==> Streamed(feed, from, n) == out + Streamed(feed, |fetched|, n)
        decreases n - |fetched|
      {
        ghost var k := |fetched|;
        if !lost && CursorAt(feed, k).Some? {
          ChainEndsLater(feed, k, n);
        }
        StreamStep(feed, k, n);
        var page := NextPage(false);
        match page {
          case Items(items) =>
            Grouped(out, Oks(items), Streamed(feed, k + 1, n));
            out := YieldItems(out, items);
          case Failed(error) =>
            ChainStops(feed, k);
            out := out + [Err(error)];
            return;
          case _ =>
            NothingMore(out);
            return;
        }
      }
    }

    static method YieldItems(before: seq<Result<T>>, items: seq<T>) returns (out: seq<Result<T>>)
      ensures out == before + Oks(items)
    {
      out := before;
      for i := 0 to |items|
        invariant out == before + Oks(items[..i])
      {
        OksOfOneMore(items, i);
        out := out + [Ok(items[i])];
      }
      assert items[..|items|] == items;
    }

    /** Any number of calls, any of them dropped: one outcome per call. */
    method Drive(drops: seq<bool>) returns (outcomes: seq<Outcome<T>>)
      requires Valid() && first
      modifies this
      ensures Valid() && |outcomes| == |drops|
      ensures forall i | 0 <= i < |drops| :: outcomes[i] == OutcomeAt(feed, drops, i)
      ensures |fetched| == FetchCount(feed, drops, |drops|)
    {
      hide CursorAt;
      outcomes := [];
      for i := 0 to |drops|
        invariant Valid() && |outcomes| == i && (i == 0 ==> first)
        invariant forall j | 0 <= j < i :: outcomes[j] == OutcomeAt(feed, drops, j)
        invariant lost <==> DroppedBefore(feed, drops, i)
        invariant !lost && CursorAt(feed, |fetched|).Some? ==> |fetched| == i
        invariant |fetched| <= i && |fetched| == FetchCount(feed, drops, i)
        invariant !lost && CursorAt(feed, |fetched|).None? ==> CursorAt(feed, i).None?
      {
        ghost var m := |fetched|;
        if CursorAt(feed, i).Some? {
          ChainHasNoGaps(feed, m, i);
        }
        DroppedStep(feed, drops, i);
        var outcome := NextPage(drops[i]);
        if CursorAt(feed, i + 1).Some? {
          ChainHasNoGaps(feed, i, i + 1);
        }
        outcomes := outcomes + [outcome];
      }
    }
  }

  // ---- whole runs -----------------------------------------------------------------

  /** Whether a call before the `i`-th was dropped while it fetched a page. */
  ghost predicate DroppedBefore<C, P, T>(feed: Feed<C, P, T>, drops: seq<bool>, i: nat)
    requires i <= |drops|
  {
    exists j | 0 <= j < i :: drops[j] && CursorAt(feed, j).Some?
  }

  /** The outcome of the `i`-th call: page `i` of the chain, unless an earlier call was dropped. */
  ghost function OutcomeAt<C, P, T>(feed: Feed<C, P, T>, drops: seq<bool>, i: nat): Outcome<T>
    requires i < |drops|
  {
    if DroppedBefore(feed, drops, i) || CursorAt(feed, i).None? then End
    else if drops[i] then Cancelled
    else Delivered(feed, PageAt(feed, i))
  }

  /** How many of the first `i` calls fetch a page. */
  ghost function FetchCount<C, P, T>(feed: Feed<C, P, T>, drops: seq<bool>, i: nat): nat
    requires i <= |drops|
  {
    if i == 0 then 0
    else FetchCount(feed, drops, i - 1) + (if OutcomeAt(feed, drops, i - 1) == End then 0 else 1)
  }

  lemma DroppedStep<C, P, T>(feed: Feed<C, P, T>, drops: seq<bool>, i: nat)
    requires i < |drops|
    ensures DroppedBefore(feed, drops, i + 1)
      <==> DroppedBefore(feed, drops, i) || (drops[i] && CursorAt(feed, i).Some?)
  {
    hide CursorAt;
  }

  /** After a dropped call, after an error and after the last page every further call finds nothing. */
  lemma NothingFollowsTheEnd<C, P, T>(feed: Feed<C, P, T>, drops: seq<bool>, i: nat, j: nat)
    requires i < j < |drops|
    requires OutcomeAt(feed, drops, i).End? || OutcomeAt(feed, drops, i).Cancelled? || OutcomeAt(feed, drops, i).Failed?
    ensures OutcomeAt(feed, drops, j) == End
  {
    hide CursorAt;
    if CursorAt(feed, j).Some? {
      ChainHasNoGaps(feed, i, j);
      ChainHasNoGaps(feed, i + 1, j);
      CursorComesFromPage(feed, i);
    }
  }

  // ---- draining --------------------------------------------------------------------

  /** Pages `k` and on drained into one sequence, or the first error; the chain ends before `n`. */
  ghost function Collected<C, P, T>(feed: Feed<C, P, T>, k: nat, n: nat): Result<seq<T>>
    decreases n - k
  {
    if n <= k || CursorAt(feed, k).None? then Ok([])
    else
      var page := PageAt(feed, k);
      if page.Err? then Err(page.error)
      else Prepend(feed.split(page.value).0, Collected(feed, k + 1, n))
  }

  function Prepend<T>(items: seq<T>, rest: Result<seq<T>>): Result<seq<T>> {
    if rest.Ok? then Ok(items + rest.value) else rest
  }

  ghost function Streamed<C, P, T>(feed: Feed<C, P, T>, k: nat, n: nat): seq<Result<T>>
    decreases n - k
  {
    if n <= k || CursorAt(feed, k).None? then []
    else
      var page := PageAt(feed, k);
      if page.Err? then [Err(page.error)]
      else Oks(feed.split(page.value).0) + Streamed(feed, k + 1, n)
  }

  lemma StreamStep<C, P, T>(feed: Feed<C, P, T>, k: nat, n: nat)
    ensures CursorAt(feed, k).None? ==> Streamed(feed, k, n) == []
    ensures k < n && CursorAt(feed, k).Some? && PageAt(feed, k).Ok? ==>
      Streamed(feed, k, n) == Oks(feed.split(PageAt(feed, k).value).0) + Streamed(feed, k + 1, n)
    ensures k < n && CursorAt(feed, k).Some? && PageAt(feed, k).Err? ==>
      Streamed(feed, k, n) == [Err(PageAt(feed, k).error)]
  {
    hide CursorAt;
  }

  lemma NothingMore<T>(out: seq<T>)
    ensures out + [] == out
  {
  }

  lemma Grouped<T>(a: seq<T>, b: seq<T>, c: seq<T>)
    ensures a + (b + c) == a + b + c
  {
  }

  function Oks<T>(items: seq<T>): (r: seq<Result<T>>)
    ensures |r| == |items| && forall i | 0 <= i < |items| :: r[i] == Ok(items[i])
  {
    seq(|items|, i requires 0 <= i < |items| => Ok(items[i]))
  }

  lemma OksOfOneMore<T>(items: seq<T>, i: nat)
    requires i < |items|
    ensures Oks(items[..i + 1]) == Oks(items[..i]) + [Ok(items[i])]
  {
  }

  lemma PrependNothing<T>(r: Result<seq<T>>)
    ensures Prepend([], r) == r
  {
    assert r.Ok? ==> [] + r.value == r.value;
  }

  lemma NothingLeft<T>(out: seq<T>)
    ensures Prepend(out, Ok([])) == Ok(out)
  {
    assert out + [] == out;
  }

  lemma PrependTwice<T>(a: seq<T>, b: seq<T>, rest: Result<seq<T>>)
    ensures Prepend(a, Prepend(b, rest)) == Prepend(a + b, rest)
  {
    if rest.Ok? {
      assert a + (b + rest.value) == a + b + rest.value;
    }
  }

  lemma ChainStops<C, P, T>(feed: Feed<C, P, T>, k: nat)
    requires CursorAt(feed, k).Some? && PageAt(feed, k).Err?
    ensures CursorAt(feed, k + 1).None?
  {
  }

  /** The items of the pages from `k` on, up to the first page that fails. */
  ghost function Gathered<C, P, T>(feed: Feed<C, P, T>, k: nat, n: nat): seq<T>
    decreases n - k
  {
    if n <= k || CursorAt(feed, k).None? || PageAt(feed, k).Err? then []
    else feed.split(PageAt(feed, k).value).0 + Gathered(feed, k + 1, n)
  }

  /** The stream yields these items and then at most one error; collecting returns them, or that error alone. */
  lemma {:induction false} StreamAgrees<C, P, T>(feed: Feed<C, P, T>, k: nat, n: nat)
    ensures match Collected(feed, k, n)
      case Ok(all) => all == Gathered(feed, k, n) && Streamed(feed, k, n) == Oks(all)
      case Err(error) => Streamed(feed, k, n) == Oks(Gathered(feed, k, n)) + [Err(error)]
    decreases n - k
  {
    hide CursorAt;
    if k < n && CursorAt(feed, k).Some? && PageAt(feed, k).Ok? {
      StreamAgrees(feed, k + 1, n);
      var now, more := feed.split(PageAt(feed, k).value).0, Gathered(feed, k + 1, n);
      assert Oks(now + more) == Oks(now) + Oks(more);
    }
  }

  /** How many items the pages from `k` up to page `i` have. */
  ghost function Offset<C, P, T>(feed: Feed<C, P, T>, k: nat, i: nat): nat
    decreases i - k
  {
    if i <= k || CursorAt(feed, k).None? || PageAt(feed, k).Err? then 0
    else |feed.split(PageAt(feed, k).value).0| + Offset(feed, k + 1, i)
  }

  /** No item is lost, repeated or moved: those of page `i` stand behind those of the pages before it. */
  lemma {:induction false} GatheredAt<C, P, T>(feed: Feed<C, P, T>, k: nat, n: nat, i: nat)
    requires k <= i < n && CursorAt(feed, i).Some? && PageAt(feed, i).Ok?
    ensures var items, o := feed.split(PageAt(feed, i).value).0, Offset(feed, k, i);
      && o + |items| <= |Gathered(feed, k, n)| && Gathered(feed, k, n)[o..o + |items|] == items
      && (i + 1 == n || CursorAt(feed, i + 1).None? ==> o + |items| == |Gathered(feed, k, n)|)
    decreases i - k
  {
    hide CursorAt;
    ChainHasNoGaps(feed, k, i);
    var items := feed.split(PageAt(feed, i).value).0;
    if i == k {
      assert Gathered(feed, k, n) == items + Gathered(feed, k + 1, n);
    } else {
      ChainHasNoGaps(feed, k + 1, i);
      CursorComesFromPage(feed, k);
      GatheredAt(feed, k + 1, n, i);
      var now, more, o := feed.split(PageAt(feed, k).value).0, Gathered(feed, k + 1, n), Offset(feed, k + 1, i);
      assert (now + more)[|now| + o..|now| + o + |items|] == more[o..o + |items|];
    }
  }

  /** An error that collecting returns is that of a page of the chain, and there is one only at the end. */
  lemma {:induction false} ErrorIsOfPage<C, P, T>(feed: Feed<C, P, T>, k: nat, n: nat) returns (i: nat)
    requires Collected(feed, k, n).Err?
    ensures k <= i < n && CursorAt(feed, i).Some? && PageAt(feed, i) == Err(Collected(feed, k, n).error)
    ensures CursorAt(feed, i + 1).None?
    decreases n - k
  {
    hide CursorAt;
    i := k;
    if PageAt(feed, k).Ok? {
      i := ErrorIsOfPage(feed, k + 1, n);
    } else {
      ChainStops(feed, k);
    }
  }

  /** And if no page fails, collecting does not. */
  lemma {:induction false} GoodPagesAreCollected<C, P, T>(feed: Feed<C, P, T>, k: nat, n: nat)
    requires forall i | k <= i < n && CursorAt(feed, i).Some? :: PageAt(feed, i).Ok?
    ensures Collected(feed, k, n).Ok?
    decreases n - k
  {
    hide CursorAt;
    if k < n && CursorAt(feed, k).Some? {
      GoodPagesAreCollected(feed, k + 1, n);
    }
  }

  /** Where exactly the chain ends before the bound does not matter. */
  lemma {:induction false} BoundIsFree<C, P, T>(feed: Feed<C, P, T>, k: nat, m: nat, n: nat)
    requires CursorAt(feed, m).None? && CursorAt(feed, n).None?
    ensures Collected(feed, k, m) == Collected(feed, k, n)
    ensures Streamed(feed, k, m) == Streamed(feed, k, n)
    decreases m + n - k
  {
    hide CursorAt;
    if CursorAt(feed, k).Some? {
      if m <= k {
        ChainHasNoGaps(feed, m, k);
      }
      if n <= k {
        ChainHasNoGaps(feed, n, k);
      }
      BoundIsFree(feed, k + 1, m, n);
    }
  }
}
