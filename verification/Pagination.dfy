/**
 * Listing namespaces page by page, against an arbitrary server.
 *
 * A server is the reply it would give to each request, counted from zero; it may ignore the offset
 * it was sent.
 */
module Pagination {
  import opened Wrappers
  import opened FirstSeen
  import opened MachineIntegers

  const LIST_PAGE_LIMIT := 1000
  const MAX_PAGINATED_ROWS := 100_000

  datatype ListError = RequestFailed | RowCountOverflow | LimitReached | OffsetOverflow

  /** Is the listing complete after a page of `received` rows, `accumulated` rows in all? */
  predicate Complete(received: nat, limit: int, total: Option<int>, accumulated: nat) {
    received > 0 ==>
      match total
      case Some(t) => accumulated >= if t < 0 then 0 else t
      case None => limit <= 0 || received < limit
  }

  function NextPageOffset(requestedOffset: int, received: nat, limit: int, total: Option<int>,
                          accumulated: nat): Result<Option<int>, ListError>
  {
    if accumulated > MAX_PAGINATED_ROWS then Err(LimitReached)
    else if Complete(received, limit, total, accumulated) then Ok(None)
    else if accumulated == MAX_PAGINATED_ROWS then Err(LimitReached)
    else if received <= I64_MAX && requestedOffset + received <= I64_MAX && received > 0
    then Ok(Some(requestedOffset + received))
    else Err(OffsetOverflow)
  }

  datatype Reply<T> = Failed | Page(rows: seq<T>, total: Option<int>)

  type Server<!T> = nat -> Reply<T>

  function PageRows<T>(reply: Reply<T>): seq<T> {
    if reply.Page? then reply.rows else []
  }

  /** How many rows the first `n` replies carried. */
  function Count<T>(server: Server<T>, n: nat): nat {
    if n == 0 then 0 else Count(server, n - 1) + |PageRows(server(n - 1))|
  }

  /** Every row received in the first `n` replies. */
  function Rows<T>(server: Server<T>, n: nat): seq<T> {
    if n == 0 then [] else Rows(server, n - 1) + PageRows(server(n - 1))
  }

  /** The `k`-th reply leaves the listing unfinished: rows came, within bounds, and there are or may be more. */
  ghost predicate Unfinished<T>(server: Server<T>, k: nat) {
    && server(k).Page? && server(k).rows != []
    && var accumulated := Count(server, k) + |server(k).rows|;
       && accumulated < 100_000
       && match server(k).total
          case Some(total) => accumulated < total
          case None => |server(k).rows| >= 1000
  }

  /** The reply proves that nothing is left: it is empty, covers a total, or is short without one. */
  ghost predicate Finished<T>(server: Server<T>, k: nat) {
    && server(k).Page?
    && var accumulated := Count(server, k) + |server(k).rows|;
       && accumulated <= 100_000
       && (server(k).rows != [] ==>
             match server(k).total
             case Some(total) => accumulated >= total
             case None => |server(k).rows| < 1000)
  }

  /** How the listing ends after the `last` reply. */
  ghost predicate EndsWith<T>(server: Server<T>, last: nat, stop: Option<ListError>) {
    && !Unfinished(server, last)
    && match stop
       case None => Finished(server, last)
       case Some(RequestFailed) => server(last).Failed?
       case Some(LimitReached) =>
         && server(last).Page? && !Finished(server, last)
         && Count(server, last) + |server(last).rows| >= 100_000
       case Some(RowCountOverflow) => |PageRows(server(last))| > USIZE_MAX - 100_000
       case Some(OffsetOverflow) => false
  }

  /** Each offset asked for is the number of rows received so far. */
  ghost predicate AskedInOrder<T>(server: Server<T>, offsets: seq<int>) {
    forall k {:trigger offsets[k]} :: 0 <= k < |offsets| ==> offsets[k] == Count(server, k)
  }

  /** The first `n` replies left the listing unfinished. */
  ghost predicate UnfinishedUpTo<T>(server: Server<T>, n: nat) {
    forall k :: 0 <= k < n ==> Unfinished(server, k)
  }

  /** A run of the loop: the offsets it asked for, and why it stopped. */
  ghost predicate IsRun<T>(server: Server<T>, offsets: seq<int>, stop: Option<ListError>) {
    && |offsets| >= 1
    && AskedInOrder(server, offsets)
    && UnfinishedUpTo(server, |offsets| - 1)
    && EndsWith(server, |offsets| - 1, stop)
  }

  /** What the whole listing did: a run, and every row it received without repeats. */
  ghost predicate IsListing<T>(server: Server<T>, offsets: seq<int>,
                                     result: Result<seq<T>, ListError>)
  {
    match result
    case Err(error) => IsRun(server, offsets, Some(error))
    case Ok(names) =>
      && IsRun(server, offsets, None)
      && var rows := Rows(server, |offsets|);
         names == Distinct(rows, |rows|)
  }

  /** The rows of the first `upto` pages, in order. */
  function Flatten<T>(pages: seq<Reply<T>>, upto: nat): seq<T>
    requires upto <= |pages|
  {
    if upto == 0 then [] else Flatten(pages, upto - 1) + PageRows(pages[upto - 1])
  }

  /** Merging drops repeats across page boundaries as well as within a page. */
  method MergePages<T(==, !new)>(pages: seq<Reply<T>>) returns (merged: seq<T>)
    ensures var rows := Flatten(pages, |pages|);
            merged == Distinct(rows, |rows|) && IsDistinct(rows, |rows|, merged)
  {
    var rows: seq<T> := [];
    for i := 0 to |pages|
      invariant rows == Flatten(pages, i)
    {
      rows := rows + PageRows(pages[i]);
    }
    merged := DropRepeats(rows);
  }

  ghost predicate ArePagesOf<T>(pages: seq<Reply<T>>, server: Server<T>) {
    forall k {:trigger pages[k]} :: 0 <= k < |pages| ==> pages[k] == server(k)
  }

  lemma {:induction false} FlattenIsRows<T>(pages: seq<Reply<T>>, server: Server<T>, upto: nat)
    requires upto <= |pages| && ArePagesOf(pages, server)
    ensures Flatten(pages, upto) == Rows(server, upto)
  {
    if upto > 0 { FlattenIsRows(pages, server, upto - 1); }
  }

  /** One turn of the loop: ask, check the row count, decide. The next offset never overflows. */
  method FetchPage<T>(server: Server<T>, k: nat, offset: int, accumulated: nat)
    returns (reply: Reply<T>, next: Result<Option<int>, ListError>)
    requires accumulated == offset == Count(server, k) < MAX_PAGINATED_ROWS
    ensures reply == server(k)
    ensures match next
            case Err(error) => EndsWith(server, k, Some(error))
            case Ok(None) => EndsWith(server, k, None)
            case Ok(Some(following)) =>
              && Unfinished(server, k)
              && following == accumulated + |PageRows(reply)| == Count(server, k + 1)
              && accumulated < following < MAX_PAGINATED_ROWS
  {
    reply := server(k);
    if reply.Failed? {
      return reply, Err(RequestFailed);
    }
    var received := |reply.rows|;
    if accumulated + received > USIZE_MAX {
      return reply, Err(RowCountOverflow);
    }
    next := NextPageOffset(offset, received, LIST_PAGE_LIMIT, reply.total, accumulated + received);
  }

  /** The loop as written. It ends against every server. */
  method FetchPages<T>(server: Server<T>)
    returns (stop: Option<ListError>, pages: seq<Reply<T>>, offsets: seq<int>)
    ensures IsRun(server, offsets, stop)
    ensures |pages| == |offsets| && ArePagesOf(pages, server)
  {
    pages, offsets := [], [];
    var offset, accumulated := 0, 0;
    while true
      invariant |pages| == |offsets| && ArePagesOf(pages, server)
      invariant accumulated == offset == Count(server, |offsets|) < MAX_PAGINATED_ROWS
      invariant AskedInOrder(server, offsets)
      invariant UnfinishedUpTo(server, |offsets|)
      decreases MAX_PAGINATED_ROWS - accumulated
    {
      var reply, next := FetchPage(server, |pages|, offset, accumulated);
      offsets := offsets + [offset];
      pages := pages + [reply];
      match next {
        case Err(error) => return Some(error), pages, offsets;
        case Ok(None) => return None, pages, offsets;
        case Ok(Some(following)) =>
          offset := following;
          accumulated := accumulated + |PageRows(reply)|;
      }
    }
  }

  /** Fetching until the listing is complete, then merging. */
  method ListNamespaces<T(==, !new)>(server: Server<T>)
    returns (result: Result<seq<T>, ListError>, offsets: seq<int>)
    ensures IsListing(server, offsets, result)
    ensures result.Ok? ==>
              var rows := Rows(server, |offsets|);
              IsDistinct(rows, |rows|, result.value)
  {
    var stop, pages;
    stop, pages, offsets := FetchPages(server);
    if stop.Some? {
      return Err(stop.value), offsets;
    }
    FlattenIsRows(pages, server, |pages|);
    var names := MergePages(pages);
    return Ok(names), offsets;
  }

  // ---- Honest servers ----

  /** The `k`-th reply is the next stretch of `list`, and is not empty before its end. */
  ghost predicate ServesAt<T>(server: Server<T>, list: seq<T>, k: nat) {
    var start := Count(server, k);
    && server(k).Page?
    && start + |server(k).rows| <= |list|
    && server(k).rows == list[start..start + |server(k).rows|]
    && (start < |list| ==> server(k).rows != [])
  }

  ghost predicate Serves<T>(server: Server<T>, list: seq<T>) {
    forall k: nat :: ServesAt(server, list, k)
  }

  lemma {:induction false} ServedRowsArePrefix<T>(server: Server<T>, list: seq<T>, n: nat)
    requires Serves(server, list)
    ensures Count(server, n) <= |list| && Rows(server, n) == list[..Count(server, n)]
  {
    if n > 0 {
      ServedRowsArePrefix(server, list, n - 1);
      assert ServesAt(server, list, n - 1);
      var start := Count(server, n - 1);
      var end := Count(server, n);
      assert list[..end] == list[..start] + list[start..end];
    }
  }

  lemma ServedRowsAreWhole<T>(server: Server<T>, list: seq<T>, n: nat)
    requires Serves(server, list) && Count(server, n) == |list|
    ensures Rows(server, n) == list
  {
    ServedRowsArePrefix(server, list, n);
    assert list[..|list|] == list;
  }

  ghost predicate Totalled<T>(server: Server<T>, total: Option<int>) {
    forall k: nat :: server(k).Page? && server(k).total == total
  }

  /** An honest counted server ends a listing that got this far, with everything received. */
  lemma CountedServerFinishes<T>(server: Server<T>, list: seq<T>, last: nat)
    requires ServesAt(server, list, last) && |list| <= 100_000
    requires server(last).total == Some(|list|) && !Unfinished(server, last)
    ensures Finished(server, last) && Count(server, last + 1) == |list|
  {}

  lemma CountedRunFinishes<T>(server: Server<T>, list: seq<T>, offsets: seq<int>,
                              stop: Option<ListError>)
    requires IsRun(server, offsets, stop)
    requires Serves(server, list) && |list| <= 100_000
    requires Totalled(server, Some(|list|))
    ensures stop.None? && Count(server, |offsets|) == |list|
  {
    var last := |offsets| - 1;
    assert server(last).Page? && server(last).total == Some(|list|);
    assert ServesAt(server, list, last);
    CountedServerFinishes(server, list, last);
  }

  /** A fixed list served with its total comes back whole, up to the row bound, whatever the page size. */
  lemma HonestListingIsWhole<T>(server: Server<T>, list: seq<T>, offsets: seq<int>,
                                result: Result<seq<T>, ListError>)
    requires IsListing(server, offsets, result)
    requires Serves(server, list) && |list| <= 100_000
    requires Totalled(server, Some(|list|))
    ensures result == Ok(Distinct(list, |list|))
  {
    CountedRunFinishes(server, list, offsets, if result.Ok? then None else Some(result.error));
    if result.Ok? { ServedRowsAreWhole(server, list, |offsets|); }
  }

  /** The page is as long as was asked for, or ends the list. */
  ghost predicate FullPage<T>(server: Server<T>, list: seq<T>, k: nat) {
    && server(k).Page?
    && |server(k).rows| <= 1000
    && (|server(k).rows| < 1000 ==> Count(server, k) + |server(k).rows| == |list|)
  }

  ghost predicate FullPages<T>(server: Server<T>, list: seq<T>) {
    forall k: nat :: FullPage(server, list, k)
  }

  lemma {:induction false} UnfinishedPagesAreFull<T>(server: Server<T>, list: seq<T>, n: nat)
    requires FullPages(server, list) && Totalled(server, None) && UnfinishedUpTo(server, n)
    ensures Count(server, n) == 1000 * n
  {
    if n > 0 {
      UnfinishedPagesAreFull(server, list, n - 1);
      assert Unfinished(server, n - 1) && FullPage(server, list, n - 1);
      assert server(n - 1).total.None?;
    }
  }

  /** An honest server that sends no total ends the listing exactly below the row bound. */
  lemma UncountedServerFinishes<T>(server: Server<T>, list: seq<T>, last: nat)
    requires ServesAt(server, list, last) && FullPage(server, list, last)
    requires server(last).total.None? && !Unfinished(server, last)
    requires Count(server, last) == 1000 * last
    requires last > 0 ==> Count(server, last) < 100_000
    ensures |list| < 100_000 <==> Finished(server, last)
    ensures Finished(server, last) ==> Count(server, last + 1) == |list|
  {}

  lemma UncountedEnd<T>(server: Server<T>, list: seq<T>, last: nat, stop: Option<ListError>)
    requires ServesAt(server, list, last) && FullPage(server, list, last)
    requires server(last).total.None? && EndsWith(server, last, stop)
    requires Count(server, last) == 1000 * last
    requires last > 0 ==> Count(server, last) < 100_000
    ensures stop == if |list| < 100_000 then None else Some(LimitReached)
    ensures stop.None? ==> Count(server, last + 1) == |list|
  {
    UncountedServerFinishes(server, list, last);
  }

  lemma UncountedPage<T>(server: Server<T>, list: seq<T>, k: nat)
    requires Serves(server, list) && Totalled(server, None) && FullPages(server, list)
    ensures ServesAt(server, list, k) && FullPage(server, list, k) && server(k).total.None?
  {
    assert server(k).Page? && server(k).total.None?;
  }

  lemma UncountedBefore<T>(server: Server<T>, list: seq<T>, last: nat)
    requires Totalled(server, None) && FullPages(server, list) && UnfinishedUpTo(server, last)
    ensures Count(server, last) == 1000 * last
    ensures last > 0 ==> Count(server, last) < 100_000
  {
    UnfinishedPagesAreFull(server, list, last);
    if last > 0 { assert Unfinished(server, last - 1); }
  }

  lemma UncountedRunFinishes<T>(server: Server<T>, list: seq<T>, last: nat, stop: Option<ListError>)
    requires UnfinishedUpTo(server, last) && EndsWith(server, last, stop)
    requires Serves(server, list) && Totalled(server, None) && FullPages(server, list)
    ensures stop == if |list| < 100_000 then None else Some(LimitReached)
    ensures stop.None? ==> Count(server, last + 1) == |list|
  {
    UncountedPage(server, list, last);
    UncountedBefore(server, list, last);
    UncountedEnd(server, list, last, stop);
  }

  /** Without a total, full pages come back whole exactly when the list stays below the row bound. */
  lemma UncountedListingIsWhole<T>(server: Server<T>, list: seq<T>, offsets: seq<int>,
                                   result: Result<seq<T>, ListError>)
    requires IsListing(server, offsets, result)
    requires Serves(server, list) && Totalled(server, None) && FullPages(server, list)
    ensures result == if |list| < 100_000 then Ok(Distinct(list, |list|)) else Err(LimitReached)
  {
    UncountedRunFinishes(server, list, |offsets| - 1, if result.Ok? then None else Some(result.error));
    if result.Ok? { ServedRowsAreWhole(server, list, |offsets|); }
  }

  // ---- A listing that the row bound refuses ----

  function Least(a: nat, b: nat): nat { if a < b then a else b }

  /** Serves `list` in pages of the length asked for, and never says how long it is. */
  function UncountedServer<T>(list: seq<T>): Server<T> {
    (k: nat) =>
      Page(list[Least(1000 * k, |list|)..Least(1000 * (k + 1), |list|)], None)
  }

  lemma UncountedServerPage<T>(list: seq<T>, k: nat)
    ensures var page := UncountedServer(list)(k);
            var from, to := Least(1000 * k, |list|), Least(1000 * (k + 1), |list|);
            page.Page? && page.total.None? && page.rows == list[from..to] && |page.rows| == to - from
  {}

  /** The `k`-th reply carries the rows between two totals. */
  ghost predicate Advances<T>(server: Server<T>, sent: nat -> nat, k: nat) {
    var next := k + 1;
    sent(next) == sent(k) + |PageRows(server(k))|
  }

  lemma {:induction false} CountIsSent<T>(server: Server<T>, sent: nat -> nat, k: nat)
    requires sent(0) == 0 && forall j: nat :: Advances(server, sent, j)
    ensures Count(server, k) == sent(k)
  {
    if k > 0 {
      CountIsSent(server, sent, k - 1);
      assert Advances(server, sent, k - 1);
    }
  }

  lemma UncountedServerCount<T>(list: seq<T>, k: nat)
    ensures Count(UncountedServer(list), k) == Least(1000 * k, |list|)
  {
    var sent := (k: nat) => Least(1000 * k, |list|);
    forall j: nat ensures Advances(UncountedServer(list), sent, j) { UncountedServerPage(list, j); }
    CountIsSent(UncountedServer(list), sent, k);
  }

  /** It is honest, for every list. */
  lemma UncountedServerIsHonest<T>(list: seq<T>)
    ensures var server := UncountedServer(list);
            Serves(server, list) && Totalled(server, None) && FullPages(server, list)
  {
    var server := UncountedServer(list);
    forall k: nat ensures ServesAt(server, list, k) && FullPage(server, list, k) {
      UncountedServerCount(list, k);
      UncountedServerPage(list, k);
    }
  }

  /** A list of exactly the bound: every listing of this server is refused. */
  lemma ListingAtTheBoundIsRefused<T>(list: seq<T>, offsets: seq<int>, result: Result<seq<T>, ListError>)
    requires |list| == 100_000 && IsListing(UncountedServer(list), offsets, result)
    ensures result == Err(LimitReached)
  {
    UncountedServerIsHonest(list);
    UncountedListingIsWhole(UncountedServer(list), list, offsets, result);
  }

  /** And there is such a listing: a hundred full pages, the last of which meets the bound. */
  lemma ListingAtTheBoundExists<T>(list: seq<T>)
    requires |list| == 100_000
    ensures IsListing(UncountedServer(list), seq(100, (k: nat) => 1000 * k), Err(LimitReached))
  {
    var server := UncountedServer(list);
    forall k: nat | k < 100
      ensures Count(server, k) == 1000 * k
      ensures Unfinished(server, k) <==> k < 99
      ensures !Finished(server, k)
    {
      UncountedServerCount(list, k);
      UncountedServerPage(list, k);
    }
    UncountedServerPage(list, 99);
  }
}
