/** The pagination arithmetic of the product list: the request `fetchItems`
    makes for a page number, the `nextPage` marker it attaches to the
    response, the `getNextPageParam` rule, and the sequence of pages the
    infinite query accumulates. The network request and the response body
    are not modelled; a response is known only by its number of items. */
module Pagination {
  import opened Options
  import opened Decimal

  /** `maxItemCount`. */
  const MaxItemCount: int := 100

  /** `pageSize`, the `limit` of every request. */
  const PageSize: int := 3

  /** The default of the query function's `pageParam`. */
  const DefaultPageParam: int := 1

  const ProductsEndpoint: string := "https://api.escuelajs.co/api/v1/products"

  /** The JavaScript values the `nextPage` marker can take, as seen through
      `lastpage?.nextPage`. */
  datatype JsValue = Undefined | Null | Number(n: int)

  /** JavaScript's `v <= k` for a number `k`: `v` is converted to a number
      first, `null` to 0 and `undefined` to NaN, which compares false. */
  function LessOrEqual(v: JsValue, k: int): bool {
    match v
    case Undefined => false
    case Null => 0 <= k
    case Number(n) => n <= k
  }

  /** A fetched page: the JSON array, known by its length, with the
      `nextPage` property `fetchItems` attaches to it. */
  datatype Page = Page(length: nat, nextPage: JsValue)

  /** react-query's infinite data: the pages in fetch order and, for each,
      the page number `fetchItems` received. (react-query itself records
      `undefined` for the first page, whose number 1 comes from the
      `pageParam = 1` default inside the query function.) */
  datatype InfiniteData = InfiniteData(pages: seq<Page>, pageParams: seq<int>) {
    predicate Valid() {
      |pages| == |pageParams|
    }
  }

  const Empty: InfiniteData := InfiniteData([], [])

  /** The first index of `c` in `s`. */
  function FirstIndexOf(s: string, c: char): (r: Option<nat>)
    ensures r.Some? ==> r.value < |s| && s[r.value] == c
    ensures r.Some? ==> forall j :: 0 <= j < r.value ==> s[j] != c
    ensures r.None? ==> forall j :: 0 <= j < |s| ==> s[j] != c
  {
    if |s| == 0 then None
    else if s[0] == c then Some(0)
    else
      match FirstIndexOf(s[1..], c)
      case Some(k) => Some(k + 1)
      case None => None
  }

  /** The URL `fetchItems(page)` requests. */
  function FetchUrl(page: int): string {
    QueryHead + IntToString(page) + "&limit=" + IntToString(PageSize)
  }

  /** The text before the offset in every request URL. */
  const QueryHead: string := ProductsEndpoint + "?offset="

  /** Reads the `offset` and `limit` back out of a request URL. */
  function ParseFetchUrl(url: string): Option<(int, int)> {
    if |url| < |QueryHead| || url[..|QueryHead|] != QueryHead then None
    else ParseQuery(url[|QueryHead|..])
  }

  /** Reads `<offset>&limit=<limit>`: the offset runs up to the first `&`. */
  function ParseQuery(rest: string): Option<(int, int)> {
    match FirstIndexOf(rest, '&')
    case None => None
    case Some(k) =>
      var tail := rest[k..];
      if |tail| < 7 || tail[..7] != "&limit=" then None
      else
        match (ParseInt(rest[..k]), ParseInt(tail[7..]))
        case (Some(offset), Some(limit)) => Some((offset, limit))
        case _ => None
  }

  /** The `nextPage` marker `fetchItems(page)` attaches to a response of
      `length` items. */
  function NextPageMarker(page: int, length: nat): (m: JsValue)
    ensures m == Null <==> length <= MaxItemCount
    ensures m.Number? ==> m.n == page + 1
    ensures !m.Undefined?
  {
    if length > MaxItemCount then Number(page + 1) else Null
  }

  /** The page `fetchItems(page)` returns for a response of `length` items. */
  function ResponsePage(page: int, length: nat): Page {
    Page(length, NextPageMarker(page, length))
  }

  /** `fetchItems(page)` once its response of `length` items has arrived:
      the URL requested and the page returned. */
  function FetchItems(page: int, length: nat): (r: (string, Page))
    ensures ParseFetchUrl(r.0) == Some((page, PageSize))
    ensures r.1.length == length
    ensures r.1.nextPage == Null <==> length <= MaxItemCount
    ensures r.1.nextPage.Number? ==> r.1.nextPage.n == page + 1
    ensures !r.1.nextPage.Undefined?
    ensures r.1 == ResponsePage(page, length)
  {
    FetchUrlRoundTrip(page);
    (FetchUrl(page), ResponsePage(page, length))
  }

  /** `getNextPageParam(lastpage, allPages)`; `None` is `undefined`. */
  function GetNextPageParam(lastPage: Option<Page>, allPages: seq<Page>): (r: Option<int>)
    ensures r.Some? ==> r.value == |allPages| + 1
    ensures r.None? <==> lastPage.None? || lastPage.value.nextPage.Undefined?
                         || (lastPage.value.nextPage.Number? && lastPage.value.nextPage.n > MaxItemCount)
  {
    var nextPage := |allPages| + 1;
    var marker := match lastPage case Some(p) => p.nextPage case None => Undefined;
    if LessOrEqual(marker, MaxItemCount) then Some(nextPage) else None
  }

  /** The parameter the query function receives: `pageParam = 1` applies
      when react-query passes none. */
  function QueryParam(pageParam: Option<int>): int {
    pageParam.GetOr(DefaultPageParam)
  }

  /** The page parameter of the next fetch, or `None` once there is no next
      page (`hasNextPage` false). The first fetch gets no parameter from
      react-query; each later one gets `getNextPageParam` of the last page. */
  function NextPageParam(d: InfiniteData): Option<int> {
    if |d.pages| == 0 then Some(QueryParam(None))
    else GetNextPageParam(Some(d.pages[|d.pages| - 1]), d.pages)
  }

  /** The data after one more fetch whose response has `length` items, if
      there is a next page; otherwise the data unchanged. */
  function FetchNext(d: InfiniteData, length: nat): (r: InfiniteData)
    requires d.Valid()
    ensures r.Valid()
    ensures NextPageParam(d).None? ==> r == d
    ensures NextPageParam(d).Some? ==>
              r.pages == d.pages + [ResponsePage(NextPageParam(d).value, length)]
              && r.pageParams == d.pageParams + [NextPageParam(d).value]
  {
    match NextPageParam(d)
    case None => d
    case Some(p) => InfiniteData(d.pages + [ResponsePage(p, length)], d.pageParams + [p])
  }

  /** The data after a run of fetches whose responses have the given
      lengths, in order, stopping once there is no next page. */
  function Feed(d: InfiniteData, lengths: seq<nat>): (r: InfiniteData)
    requires d.Valid()
    ensures r.Valid()
    ensures |d.pages| <= |r.pages| <= |d.pages| + |lengths|
    ensures r.pages[..|d.pages|] == d.pages && r.pageParams[..|d.pages|] == d.pageParams
    ensures forall i :: |d.pages| <= i < |r.pages| ==>
              r.pages[i] == ResponsePage(r.pageParams[i], lengths[i - |d.pages|])
    ensures |r.pages| < |d.pages| + |lengths| ==> NextPageParam(r).None?
    ensures NextPageParam(d).None? ==> r == d
    decreases |lengths|
  {
    if |lengths| == 0 then d
    else if NextPageParam(d).None? then d
    else
      var d' := FetchNext(d, lengths[0]);
      var r := Feed(d', lengths[1..]);
      assert r.pages[..|d.pages|] == r.pages[..|d'.pages|][..|d.pages|];
      assert r.pageParams[..|d.pages|] == r.pageParams[..|d'.pages|][..|d.pages|];
      assert r.pages[|d.pages|] == d'.pages[|d.pages|] && r.pageParams[|d.pages|] == d'.pageParams[|d.pages|];
      r
  }

  /*** Lemmas ***/

  /** The first `&` of a URL's query sits right after a number's notation. */
  lemma AmpersandAfterNumber(o: string, tail: string)
    requires forall j :: 0 <= j < |o| ==> IsDigit(o[j]) || o[j] == '-'
    requires |tail| > 0 && tail[0] == '&'
    ensures FirstIndexOf(o + tail, '&') == Some(|o|)
  {
    var s := o + tail;
    assert s[|o|] == '&';
    assert forall j :: 0 <= j < |o| ==> s[j] == o[j];
  }

  /** A query whose offset text holds no `&` splits at the `&` before
      `limit=`. */
  lemma ParseQueryOfParts(o: string, l: string)
    requires forall j :: 0 <= j < |o| ==> IsDigit(o[j]) || o[j] == '-'
    ensures ParseQuery(o + "&limit=" + l)
         == match (ParseInt(o), ParseInt(l))
            case (Some(offset), Some(limit)) => Some((offset, limit))
            case _ => None
  {
    var tail := "&limit=" + l;
    var rest := o + tail;
    assert o + "&limit=" + l == rest;
    AmpersandAfterNumber(o, tail);
    assert rest[..|o|] == o && rest[|o|..] == tail;
    assert tail[..7] == "&limit=" && tail[7..] == l;
  }

  /** The request URL names the page number as `offset` and the page size as
      `limit`. */
  lemma FetchUrlRoundTrip(page: int)
    ensures ParseFetchUrl(FetchUrl(page)) == Some((page, PageSize))
  {
    var o, l := IntToString(page), IntToString(PageSize);
    var rest := o + "&limit=" + l;
    assert FetchUrl(page) == QueryHead + rest;
    assert (QueryHead + rest)[..|QueryHead|] == QueryHead && (QueryHead + rest)[|QueryHead|..] == rest;
    IntToStringAlphabet(page);
    ParseQueryOfParts(o, l);
    IntRoundTrip(page);
    IntRoundTrip(PageSize);
  }

  /** Data built by the query from nothing: the i-th page was fetched with
      parameter i + 1 and carries the marker `fetchItems` gave it. */
  predicate Built(d: InfiniteData) {
    && d.Valid()
    && (forall i :: 0 <= i < |d.pages| ==> d.pageParams[i] == i + 1)
    && (forall i :: 0 <= i < |d.pages| ==> d.pages[i] == ResponsePage(i + 1, d.pages[i].length))
  }

  /** Once pages are loaded, the next parameter is their count plus one, and
      there is none exactly when the last page's marker is a number above
      `maxItemCount`: a `null` marker always continues. */
  lemma NextPageParamOfBuilt(d: InfiniteData)
    requires Built(d)
    ensures NextPageParam(d).Some? ==> NextPageParam(d).value == |d.pages| + 1
    ensures NextPageParam(d).None? <==>
              |d.pages| > 0 && d.pages[|d.pages| - 1].length > MaxItemCount && |d.pages| + 1 > MaxItemCount
  {
  }

  /** One more fetch keeps data built: the new page is number count + 1 (1
      for the first, by the `pageParam` default) and carries the marker
      `fetchItems` gives that number. */
  lemma FetchNextKeepsBuilt(d: InfiniteData, length: nat)
    requires Built(d)
    ensures Built(FetchNext(d, length))
  {
    NextPageParamOfBuilt(d);
  }

  /** The query numbers its pages 1, 2, 3, ...: the first request uses the
      default parameter 1, and after k pages the next one uses k + 1. */
  lemma {:induction false} FeedKeepsBuilt(d: InfiniteData, lengths: seq<nat>)
    requires Built(d)
    ensures Built(Feed(d, lengths))
    decreases |lengths|
  {
    if |lengths| > 0 && NextPageParam(d).Some? {
      FetchNextKeepsBuilt(d, lengths[0]);
      FeedKeepsBuilt(FetchNext(d, lengths[0]), lengths[1..]);
    }
  }

  /** Every request of a run from nothing asks for `offset` = its page
      number and `limit` = 3: the offset moves by one item per page while
      each page asks for three, and no request, the last one included,
      covers item 0. */
  lemma RequestsOfRun(lengths: seq<nat>, i: nat)
    requires i < |Feed(Empty, lengths).pages|
    ensures Feed(Empty, lengths).pageParams[i] == i + 1
    ensures ParseFetchUrl(FetchItems(Feed(Empty, lengths).pageParams[i], lengths[i]).0) == Some((i + 1, PageSize))
    ensures !Window(Feed(Empty, lengths).pageParams[i], PageSize).Contains(0)
  {
    FeedKeepsBuilt(Empty, lengths);
  }

  /** Generalisation of `ExhaustionIff` to a run that continues a built
      prefix. */
  lemma {:induction false} ExhaustionIffFrom(d: InfiniteData, lengths: seq<nat>)
    requires Built(d) && NextPageParam(d).Some?
    ensures NextPageParam(Feed(d, lengths)).None? <==>
              exists j :: 0 <= j < |lengths| && lengths[j] > MaxItemCount && |d.pages| + j + 2 > MaxItemCount
    decreases |lengths|
  {
    if |lengths| > 0 {
      NextPageParamOfBuilt(d);
      var d' := FetchNext(d, lengths[0]);
      FetchNextKeepsBuilt(d, lengths[0]);
      NextPageParamOfBuilt(d');
      if NextPageParam(d').None? {
        assert lengths[0] > MaxItemCount && |d.pages| + 2 > MaxItemCount;
      } else {
        ExhaustionIffFrom(d', lengths[1..]);
        if exists j :: 0 <= j < |lengths| && lengths[j] > MaxItemCount && |d.pages| + j + 2 > MaxItemCount {
          var j :| 0 <= j < |lengths| && lengths[j] > MaxItemCount && |d.pages| + j + 2 > MaxItemCount;
          assert j > 0;
          assert lengths[1..][j - 1] > MaxItemCount && |d'.pages| + (j - 1) + 2 > MaxItemCount;
        }
        if exists j :: 0 <= j < |lengths[1..]| && lengths[1..][j] > MaxItemCount && |d'.pages| + j + 2 > MaxItemCount {
          var j :| 0 <= j < |lengths[1..]| && lengths[1..][j] > MaxItemCount && |d'.pages| + j + 2 > MaxItemCount;
          assert lengths[j + 1] > MaxItemCount && |d.pages| + (j + 1) + 2 > MaxItemCount;
        }
      }
    }
  }

  /** A run stops for good exactly when some response with more than
      `maxItemCount` items comes back for page 100 or later (the (j+1)-th
      page, with j + 2 > 100): only then is the marker a number above 100. */
  lemma ExhaustionIff(lengths: seq<nat>)
    ensures NextPageParam(Feed(Empty, lengths)).None? <==>
              exists j :: 0 <= j < |lengths| && lengths[j] > MaxItemCount && j + 2 > MaxItemCount
  {
    ExhaustionIffFrom(Empty, lengths);
  }

  /** With responses no longer than the page size the query never runs out:
      every response is loaded and the next parameter is the page count
      plus one. */
  lemma SmallPagesNeverExhaust(lengths: seq<nat>)
    requires forall i :: 0 <= i < |lengths| ==> lengths[i] <= PageSize
    ensures |Feed(Empty, lengths).pages| == |lengths|
    ensures NextPageParam(Feed(Empty, lengths)) == Some(|lengths| + 1)
  {
    ExhaustionIff(lengths);
    FeedKeepsBuilt(Empty, lengths);
    NextPageParamOfBuilt(Feed(Empty, lengths));
  }

  /*** Which catalogue items the requests cover ***/

  /** The catalogue positions the product API returns for an `offset` and a
      `limit`: it skips `offset` items and returns the next `limit`. */
  datatype Window = Window(offset: int, limit: int) {
    predicate Contains(x: int) {
      offset <= x < offset + limit
    }
  }

  /** As written, consecutive pages of a run ask for windows that share two
      items, and the first page of the pair does not ask for item 0
      (`RequestsOfRun` states this for every page). */
  lemma ConsecutiveRequestsOverlap(lengths: seq<nat>, i: nat)
    requires i + 1 < |Feed(Empty, lengths).pages|
    ensures var d := Feed(Empty, lengths);
            forall x :: Window(d.pageParams[i], PageSize).Contains(x) && Window(d.pageParams[i + 1], PageSize).Contains(x)
                        <==> x == i + 2 || x == i + 3
    ensures !Window(Feed(Empty, lengths).pageParams[i], PageSize).Contains(0)
  {
    FeedKeepsBuilt(Empty, lengths);
    var d := Feed(Empty, lengths);
    assert d.pageParams[i] == i + 1 && d.pageParams[i + 1] == i + 2;
    var w1, w2 := Window(d.pageParams[i], PageSize), Window(d.pageParams[i + 1], PageSize);
    forall x
      ensures w1.Contains(x) && w2.Contains(x) <==> x == i + 2 || x == i + 3
    {
      assert w1.Contains(x) <==> i + 1 <= x < i + 4;
      assert w2.Contains(x) <==> i + 2 <= x < i + 5;
    }
  }

  /** The offset that makes page `page` (numbered from 1) follow the one
      before it. */
  function IntendedOffset(page: int): int {
    (page - 1) * PageSize
  }

  /** The request URL with the intended offset. */
  function CorrectedFetchUrl(page: int): (url: string)
    ensures ParseFetchUrl(url) == Some((IntendedOffset(page), PageSize))
  {
    FetchUrlRoundTrip(IntendedOffset(page));
    FetchUrl(IntendedOffset(page))
  }

  /** With the intended offset pages 1 .. k cover exactly the first 3k items
      (item `x` is in one of their windows just when 0 <= x < 3k), and no two
      pages share an item. */
  lemma IntendedWindowsTile(k: nat, x: int)
    ensures (exists p :: 1 <= p <= k && Window(IntendedOffset(p), PageSize).Contains(x)) <==> 0 <= x < k * PageSize
    ensures forall p, q :: 1 <= p < q && Window(IntendedOffset(p), PageSize).Contains(x)
                           ==> !Window(IntendedOffset(q), PageSize).Contains(x)
  {
    if 0 <= x < k * PageSize {
      var p := x / PageSize + 1;
      assert Window(IntendedOffset(p), PageSize).Contains(x);
    }
    forall p | 1 <= p <= k && Window(IntendedOffset(p), PageSize).Contains(x)
      ensures 0 <= x < k * PageSize
    {
      assert IntendedOffset(p) + PageSize <= k * PageSize;
    }
    forall p, q | 1 <= p < q && Window(IntendedOffset(p), PageSize).Contains(x)
      ensures !Window(IntendedOffset(q), PageSize).Contains(x)
    {
      assert IntendedOffset(p) + PageSize <= IntendedOffset(q);
    }
  }

  /** The requests of a run that has loaded k pages, sent with the intended
      offset, cover exactly catalogue items 0 .. 3k - 1. */
  lemma CorrectedRunCovers(lengths: seq<nat>, x: int)
    ensures var d := Feed(Empty, lengths);
            (exists i :: 0 <= i < |d.pages| && Window(IntendedOffset(d.pageParams[i]), PageSize).Contains(x))
            <==> 0 <= x < |d.pages| * PageSize
  {
    FeedKeepsBuilt(Empty, lengths);
    var d := Feed(Empty, lengths);
    var k := |d.pages|;
    IntendedWindowsTile(k, x);
    if 0 <= x < k * PageSize {
      var p :| 1 <= p <= k && Window(IntendedOffset(p), PageSize).Contains(x);
      assert d.pageParams[p - 1] == p;
    }
    forall i | 0 <= i < k && Window(IntendedOffset(d.pageParams[i]), PageSize).Contains(x)
      ensures 0 <= x < k * PageSize
    {
      assert d.pageParams[i] == i + 1;
    }
  }
}
