/** The deal API client (mazrica_client.py) with HTTP, JSON decoding and timing removed:
    the decoded JSON objects, the parsers that turn them into records, the page loop,
    and the classification of response status codes. */
module MazricaClient {
  import opened Base

  /** A member of a decoded JSON object as `dict.get` sees it: missing, `null`, or a value. */
  datatype Field<+T> = Absent | Null | Present(value: T) {
    /** `data.get(key)`: a missing member and `null` both read as `None`. */
    function Get(): (o: Option<T>)
      ensures o.Some? <==> Present?
      ensures o.Some? ==> o.value == value
    {
      if Present? then Some(value) else None
    }
  }

  /** A nested `{"id": ..., "name": ...}` object (customer, deal type, phase, user). */
  datatype RawRef = RawRef(id: Field<int>, name: Field<string>)

  const EmptyRef: RawRef := RawRef(Absent, Absent)

  /** One element of a deal's `productDetails` array. */
  datatype RawProductDetail = RawProductDetail(
    productId: Field<int>,
    productName: Option<string>,
    quantity: Field<real>,
    unitPrice: Field<real>,
    amount: Field<real>)

  /** One element of a page's `deals` array. */
  datatype RawDeal = RawDeal(
    id: int,
    name: Option<string>,
    customer: Field<RawRef>,
    dealType: Field<RawRef>,
    phase: Field<RawRef>,
    user: Field<RawRef>,
    amount: Field<real>,
    expectedContractDate: Field<string>,
    createdAt: Option<string>,
    updatedAt: Option<string>,
    productDetails: Option<seq<RawProductDetail>>)

  /** The `ProductDetail` record. */
  datatype ProductDetail = ProductDetail(
    productId: Option<int>,
    productName: string,
    quantity: Option<real>,
    unitPrice: Option<real>,
    amount: Option<real>)

  /** The `Deal` record. `productName` is the deal-level product name that the
      diff-sync script reads; this client's parser does not fill it. */
  datatype Deal = Deal(
    id: int,
    name: string,
    customerName: Option<string>,
    customerId: Option<int>,
    dealTypeId: Option<int>,
    dealTypeName: Option<string>,
    phaseName: Option<string>,
    amount: Option<real>,
    expectedContractDate: Option<string>,
    createdAt: string,
    updatedAt: string,
    userName: Option<string>,
    productDetails: seq<ProductDetail>,
    productName: Option<string>)

  /** `data.get(key, {}) or {}`: a missing or `null` nested object reads as an empty one. */
  function ObjectOrEmpty(f: Field<RawRef>): (r: RawRef)
    ensures !f.Present? ==> r == EmptyRef
    ensures f.Present? ==> r == f.value
  {
    if f.Present? then f.value else EmptyRef
  }

  /** `_parse_product_detail`: the name defaults to `""`, the other members to `None`. */
  function ParseProductDetail(data: RawProductDetail): (pd: ProductDetail)
    ensures pd.productName == (if data.productName.Some? then data.productName.value else "")
    ensures pd.quantity.Some? <==> data.quantity.Present?
    ensures pd.unitPrice.Some? <==> data.unitPrice.Present?
    ensures pd.amount.Some? <==> data.amount.Present?
    ensures pd.productId.Some? <==> data.productId.Present?
    ensures data.quantity.Present? ==> pd.quantity == Some(data.quantity.value)
    ensures data.unitPrice.Present? ==> pd.unitPrice == Some(data.unitPrice.value)
    ensures data.amount.Present? ==> pd.amount == Some(data.amount.value)
    ensures data.productId.Present? ==> pd.productId == Some(data.productId.value)
  {
    ProductDetail(
      data.productId.Get(),
      data.productName.GetOr(""),
      data.quantity.Get(),
      data.unitPrice.Get(),
      data.amount.Get())
  }

  /** `_parse_deal`. */
  function ParseDeal(data: RawDeal): (d: Deal)
    ensures d.id == data.id
    ensures d.name == (if data.name.Some? then data.name.value else "")
    ensures d.createdAt == (if data.createdAt.Some? then data.createdAt.value else "")
    ensures d.updatedAt == (if data.updatedAt.Some? then data.updatedAt.value else "")
    ensures d.customerName == ObjectOrEmpty(data.customer).name.Get()
    ensures d.customerId == ObjectOrEmpty(data.customer).id.Get()
    ensures d.dealTypeId == ObjectOrEmpty(data.dealType).id.Get()
    ensures d.dealTypeName == ObjectOrEmpty(data.dealType).name.Get()
    ensures d.phaseName == ObjectOrEmpty(data.phase).name.Get()
    ensures d.userName == ObjectOrEmpty(data.user).name.Get()
    ensures !data.customer.Present? ==> d.customerName.None? && d.customerId.None?
    ensures !data.dealType.Present? ==> d.dealTypeName.None? && d.dealTypeId.None?
    ensures !data.phase.Present? ==> d.phaseName.None?
    ensures !data.user.Present? ==> d.userName.None?
    ensures d.amount == data.amount.Get()
    ensures d.expectedContractDate == data.expectedContractDate.Get()
    ensures data.productDetails.None? ==> d.productDetails == []
    ensures data.productDetails.Some? ==>
      |d.productDetails| == |data.productDetails.value| &&
      forall i :: 0 <= i < |d.productDetails| ==>
        d.productDetails[i] == ParseProductDetail(data.productDetails.value[i])
    ensures d.productName.None?
  {
    var customer := ObjectOrEmpty(data.customer);
    var dealType := ObjectOrEmpty(data.dealType);
    var phase := ObjectOrEmpty(data.phase);
    var user := ObjectOrEmpty(data.user);
    var raw := data.productDetails.GetOr([]);
    var details := seq(|raw|, i requires 0 <= i < |raw| => ParseProductDetail(raw[i]));
    Deal(
      data.id,
      data.name.GetOr(""),
      customer.name.Get(),
      customer.id.Get(),
      dealType.id.Get(),
      dealType.name.Get(),
      phase.name.Get(),
      data.amount.Get(),
      data.expectedContractDate.Get(),
      data.createdAt.GetOr(""),
      data.updatedAt.GetOr(""),
      user.name.Get(),
      details,
      None)
  }

  /** What `_request` does with a response, by status code. */
  datatype StatusClass = RetrySame | ApiError(status: int) | Decoded

  /** `_request`: 429 retries the identical request, any other status of 400 or more
      raises `MazricaAPIError` with that status, and everything else returns the body. */
  function ClassifyStatus(status: int): (c: StatusClass)
    ensures c == RetrySame <==> status == 429
    ensures c.ApiError? <==> status >= 400 && status != 429
    ensures c.ApiError? ==> c.status == status
    ensures c == Decoded <==> status < 400
  {
    if status == 429 then RetrySame
    else if status >= 400 then ApiError(status)
    else Decoded
  }

  /** The decoded body of one `GET /deals` response: `deals` (missing reads as `[]`)
      and `totalCount` (missing reads as `0`). */
  datatype Page = Page(deals: seq<RawDeal>, totalCount: Option<int>)

  /** The page size `fetch_deals_with_products` requests (the default of `get_all_deals`). */
  const DefaultLimitPerPage: int := 100

  /** The server's answer to a request for page `p` (pages count from 1); the pages
      after the last given one are empty. */
  function Response(pages: seq<Page>, p: nat): (pg: Page)
    ensures pg.deals != [] ==> 1 <= p <= |pages|
  {
    if 1 <= p <= |pages| then pages[p - 1] else Page([], None)
  }

  /** `result.get("totalCount", 0)` */
  function TotalCount(pg: Page): int {
    pg.totalCount.GetOr(0)
  }

  /** The loop of `get_all_deals` leaves after reading page `p`: the page has no deals,
      or `p * limit` reaches the reported total. */
  predicate StopsAfter(pages: seq<Page>, limit: int, p: nat) {
    var pg := Response(pages, p);
    pg.deals == [] || p * limit >= TotalCount(pg)
  }

  /** The first page at or after `p` after which the loop leaves. */
  function FirstStop(pages: seq<Page>, limit: int, p: nat): (n: nat)
    requires p >= 1
    decreases |pages| + 1 - p
    ensures p <= n && StopsAfter(pages, limit, n)
    ensures forall q :: p <= q < n ==> !StopsAfter(pages, limit, q)
  {
    if StopsAfter(pages, limit, p) then p else FirstStop(pages, limit, p + 1)
  }

  /** How many pages `get_all_deals` requests. */
  function PagesRead(pages: seq<Page>, limit: int): (n: nat)
    ensures n >= 1 && StopsAfter(pages, limit, n)
    ensures forall q :: 1 <= q < n ==> !StopsAfter(pages, limit, q)
  {
    FirstStop(pages, limit, 1)
  }

  /** The deals of pages 1 to `n`, page after page, each page in response order. */
  function DealsUpTo(pages: seq<Page>, n: nat): (r: seq<RawDeal>)
    ensures forall x :: x in r <==> exists p :: 1 <= p <= n && x in Response(pages, p).deals
  {
    if n == 0 then [] else DealsUpTo(pages, n - 1) + Response(pages, n).deals
  }

  /** `get_all_deals`: requests pages 1, 2, 3, ... in turn and yields every deal of
      every page read, stopping at the first page that is empty or reaches the total.
      `requested` lists the page numbers in the order they were requested. */
  method GetAllDeals(pages: seq<Page>, limitPerPage: int) returns (deals: seq<RawDeal>, requested: seq<nat>)
    ensures |requested| == PagesRead(pages, limitPerPage)
    ensures forall k :: 0 <= k < |requested| ==> requested[k] == k + 1
    ensures deals == DealsUpTo(pages, |requested|)
  {
    deals, requested := [], [];
    var page: nat := 1;
    while true
      invariant 1 <= page <= |pages| + 1
      invariant |requested| == page - 1
      invariant forall k :: 0 <= k < |requested| ==> requested[k] == k + 1
      invariant forall q :: 1 <= q < page ==> !StopsAfter(pages, limitPerPage, q)
      invariant deals == DealsUpTo(pages, page - 1)
      decreases |pages| + 1 - page
    {
      var result := Response(pages, page);
      requested := requested + [page];
      var pageDeals := result.deals;
      if pageDeals == [] {
        break;
      }
      var i := 0;
      while i < |pageDeals|
        invariant 0 <= i <= |pageDeals|
        invariant deals == DealsUpTo(pages, page - 1) + pageDeals[..i]
      {
        deals := deals + [pageDeals[i]];
        i := i + 1;
      }
      assert pageDeals[..i] == pageDeals;
      var totalCount := TotalCount(result);
      if page * limitPerPage >= totalCount {
        break;
      }
      page := page + 1;
    }
    assert StopsAfter(pages, limitPerPage, page);
    FirstStopUnique(pages, limitPerPage, page);
  }

  /** The stopping page is the only page `n` that stops while no page before it does. */
  lemma FirstStopUnique(pages: seq<Page>, limit: int, n: nat)
    requires n >= 1 && StopsAfter(pages, limit, n)
    requires forall q :: 1 <= q < n ==> !StopsAfter(pages, limit, q)
    ensures PagesRead(pages, limit) == n
  {
  }

  lemma MulMonotone(a: int, b: int, c: int)
    requires a >= b && c >= 0
    ensures a * c >= b * c
  {
    assert a * c - b * c == (a - b) * c;
  }

  lemma MulCancelLess(a: int, b: int, c: int)
    requires c > 0 && a * c < b * c
    ensures a < b
  {
    if a >= b {
      MulMonotone(a, b, c);
    }
  }

  /** With a positive page size and the same total on every page, the loop requests
      at most max(1, ceil(total / limit)) pages. */
  lemma PagesReadBound(pages: seq<Page>, limit: int, total: int)
    requires limit > 0
    requires forall p :: 0 <= p < |pages| ==> TotalCount(pages[p]) == total
    ensures PagesRead(pages, limit) <= if total <= 0 then 1 else (total + limit - 1) / limit
  {
    var n := PagesRead(pages, limit);
    if n >= 2 {
      var p := n - 1;
      assert !StopsAfter(pages, limit, p);
      assert Response(pages, p) == pages[p - 1];
      assert p * limit < total;
      MulMonotone(p, 1, limit);
      var q := (total + limit - 1) / limit;
      var r := (total + limit - 1) % limit;
      assert q * limit + r == total + limit - 1 && 0 <= r < limit;
      MulCancelLess(p, q, limit);
    }
  }

  /** A response without `totalCount` counts as total 0, so with a page size of 0 or
      more only the first page is read. */
  lemma MissingTotalReadsOnePage(pages: seq<Page>, limit: int)
    requires limit >= 0
    requires Response(pages, 1).totalCount.None?
    ensures PagesRead(pages, limit) == 1
  {
    assert StopsAfter(pages, limit, 1);
  }

  /** `fetch_deals_with_products`: one parsed `Deal` per deal the page loop yields, in order. */
  method FetchDealsWithProducts(pages: seq<Page>) returns (deals: seq<Deal>)
    ensures var raw := DealsUpTo(pages, PagesRead(pages, DefaultLimitPerPage));
      |deals| == |raw| && forall i :: 0 <= i < |raw| ==> deals[i] == ParseDeal(raw[i])
  {
    var raw, _ := GetAllDeals(pages, DefaultLimitPerPage);
    deals := [];
    var i := 0;
    while i < |raw|
      invariant 0 <= i <= |raw|
      invariant |deals| == i
      invariant forall k :: 0 <= k < i ==> deals[k] == ParseDeal(raw[k])
    {
      var deal := ParseDeal(raw[i]);
      deals := deals + [deal];
      i := i + 1;
    }
  }
}
