/**
 * `parse_products` builds eight parallel columns, one entry per product
 * segment of a description; `get_dataframe` runs it over every order row and
 * tags each parsed product with the id of the order it came from.
 */
module Products {
  import opened Outcomes
  import opened ProductSplit
  import opened SegmentRules
  import opened Seqs

  /** The eight lists `parse_products` fills, in the order of the frame's columns. */
  datatype Columns = Columns(
    qty: seq<Option<nat>>,
    name: seq<Option<string>>,
    setName: seq<Option<string>>,
    price: seq<Option<real>>,
    quality: seq<string>,
    foil: seq<string>,
    lang: seq<Option<string>>,
    total: seq<Option<real>>)

  const NoColumns: Columns := Columns([], [], [], [], [], [], [], [])

  /** Every column holds exactly `n` entries. */
  predicate Aligned(c: Columns, n: nat) {
    && |c.qty| == n && |c.name| == n && |c.setName| == n && |c.price| == n
    && |c.quality| == n && |c.foil| == n && |c.lang| == n && |c.total| == n
  }

  /** Row `i` of aligned columns, read across all eight of them. */
  function RowAt(c: Columns, i: nat): ProductRow
    requires Aligned(c, |c.qty|) && i < |c.qty|
  {
    ProductRow(c.qty[i], c.name[i], c.setName[i], c.price[i], c.quality[i], c.foil[i], c.lang[i], c.total[i])
  }

  /** The frame with one more row at the bottom: one entry appended to each list. */
  function Append(c: Columns, row: ProductRow): Columns {
    Columns(c.qty + [row.qty], c.name + [row.name], c.setName + [row.setName], c.price + [row.price],
            c.quality + [row.quality], c.foil + [row.foil], c.lang + [row.lang], c.total + [row.total])
  }

  /** `pd.concat([a, b], ignore_index=True)` on two frames of parsed products. */
  function Concat(a: Columns, b: Columns): Columns {
    Columns(a.qty + b.qty, a.name + b.name, a.setName + b.setName, a.price + b.price,
            a.quality + b.quality, a.foil + b.foil, a.lang + b.lang, a.total + b.total)
  }

  /** The columns holding the given rows, in order. */
  function ColumnsOf(rows: seq<ProductRow>): (c: Columns)
    ensures Aligned(c, |rows|)
  {
    if rows == [] then NoColumns else Append(ColumnsOf(rows[..|rows| - 1]), rows[|rows| - 1])
  }

  /** Reading row `i` across the columns gives back the `i`-th row. */
  lemma {:induction false} ColumnsOfRows(rows: seq<ProductRow>)
    ensures forall i :: 0 <= i < |rows| ==> RowAt(ColumnsOf(rows), i) == rows[i]
  {
    if rows != [] {
      var init := rows[..|rows| - 1];
      ColumnsOfRows(init);
      forall i | 0 <= i < |rows| ensures RowAt(ColumnsOf(rows), i) == rows[i] {
        if i < |init| { assert RowAt(ColumnsOf(init), i) == init[i]; }
      }
    }
  }

  /** Concatenating two frames is the frame of the concatenated rows. */
  lemma {:induction false} ColumnsOfConcat(a: seq<ProductRow>, b: seq<ProductRow>)
    ensures ColumnsOf(a + b) == Concat(ColumnsOf(a), ColumnsOf(b))
  {
    if b == [] {
      assert a + b == a;
    } else {
      var init, last := b[..|b| - 1], b[|b| - 1];
      ColumnsOfConcat(a, init);
      assert (a + b)[..|a + b| - 1] == a + init && (a + b)[|a + b| - 1] == last;
      assert ColumnsOf(a + b) == Append(ColumnsOf(a + init), last);
      ConcatAppend(ColumnsOf(a), ColumnsOf(init), last);
    }
  }

  /** Appending a row after a concatenation appends it to the second frame. */
  lemma ConcatAppend(x: Columns, y: Columns, row: ProductRow)
    ensures Concat(x, Append(y, row)) == Append(Concat(x, y), row)
  {
    assert x.qty + (y.qty + [row.qty]) == (x.qty + y.qty) + [row.qty];
    assert x.name + (y.name + [row.name]) == (x.name + y.name) + [row.name];
    assert x.setName + (y.setName + [row.setName]) == (x.setName + y.setName) + [row.setName];
    assert x.price + (y.price + [row.price]) == (x.price + y.price) + [row.price];
    assert x.quality + (y.quality + [row.quality]) == (x.quality + y.quality) + [row.quality];
    assert x.foil + (y.foil + [row.foil]) == (x.foil + y.foil) + [row.foil];
    assert x.lang + (y.lang + [row.lang]) == (x.lang + y.lang) + [row.lang];
    assert x.total + (y.total + [row.total]) == (x.total + y.total) + [row.total];
  }

  /** The segments of one description. */
  function Segments(description: string): seq<string> { SplitProducts(description) }

  /** The parse of each segment, in order. */
  function Parses(segments: seq<string>, currency: string): (r: seq<Result<ProductRow, ParseError>>)
    ensures |r| == |segments|
  {
    seq(|segments|, i requires 0 <= i < |segments| => ParseSegment(segments[i], currency))
  }

  /**
   * The rows of the given segments, parsed in order; the first segment whose
   * price is malformed makes the whole parse fail with its error.
   */
  function ParseAll(segments: seq<string>, currency: string): Result<seq<ProductRow>, ParseError> {
    Collect(Parses(segments, currency))
  }

  /**
   * The parse succeeds exactly when every segment parses, and then row `i` is
   * segment `i`'s parse; otherwise its error is that of the first segment
   * that fails.
   */
  lemma ParseAllSpec(segments: seq<string>, currency: string)
    ensures ParseAll(segments, currency).Ok? <==> forall i :: 0 <= i < |segments| ==> ParseSegment(segments[i], currency).Ok?
    ensures ParseAll(segments, currency).Ok? ==> |ParseAll(segments, currency).value| == |segments|
    ensures ParseAll(segments, currency).Ok? ==>
      forall i :: 0 <= i < |segments| ==> ParseAll(segments, currency).value[i] == ParseSegment(segments[i], currency).value
    ensures ParseAll(segments, currency).Err? ==> exists i :: (
      && 0 <= i < |segments|
      && (forall j :: 0 <= j < i ==> ParseSegment(segments[j], currency).Ok?)
      && ParseSegment(segments[i], currency) == Err(ParseAll(segments, currency).error))
  {
    var rs := Parses(segments, currency);
    CollectSpec(rs);
    assert forall i :: 0 <= i < |segments| ==> rs[i] == ParseSegment(segments[i], currency);
  }

  /** The price of a segment whose unit price did not raise. */
  function PriceOf(outcome: PriceOutcome): Option<real> {
    if outcome.Price? then Some(outcome.value) else None
  }

  /** A segment's parse, by its unit-price outcome. */
  lemma SegmentParsed(segment: string, currency: string)
    ensures ParseSegment(segment, currency) ==
      if UnitPrice(segment, currency).Malformed? then Err(BadPrice(segment, UnitPrice(segment, currency).text))
      else Ok(SegmentRow(segment, PriceOf(UnitPrice(segment, currency))))
  {
  }

  lemma ColumnsOfSnoc(rows: seq<ProductRow>, row: ProductRow)
    ensures ColumnsOf(rows + [row]) == Append(ColumnsOf(rows), row)
  {
    assert (rows + [row])[..|rows|] == rows;
  }

  /**
   * `parse_products(product_str, currency)`: the eight columns are those of
   * the parsed segments, in order, one entry per segment; a malformed unit
   * price raises its error instead.
   */
  method ParseProducts(description: string, currency: string) returns (r: Result<Columns, ParseError>)
    ensures r.Ok? <==> ParseAll(Segments(description), currency).Ok?
    ensures r.Ok? ==> r.value == ColumnsOf(ParseAll(Segments(description), currency).value)
    ensures r.Err? ==> ParseAll(Segments(description), currency) == Err(r.error)
  {
    var products := SplitProducts(description);
    ghost var parses := Parses(products, currency);
    var quantities, productNames, setNames, qualities := [], [], [], [];
    var languages, foils, prices, totalPrices := [], [], [], [];
    for i := 0 to |products|
      invariant Collect(parses[..i]).Ok?
      invariant Columns(quantities, productNames, setNames, prices, qualities, foils, languages, totalPrices)
        == ColumnsOf(Collect(parses[..i]).value)
    {
      ghost var rows := Collect(parses[..i]).value;
      var product := products[i];
      var quantity := Quantity(product);
      quantities := quantities + [quantity];
      productNames := productNames + [ProductName(product)];
      setNames := setNames + [SetName(product)];
      qualities := qualities + [Quality(product)];
      languages := languages + [Language(product)];
      foils := foils + [Foil(product)];
      var outcome := UnitPrice(product, currency);
      SegmentParsed(product, currency);
      assert parses[i] == ParseSegment(product, currency);
      CollectSnoc(parses, i);
      if outcome.Malformed? {
        CollectPrefix(parses, i + 1);
        return Err(BadPrice(product, outcome.text));
      }
      var price := PriceOf(outcome);
      prices := prices + [price];
      totalPrices := totalPrices + [Total(quantity, price)];
      ColumnsOfSnoc(rows, SegmentRow(product, price));
    }
    assert parses[..|products|] == parses;
    r := Ok(Columns(quantities, productNames, setNames, prices, qualities, foils, languages, totalPrices));
  }

  // ------------------------------------------------------------ get_dataframe

  /** An order row of the combined report: its id, its description and its currency. */
  datatype Order = Order(id: int, description: string, currency: string)

  /** What loading can raise: nothing to concatenate, or a malformed price. */
  datatype LoadError = NothingToConcatenate | BadProduct(cause: ParseError)

  /** The parse of each order's description, in order. */
  function OrderParses(orders: seq<Order>): (r: seq<Result<seq<ProductRow>, ParseError>>)
    ensures |r| == |orders|
  {
    seq(|orders|, j requires 0 <= j < |orders| => ParseAll(Segments(orders[j].description), orders[j].currency))
  }

  /**
   * The parsed products of all orders, in order, together with the order id
   * each one is tagged with; the first malformed price fails the whole load.
   */
  function Expand(orders: seq<Order>): Result<(seq<ProductRow>, seq<int>), ParseError> {
    match Collect(OrderParses(orders))
    case Err(e) => Err(e)
    case Ok(frames) => Ok((Flatten(frames), Tags(frames, Ids(orders))))
  }

  /** The id of each order, in order. */
  function Ids(orders: seq<Order>): (r: seq<int>)
    ensures |r| == |orders| && forall j :: 0 <= j < |orders| ==> r[j] == orders[j].id
  {
    seq(|orders|, j requires 0 <= j < |orders| => orders[j].id)
  }

  /**
   * The load succeeds exactly when every order's description parses. Then the
   * products of order `j` follow those of the orders before it, in the order
   * of its segments, and every one of them carries order `j`'s id.
   */
  lemma ExpandSpec(orders: seq<Order>)
    ensures Expand(orders).Ok? <==>
      forall j :: 0 <= j < |orders| ==> ParseAll(Segments(orders[j].description), orders[j].currency).Ok?
    ensures Expand(orders).Ok? ==> |Expand(orders).value.0| == |Expand(orders).value.1|
  {
    CollectSpec(OrderParses(orders));
    assert forall j :: 0 <= j < |orders| ==> OrderParses(orders)[j] == ParseAll(Segments(orders[j].description), orders[j].currency);
  }

  /**
   * When the load succeeds, segment `k` of order `j` becomes the product at
   * `start + k`, where `start` counts the products of the orders before `j`,
   * and that product is tagged with order `j`'s id.
   */
  lemma ExpandAligned(orders: seq<Order>, j: nat, k: nat)
    requires Expand(orders).Ok? && j < |orders| && k < |Segments(orders[j].description)|
    ensures ParseAll(Segments(orders[j].description), orders[j].currency).Ok?
    ensures var start := Start(Collect(OrderParses(orders)).value, j);
      && start + k < |Expand(orders).value.0|
      && Expand(orders).value.0[start + k] == ParseAll(Segments(orders[j].description), orders[j].currency).value[k]
      && Expand(orders).value.1[start + k] == orders[j].id
  {
    var ps := OrderParses(orders);
    assert ps[j] == ParseAll(Segments(orders[j].description), orders[j].currency);
    CollectTagsAligned(ps, Ids(orders), j, k);
  }

  /**
   * The product loop of `get_dataframe`: parse every order's description,
   * collect the frames and extend the order ids by one copy per parsed
   * product, so that ids and rows stay aligned. With no order at all,
   * `pd.concat` raises; otherwise the first malformed price raises.
   */
  method ExpandOrders(orders: seq<Order>) returns (r: Result<(Columns, seq<int>), LoadError>)
    ensures r == Err(NothingToConcatenate) <==> |orders| == 0
    ensures r.Ok? <==> |orders| > 0 && Expand(orders).Ok?
    ensures r.Ok? ==> r.value == (ColumnsOf(Expand(orders).value.0), Expand(orders).value.1)
    ensures r.Err? && |orders| > 0 ==> r == Err(BadProduct(Expand(orders).error))
  {
    ghost var parses := OrderParses(orders);
    ghost var ids := Ids(orders);
    var products := NoColumns;
    var orderIds: seq<int> := [];
    for i := 0 to |orders|
      invariant Collect(parses[..i]).Ok?
      invariant products == ColumnsOf(Flatten(Collect(parses[..i]).value))
      invariant orderIds == Tags(Collect(parses[..i]).value, ids[..i])
    {
      var order := orders[i];
      assert parses[i] == ParseAll(Segments(order.description), order.currency);
      var parsed := ParseProducts(order.description, order.currency);
      if parsed.Err? {
        CollectSnoc(parses, i);
        CollectPrefix(parses, i + 1);
        return Err(BadProduct(parsed.error));
      }
      ColumnsOfConcat(Flatten(Collect(parses[..i]).value), parses[i].value);
      CollectFlattenSnoc(parses, ids, i);
      products := Concat(products, parsed.value);
      orderIds := orderIds + Repeat(order.id, |parsed.value.qty|);
    }
    if |orders| == 0 {
      return Err(NothingToConcatenate);
    }
    assert parses[..|orders|] == parses && ids[..|orders|] == ids;
    r := Ok((products, orderIds));
  }
}
