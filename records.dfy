/**
 * The values one row turns into: the tokenised CSV row, the map built from it
 * (lines 96-98), the DrugPrice record and the second stage that builds it
 * (lines 100-124). Date parsing, price parsing and the DrugPrice constructor's
 * own validation are not part of this model: they are oracles.
 */
module Records {
  import opened Wrappers
  import opened Normalize
  import opened Identity

  /** Java int, the type of the saved-items counter. */
  newtype int32 = x: int | -0x8000_0000 <= x < 0x8000_0000

  const INT32_MAX: int32 := 0x7fff_ffff
  const INT32_MIN: int32 := -0x8000_0000

  /** Java's ++ on an int wraps from the largest value to the smallest. */
  function Inc32(x: int32): (r: int32)
    ensures r as int == (x as int - INT32_MIN as int + 1) % 0x1_0000_0000 + INT32_MIN as int
  {
    if x == INT32_MAX then INT32_MIN else x + 1
  }

  /** A nonzero multiple of b is at least b away from 0. */
  lemma MultipleBounds(e: int, b: int)
    requires b > 0
    ensures e >= 1 ==> e * b >= b
    ensures e <= -1 ==> e * b <= -b
  {
    if e >= 1 {
      assert e * b == (e - 1) * b + b;
    } else if e <= -1 {
      assert e * b == (e + 1) * b - b;
    }
  }

  /** A multiple of b leaves no remainder. */
  lemma MultipleMod(q: int, b: int)
    requires b > 0
    ensures (q * b) % b == 0
  {
    var x := q * b;
    var d := x / b;
    var m := x % b;
    assert x == d * b + m;
    var e := q - d;
    assert e * b == m by {
      assert e * b == q * b - d * b;
    }
    MultipleBounds(e, b);
  }

  /** Java's % truncates: the remainder has the sign of the dividend. */
  function JavaRem(a: int, b: int): (r: int)
    requires b > 0
    ensures -b < r < b
    ensures a >= 0 ==> r >= 0
    ensures a < 0 ==> r <= 0
    ensures (a - r) % b == 0
  {
    if a >= 0 then
      MultipleMod(a / b, b);
      assert a - a % b == (a / b) * b;
      a % b
    else
      MultipleMod(-((-a) / b), b);
      assert a + (-a) % b == -((-a) / b) * b;
      -((-a) % b)
  }

  /** One record as the CSV parser hands it over: its values in header order. */
  type Row = seq<string>

  /** Positions, in the fixed twelve-column header, of the five columns the loader reads. */
  const NDC_DESCRIPTION := 0
  const NDC := 1
  const NADAC_PER_UNIT := 2
  const EFFECTIVE_DATE := 3
  const PRICING_UNIT := 4

  /** The classification every record is given. */
  const UNDEFINED := "undefined"

  type PostId = nat

  datatype Wholesaler = Wholesaler(id: nat, name: string)

  /** The price posting created once per run (DrugPricePost). */
  datatype Post = Post(id: PostId, wholesalerId: nat, defaultEffectiveDate: int)

  /** A persisted price; postId is unset when built and set just before the save. */
  datatype DrugPrice = DrugPrice(
    ndc: string,
    description: string,
    npdId: Id,
    price: real,
    uom: string,
    classification: string,
    effDate: int,
    postId: Option<PostId>)

  /** The per-row map of lines 96-98: trimmed fields, the resolved id and the description. */
  datatype NormalizedRow = NormalizedRow(
    ndc: string, price: string, effDate: string, uom: string, npdId: Id, description: string)

  /**
   * The collaborators whose sources are not part of this model:
   * SimpleDateFormat("MM/dd/yyyy").parse(...).getTime() (None: ParseException),
   * Double.parseDouble (None: NumberFormatException), and whether the
   * DrugPrice constructor returns normally for a candidate record.
   */
  datatype Oracles = Oracles(
    parseDate: string -> Option<int>,
    parsePrice: string -> Option<real>,
    constructs: DrugPrice -> bool)

  function Itemize(row: Row, description: string, npdId: Id): NormalizedRow
    requires |row| > PRICING_UNIT
  {
    NormalizedRow(Trim(row[NDC]), Trim(row[NADAC_PER_UNIT]), Trim(row[EFFECTIVE_DATE]),
                  Trim(row[PRICING_UNIT]), npdId, description)
  }

  /** Lines 105-111: an unparseable date is logged and falls back to 0. */
  function EffectiveDate(text: string, o: Oracles): int {
    match o.parseDate(text)
    case Some(t) => t
    case None => 0
  }

  datatype Built = PriceUnparseable | ConstructorFailed | Record(dp: DrugPrice)

  /**
   * Lines 100-124. The date is parsed first and never fails the row; the price
   * parse is outside any handler (PriceUnparseable propagates); a constructor
   * failure is caught and yields no record.
   */
  function BuildRecord(item: NormalizedRow, o: Oracles): (r: Built)
    ensures r.PriceUnparseable? <==> o.parsePrice(item.price).None?
    ensures r.Record? ==>
      && r.dp == DrugPrice(item.ndc, item.description, item.npdId, o.parsePrice(item.price).value,
                           item.uom, UNDEFINED, EffectiveDate(item.effDate, o), None)
      && o.constructs(r.dp)
  {
    var effDate := EffectiveDate(item.effDate, o);
    match o.parsePrice(item.price)
    case None => PriceUnparseable
    case Some(price) =>
      var dp := DrugPrice(item.ndc, item.description, item.npdId, price, item.uom, UNDEFINED, effDate, None);
      if o.constructs(dp) then Record(dp) else ConstructorFailed
  }
}
