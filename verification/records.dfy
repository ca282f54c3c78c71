/** The quote record every path of the service produces, and the fields of a
    provider answer it is built from. */
module Records {
  import opened Options
  import opened Decimal

  /** A JSON field: missing from its object, present with `null`, or present
      with a value. `dict.get` tells the first two apart only through its default. */
  datatype Field<T> = Absent | Null | Present(value: T) {

    /** `d.get(k, default)`: the default only when the key is missing. */
    function GetOr(default: Option<T>): Option<T>
    {
      match this
      case Absent => default
      case Null => None
      case Present(v) => Some(v)
    }

    /** `d.get(k)`. */
    function Get(): Option<T> {
      GetOr(None)
    }
  }

  /** One quote as the service hands it to the page and the JSON API. Fields the
      source may set to `None` are optional; `valid` is optional because the page
      reads it with a default. The change in percent is a decimal, so that the
      negative zero `round` can produce keeps its sign. */
  datatype Quote = Quote(
    symbol: string,
    shortName: Option<string>,
    longName: Option<string>,
    price: Option<real>,
    currency: Option<string>,
    marketCap: Option<int>,
    changePercent: Fixed,
    previousClose: Option<real>,
    valid: Option<bool>,
    error: Option<string>)

  /** Quotes keyed by ticker. */
  type Quotes = map<string, Quote>

  /** The currency every record defaults to. */
  const Brl := "BRL"
}
