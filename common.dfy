/** Types shared by every endpoint: optional values and results, the opaque
    rate and balance values, Go slices (which distinguish nil from empty),
    and the HTTP replies the handlers produce. */
module Common {

  datatype Option<+T> = None | Some(value: T)

  datatype Result<+T, +E> = Success(value: T) | Failure(error: E)

  /** An exchange rate (a float64 in the source). Rates are only copied,
      never computed, so nothing about their representation matters. */
  type Rate(==, !new)

  /** An account balance as returned by the Ethereum client. */
  type Wei(==, !new)

  /** A Go slice as JSON sees it: a nil slice encodes as `null`, an empty
      non-nil one as `[]`. */
  datatype GoSlice<T> = Nil | Items(elems: seq<T>)

  /** Go's `append`: appending to a nil slice allocates a non-nil one. */
  function Append<T>(s: GoSlice<T>, x: T): (r: GoSlice<T>)
    ensures r.Items? && r.elems == Elems(s) + [x]
  {
    match s
    case Nil => Items([x])
    case Items(xs) => Items(xs + [x])
  }

  /** The elements of a slice; `range` over nil visits nothing. */
  function Elems<T>(s: GoSlice<T>): seq<T>
  {
    match s
    case Nil => []
    case Items(xs) => xs
  }

  const StatusOK := 200
  const StatusBadRequest := 400
  const StatusNotFound := 404
  const StatusInternalServerError := 500
  const StatusBadGateway := 502

  /** One (value, timestamp) entry of the local server's history answer. */
  datatype TimedRate = TimedRate(value: Rate, timestamp: int)

  /** One entry of the Lambda history answer. */
  datatype PairRate = PairRate(crypto: string, value: Rate, fiat: string)

  /** Response bodies, one constructor per JSON (or text) shape. */
  datatype Body =
    | NoBody
    | PlainText(text: string)
    | ErrorJson(error: string)
    | MessageJson(message: string)
    | ValueJson(value: Rate)
    | PairJson(crypto: string, value: Rate, fiat: string)
    | FiatRatesJson(fiatRates: map<string, Rate>)
    | AllRatesJson(allRates: map<string, map<string, Rate>>)
    | HistoryJson(exchangeRate: GoSlice<TimedRate>)
    | PairListJson(pairs: GoSlice<PairRate>)
    | BalanceJson(address: string, balance: Wei)

  /** What a handler hands back: a status, a body and, for the Lambda
      handlers, the Go `error` they return beside the response. `Panic` is a
      Go runtime panic (an index out of range) before any response exists. */
  datatype Reply =
    | Reply(status: int, body: Body, err: Option<string>)
    | Panic

  function DigitChar(d: nat): char
    requires d < 10
  {
    "0123456789"[d]
  }

  function NatToString(n: nat): (s: string)
    ensures |s| > 0
    ensures forall i :: 0 <= i < |s| ==> '0' <= s[i] <= '9'
    decreases n
  {
    if n < 10 then [DigitChar(n)] else NatToString(n / 10) + [DigitChar(n % 10)]
  }

  /** Go's `%d` formatting of an int. */
  function IntToString(n: int): (s: string)
    ensures |s| > 0
    ensures (n < 0) <==> s[0] == '-'
  {
    if n < 0 then "-" + NatToString(-n) else NatToString(n)
  }

  /** The number a string of decimal digits denotes, read left to right. */
  function DigitsValue(s: string): int
  {
    if s == [] then 0 else DigitsValue(s[..|s| - 1]) * 10 + (s[|s| - 1] as int - '0' as int)
  }

  /** A leading '-' negates the digits after it. */
  function SignedValue(s: string): int
  {
    if |s| > 0 && s[0] == '-' then -DigitsValue(s[1..]) else DigitsValue(s)
  }

  /** The digits `NatToString` writes read back as the number. */
  lemma {:induction false} NatToStringValue(n: nat)
    ensures DigitsValue(NatToString(n)) == n
    decreases n
  {
    var s := NatToString(n);
    var last := DigitChar(n % 10);
    assert last as int - '0' as int == n % 10 by {
      var d := n % 10;
      assert d == 0 || d == 1 || d == 2 || d == 3 || d == 4 || d == 5 || d == 6 || d == 7 || d == 8 || d == 9;
    }
    if n < 10 {
      assert s == [last];
      assert s[..0] == [];
    } else {
      NatToStringValue(n / 10);
      assert s[..|s| - 1] == NatToString(n / 10);
      assert s[|s| - 1] == last;
    }
  }

  /** `%d` output reads back as the number it formats. */
  lemma IntToStringValue(n: int)
    ensures SignedValue(IntToString(n)) == n
  {
    var s := IntToString(n);
    if n < 0 {
      var digits := NatToString(-n);
      NatToStringValue(-n);
      assert s == "-" + digits;
      assert s[0] == '-' && s[1..] == digits;
      assert SignedValue(s) == -DigitsValue(digits);
    } else {
      NatToStringValue(n);
      assert s == NatToString(n);
      assert '0' <= s[0] <= '9';
      assert SignedValue(s) == DigitsValue(s);
    }
  }
}
