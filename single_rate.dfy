/** The single-rate function (netlify/functions/singlerate/main.go): the
    crypto and fiat are the last two path segments, the price comes from the
    upstream API, and the answer carries that one fiat. */
module SingleRate {
  import opened Common
  import Strings

  /** The upstream request `http.Get(apiURL)`: its error, its status, and
      the JSON decoding of its body into `map[string]float64`. */
  datatype Upstream = Upstream(getError: Option<string>, status: int, decoded: Result<map<string, Rate>, string>)

  /** The request made, if any, and the answer. */
  datatype Handled = Handled(request: Option<string>, reply: Reply)

  function PriceUrl(crypto: string, fiat: string): string
  {
    "https://min-api.cryptocompare.com/data/price?fsym=" + crypto + "&tsyms=" + fiat
  }

  function StatusErrorText(status: int): string
  {
    "API request failed with status: " + IntToString(status)
  }

  function NotFoundText(fiat: string): string
  {
    "Exchange rate not found for " + fiat
  }

  /** `pathParams[len-2]` and `pathParams[len-1]`; None where the first index
      is out of range, which happens exactly when the path has no '/'. */
  function PairOf(path: string): (pair: Option<(string, string)>)
    ensures pair.None? <==> Strings.Count(path, '/') == 0
    ensures pair.Some? ==> '/' !in pair.value.0 && '/' !in pair.value.1
  {
    var segs := Strings.Split(path, '/');
    Strings.SplitLength(path, '/');
    if |segs| < 2 then None else Some((segs[|segs| - 2], segs[|segs| - 1]))
  }

  /** For any path ending in "/crypto/fiat", those are the two segments
      taken, whatever comes before. */
  lemma PairOfTail(prefix: string, crypto: string, fiat: string)
    requires '/' !in crypto && '/' !in fiat
    ensures PairOf(prefix + "/" + crypto + "/" + fiat) == Some((crypto, fiat))
  {
    var tail := crypto + "/" + fiat;
    assert prefix + "/" + crypto + "/" + fiat == prefix + ['/'] + tail;
    assert tail == crypto + ['/'] + fiat;
    Strings.SplitAround(prefix, tail, '/');
    Strings.SplitAround(crypto, fiat, '/');
    Strings.SplitNoSep(crypto, '/');
    Strings.SplitNoSep(fiat, '/');
  }

  /** `GetSingleRate`, with the upstream exchange as a parameter. */
  function GetSingleRate(path: string, upstream: Upstream): (out: Handled)
    ensures PairOf(path).None? <==> out == Handled(None, Panic)
    ensures PairOf(path).Some? ==> out.request == Some(PriceUrl(PairOf(path).value.0, PairOf(path).value.1))
  {
    match PairOf(path)
    case None => Handled(None, Panic)
    case Some((crypto, fiat)) =>
      Handled(Some(PriceUrl(crypto, fiat)), Answer(fiat, upstream))
  }

  /** The answer once the request has been made for `fiat`. */
  function Answer(fiat: string, upstream: Upstream): (reply: Reply)
    ensures reply.Reply?
    ensures upstream.getError.Some? ==> reply == Reply(StatusInternalServerError, NoBody, upstream.getError)
    ensures upstream.getError.None? && upstream.status != StatusOK ==>
      reply == Reply(StatusBadGateway, NoBody, Some(StatusErrorText(upstream.status)))
    ensures (upstream.getError.None? && upstream.status == StatusOK && upstream.decoded.Success?
      && fiat !in upstream.decoded.value) ==> reply == Reply(StatusNotFound, NoBody, Some(NotFoundText(fiat)))
  {
    if upstream.getError.Some? then Reply(StatusInternalServerError, NoBody, upstream.getError)
    else if upstream.status != StatusOK then Reply(StatusBadGateway, NoBody, Some(StatusErrorText(upstream.status)))
    else match upstream.decoded
      case Failure(e) => Reply(StatusInternalServerError, NoBody, Some(e))
      case Success(data) =>
        if fiat !in data then Reply(StatusNotFound, NoBody, Some(NotFoundText(fiat)))
        else Reply(StatusOK, FiatRatesJson(map[fiat := data[fiat]]), None)
  }

  /** A 200 answer exists only for a 200 upstream whose decoded map holds the
      fiat, and then it has exactly that one key, bound to the upstream
      value. */
  lemma SuccessIsSingleKey(fiat: string, upstream: Upstream)
    ensures Answer(fiat, upstream).status == StatusOK <==>
      upstream.getError.None? && upstream.status == StatusOK && upstream.decoded.Success? && fiat in upstream.decoded.value
    ensures Answer(fiat, upstream).status == StatusOK ==>
      && Answer(fiat, upstream).body.FiatRatesJson?
      && Answer(fiat, upstream).body.fiatRates.Keys == {fiat}
      && Answer(fiat, upstream).body.fiatRates[fiat] == upstream.decoded.value[fiat]
  {
  }

  /** Every answer other than 200 carries an error. */
  lemma FailureCarriesError(fiat: string, upstream: Upstream)
    ensures Answer(fiat, upstream).status != StatusOK <==> Answer(fiat, upstream).err.Some?
  {
  }

  /** A path with a single '/' still has two segments: the text before it
      is the crypto, so "/USD" asks for crypto "" in USD. */
  lemma PairOfOneSlash(lead: string, fiat: string)
    requires '/' !in lead && '/' !in fiat
    ensures PairOf(lead + "/" + fiat) == Some((lead, fiat))
  {
    assert lead + "/" + fiat == lead + ['/'] + fiat;
    Strings.SplitAround(lead, fiat, '/');
    Strings.SplitNoSep(lead, '/');
    Strings.SplitNoSep(fiat, '/');
  }

  /** The function's own route "/.netlify/functions/singlerate/BTC/USD"
      asks for BTC in USD. */
  lemma RouteFixture(upstream: Upstream)
    ensures GetSingleRate("/.netlify/functions/singlerate/BTC/USD", upstream).request
      == Some(PriceUrl("BTC", "USD"))
  {
    var path := "/.netlify/functions/singlerate/BTC/USD";
    assert path == "/.netlify/functions/singlerate" + "/" + "BTC" + "/" + "USD";
    PairOfTail("/.netlify/functions/singlerate", "BTC", "USD");
    assert PairOf(path) == Some(("BTC", "USD"));
  }
}
