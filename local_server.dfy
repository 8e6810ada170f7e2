/** The local HTTP server (cryptolocal/main.go): a router over the split URL
    path, symbol-existence checks, four rate queries and the early-return
    handlers that turn their outcomes into status codes. */
module LocalServer {
  import opened Common
  import opened Tables
  import Strings

  // ---------------------------------------------------------------------
  // Currency validator

  /** `SELECT EXISTS (SELECT 1 FROM <table> WHERE symbol = ?)`. Symbols are
      compared character for character; a case-insensitive column collation
      is not modelled. */
  function SymbolExists(table: seq<Currency>, symbol: string): (b: bool)
    ensures b <==> exists i :: 0 <= i < |table| && table[i].symbol == symbol
  {
    if table == [] then false
    else
      assert forall i :: 1 <= i < |table| ==> table[i] == table[1..][i - 1];
      table[0].symbol == symbol || SymbolExists(table[1..], symbol)
  }

  /** CheckCryptoCurrency and CheckFiatCurrency: a driver error is reported as
      an error; an absent symbol is `false`, not an error. */
  function CheckCurrency(table: seq<Currency>, symbol: string, fault: Option<string>): (r: Result<bool, string>)
    ensures fault.Some? ==> r == Failure(fault.value)
    ensures fault.None? ==> r.Success? && (r.value <==> exists i :: 0 <= i < |table| && table[i].symbol == symbol)
  {
    if fault.Some? then Failure(fault.value) else Success(SymbolExists(table, symbol))
  }

  /** The unit-test fixture: BTC, ETH, USDT and BNB are registered. */
  lemma CheckCurrencyFixture(ids: seq<int>)
    requires |ids| == 4
    ensures var table := [Currency(ids[0], "BTC"), Currency(ids[1], "ETH"), Currency(ids[2], "USDT"), Currency(ids[3], "BNB")];
      && CheckCurrency(table, "BTC", None) == Success(true)
      && CheckCurrency(table, "ETH", None) == Success(true)
      && CheckCurrency(table, "LTC", None) == Success(false)
  {
    var table := [Currency(ids[0], "BTC"), Currency(ids[1], "ETH"), Currency(ids[2], "USDT"), Currency(ids[3], "BNB")];
    assert table[0].symbol == "BTC" && table[1].symbol == "ETH";
    assert forall i :: 0 <= i < 4 ==> table[i].symbol != "LTC";
  }

  // ---------------------------------------------------------------------
  // Rate reader: result sets of the four SELECTs

  /** The driver's error: `sql.ErrNoRows` (only QueryRow's Scan reports it)
      or any other failure. */
  datatype QueryError = NoRows | DriverError(message: string)

  /** No row of the same pair (by ids) is newer than `j`. */
  ghost predicate IsLatestOfPair(db: Db, j: Joined)
  {
    forall o :: o in db.rates && o.cryptoId == j.row.cryptoId && o.fiatId == j.row.fiatId ==> o.timestamp <= j.row.timestamp
  }

  /** No row of the same crypto (any fiat) is newer than `j`. */
  ghost predicate IsLatestOfCrypto(db: Db, j: Joined)
  {
    forall o :: o in db.rates && o.cryptoId == j.row.cryptoId ==> o.timestamp <= j.row.timestamp
  }

  /** GetExchangeRate's SELECT: the pair's rows whose timestamp is the
      maximum over ExchangeRates for the same two ids. */
  function LatestPairRows(db: Db, crypto: string, fiat: string): seq<Joined>
  {
    Filter(Join(db), (j: Joined) => j.crypto == crypto && j.fiat == fiat
      && PairMax(db.rates, j.row.cryptoId, j.row.fiatId) == Some(j.row.timestamp))
  }

  /** GetExchangeRatesForCrypto's SELECT: the crypto's rows whose timestamp is
      the maximum over every row of that crypto, whatever its fiat. */
  function LatestOfCryptoRows(db: Db, crypto: string): seq<Joined>
  {
    Filter(Join(db), (j: Joined) => j.crypto == crypto && CryptoMax(db.rates, j.row.cryptoId) == Some(j.row.timestamp))
  }

  /** GetAllExchangeRates's SELECT: every row at its pair's maximum timestamp. */
  function LatestRows(db: Db): seq<Joined>
  {
    Filter(Join(db), (j: Joined) => PairMax(db.rates, j.row.cryptoId, j.row.fiatId) == Some(j.row.timestamp))
  }

  /** GetHistoricalExchangeRates's SELECT: the pair's rows with
      `timestamp >= NOW() - INTERVAL 24 HOUR`. */
  function HistoryRows(db: Db, crypto: string, fiat: string, now: int): seq<Joined>
  {
    Filter(Join(db), (j: Joined) => j.crypto == crypto && j.fiat == fiat && j.row.timestamp >= now - DaySeconds)
  }

  /** A row at its pair's maximum is the latest of its pair. */
  lemma AtPairMax(db: Db, j: Joined)
    requires PairMax(db.rates, j.row.cryptoId, j.row.fiatId) == Some(j.row.timestamp)
    ensures IsLatestOfPair(db, j)
  {
    forall o | o in db.rates && o.cryptoId == j.row.cryptoId && o.fiatId == j.row.fiatId
      ensures o.timestamp <= j.row.timestamp
    {
      AtPairMaxIsLatest(db.rates, j.row, o);
    }
  }

  /** The per-pair `= MAX(timestamp)` selection is empty exactly when the pair
      has no rows at all. */
  lemma LatestPairRowsEmpty(db: Db, crypto: string, fiat: string)
    ensures LatestPairRows(db, crypto, fiat) == [] <==> !HasPairRows(db, crypto, fiat)
  {
    if HasPairRows(db, crypto, fiat) {
      var j :| j in Join(db) && j.crypto == crypto && j.fiat == fiat;
      LatestOfPairExists(db, j);
      var k :| k in Join(db) && k.crypto == j.crypto && k.fiat == j.fiat
        && k.row.cryptoId == j.row.cryptoId && k.row.fiatId == j.row.fiatId
        && PairMax(db.rates, k.row.cryptoId, k.row.fiatId) == Some(k.row.timestamp);
      assert k in LatestPairRows(db, crypto, fiat);
    }
    var l := LatestPairRows(db, crypto, fiat);
    if l != [] {
      assert l[0] in l;
    }
  }

  /** GetExchangeRate: `QueryRow(...).Scan(&rate)` reads the first scanned row
      of the result set; with none, Scan reports `sql.ErrNoRows`. The rate it
      returns belongs to a row of the pair that no row of the pair postdates,
      and ErrNoRows means the pair has no rows at all. */
  function GetExchangeRate(db: Db, crypto: string, fiat: string, scanned: seq<Joined>, fault: Option<string>)
    : (r: Result<Rate, QueryError>)
    requires IsScanOf(scanned, LatestPairRows(db, crypto, fiat))
    ensures fault.Some? ==> r == Failure(DriverError(fault.value))
    ensures fault.None? ==> (r == Failure(NoRows) <==> !HasPairRows(db, crypto, fiat))
    ensures fault.None? ==> r.Success? || r == Failure(NoRows)
    ensures r.Success? ==> exists j :: (j in Join(db) && j.crypto == crypto && j.fiat == fiat
      && j.row.rate == r.value && IsLatestOfPair(db, j))
  {
    ScanMembers(scanned, LatestPairRows(db, crypto, fiat));
    LatestPairRowsEmpty(db, crypto, fiat);
    if fault.Some? then Failure(DriverError(fault.value))
    else if scanned == [] then Failure(NoRows)
    else
      var j := scanned[0];
      assert j in scanned;
      AtPairMax(db, j);
      Success(j.row.rate)
  }

  /** GetExchangeRatesForCrypto: scans the crypto-wide latest rows into
      `rates[fiat] = rate`. A fiat is present exactly when one of its rows
      carries the crypto's newest timestamp; a Scan or Query error discards
      the map. */
  method GetExchangeRatesForCrypto(db: Db, crypto: string, scanned: seq<Joined>, fault: Option<string>)
    returns (r: Result<map<string, Rate>, QueryError>)
    requires IsScanOf(scanned, LatestOfCryptoRows(db, crypto))
    ensures fault.Some? ==> r == Failure(DriverError(fault.value))
    ensures fault.None? ==> r == Success(FiatFold(scanned))
    ensures fault.None? ==> forall f :: f in r.value <==> exists j :: j in LatestOfCryptoRows(db, crypto) && j.fiat == f
    ensures fault.None? ==> forall f :: f in r.value ==> exists j :: (j in Join(db) && j.crypto == crypto && j.fiat == f
      && j.row.rate == r.value[f] && IsLatestOfCrypto(db, j))
  {
    if fault.Some? {
      return Failure(DriverError(fault.value));
    }
    var rates := CollectFiatRates(scanned);
    ScanMembers(scanned, LatestOfCryptoRows(db, crypto));
    forall f ensures f in rates <==> exists j :: j in LatestOfCryptoRows(db, crypto) && j.fiat == f {
      FiatFoldKeys(scanned, f);
      if f in rates {
        var i :| 0 <= i < |scanned| && scanned[i].fiat == f;
        assert scanned[i] in scanned;
      } else {
        forall j | j in LatestOfCryptoRows(db, crypto) ensures j.fiat != f {
          assert j in scanned;
          var i :| 0 <= i < |scanned| && scanned[i] == j;
        }
      }
    }
    forall f | f in rates ensures exists j :: (j in Join(db) && j.crypto == crypto && j.fiat == f
      && j.row.rate == rates[f] && IsLatestOfCrypto(db, j))
    {
      FiatFoldFrom(scanned, f);
      var j :| j in scanned && j.fiat == f && j.row.rate == rates[f];
      assert j in LatestOfCryptoRows(db, crypto);
      CryptoMaxIsLatest(db, j);
    }
    r := Success(rates);
  }

  lemma CryptoMaxIsLatest(db: Db, j: Joined)
    requires CryptoMax(db.rates, j.row.cryptoId) == Some(j.row.timestamp)
    ensures IsLatestOfCrypto(db, j)
  {
    var rows := Filter(db.rates, (x: RateRow) => x.cryptoId == j.row.cryptoId);
    forall o | o in db.rates && o.cryptoId == j.row.cryptoId ensures o.timestamp <= j.row.timestamp {
      assert o in rows;
      var i :| 0 <= i < |rows| && rows[i] == o;
    }
  }

  /** The crypto-wide maximum drops a fiat whose rows are all older than the
      crypto's newest row, although that pair has rows. */
  lemma CryptoRatesOmitStaleFiat(btc: int, usd: int, eur: int, r1: Rate, r2: Rate, scanned: seq<Joined>)
    requires usd != eur
    requires IsScanOf(scanned, LatestOfCryptoRows(
      Db([Currency(btc, "BTC")], [Currency(usd, "USD"), Currency(eur, "EUR")],
         [RateRow(btc, usd, r1, 2), RateRow(btc, eur, r2, 1)]), "BTC"))
    ensures HasPairRows(Db([Currency(btc, "BTC")], [Currency(usd, "USD"), Currency(eur, "EUR")],
         [RateRow(btc, usd, r1, 2), RateRow(btc, eur, r2, 1)]), "BTC", "EUR")
    ensures FiatFold(scanned) == map["USD" := r1]
  {
    var db := Db([Currency(btc, "BTC")], [Currency(usd, "USD"), Currency(eur, "EUR")],
      [RateRow(btc, usd, r1, 2), RateRow(btc, eur, r2, 1)]);
    var ju := Joined("BTC", "USD", db.rates[0]);
    var je := Joined("BTC", "EUR", db.rates[1]);
    InJoin(db, ju);
    InJoin(db, je);
    assert db.fiats[1..] == [Currency(eur, "EUR")];
    assert SymbolOf(db.fiats, eur) == Some("EUR");
    assert je in Join(db);
    var rows := Filter(db.rates, (x: RateRow) => x.cryptoId == btc);
    assert CryptoMax(db.rates, btc) == Some(2) by {
      assert db.rates[0] in rows;
      var i :| 0 <= i < |rows| && rows[i] == db.rates[0];
      var m := MaxTimestamp(rows);
      var k :| 0 <= k < |rows| && rows[k].timestamp == m.value;
      assert rows[k] in db.rates;
    }
    assert ju in LatestOfCryptoRows(db, "BTC");
    ScanMembers(scanned, LatestOfCryptoRows(db, "BTC"));
    forall j | j in scanned ensures j == ju {
      InJoin(db, j);
    }
    var n := FiatFold(scanned);
    forall f ensures f in n <==> f == "USD" {
      FiatFoldKeys(scanned, f);
      if f == "USD" {
        var i :| 0 <= i < |scanned| && scanned[i] == ju;
      }
      if f in n {
        var i :| 0 <= i < |scanned| && scanned[i].fiat == f;
        assert scanned[i] in scanned;
      }
    }
    FiatFoldFrom(scanned, "USD");
  }

  /** GetAllExchangeRates: scans every pair's latest rows into the nested map.
      There is an entry `[c][f]` exactly for the pairs that have rows, each
      value is the rate of a row that no row of its pair postdates, and every
      inner map is non-empty. */
  method GetAllExchangeRates(db: Db, scanned: seq<Joined>, fault: Option<string>)
    returns (r: Result<map<string, map<string, Rate>>, QueryError>)
    requires IsScanOf(scanned, LatestRows(db))
    ensures fault.Some? ==> r == Failure(DriverError(fault.value))
    ensures fault.None? ==> r == Success(NestedFold(scanned))
    ensures fault.None? ==> forall c, f :: (c in r.value && f in r.value[c]) <==> HasPairRows(db, c, f)
    ensures fault.None? ==> forall c, f :: c in r.value && f in r.value[c] ==>
      exists j :: j in Join(db) && j.crypto == c && j.fiat == f && j.row.rate == r.value[c][f] && IsLatestOfPair(db, j)
    ensures fault.None? ==> forall c :: c in r.value ==> r.value[c] != map[]
  {
    if fault.Some? {
      return Failure(DriverError(fault.value));
    }
    var rates := CollectAllRates(scanned);
    ScanMembers(scanned, LatestRows(db));
    forall c, f ensures (c in rates && f in rates[c]) <==> HasPairRows(db, c, f) {
      NestedFoldKeys(scanned, c, f);
      if HasPairRows(db, c, f) {
        var j :| j in Join(db) && j.crypto == c && j.fiat == f;
        LatestOfPairExists(db, j);
        var k :| k in Join(db) && k.crypto == j.crypto && k.fiat == j.fiat
          && k.row.cryptoId == j.row.cryptoId && k.row.fiatId == j.row.fiatId
          && PairMax(db.rates, k.row.cryptoId, k.row.fiatId) == Some(k.row.timestamp);
        assert k in LatestRows(db);
        var i :| 0 <= i < |scanned| && scanned[i] == k;
      }
      if c in rates && f in rates[c] {
        var i :| 0 <= i < |scanned| && scanned[i].crypto == c && scanned[i].fiat == f;
        assert scanned[i] in LatestRows(db);
      }
    }
    forall c, f | c in rates && f in rates[c] ensures
      exists j :: j in Join(db) && j.crypto == c && j.fiat == f && j.row.rate == rates[c][f] && IsLatestOfPair(db, j)
    {
      NestedFoldFrom(scanned, c, f);
      var j :| j in scanned && j.crypto == c && j.fiat == f && j.row.rate == rates[c][f];
      assert j in LatestRows(db);
      AtPairMax(db, j);
    }
    forall c | c in rates ensures rates[c] != map[] {
      NestedFoldInnerNonEmpty(scanned, c);
    }
    r := Success(rates);
  }

  /** GetHistoricalExchangeRates: appends one (rate, timestamp) entry per
      scanned row to a slice made with `make(..., 0)`, so the answer is never
      nil. The entries are exactly the pair's rows of the last 24 hours,
      bounds included, one per row. */
  method GetHistoricalExchangeRates(db: Db, crypto: string, fiat: string, now: int, scanned: seq<Joined>, fault: Option<string>)
    returns (r: Result<GoSlice<TimedRate>, QueryError>)
    requires IsScanOf(scanned, HistoryRows(db, crypto, fiat, now))
    ensures fault.Some? ==> r == Failure(DriverError(fault.value))
    ensures fault.None? ==> r.Success? && r.value.Items?
    ensures fault.None? ==> |r.value.elems| == |scanned| == |HistoryRows(db, crypto, fiat, now)|
    ensures fault.None? ==> forall i :: 0 <= i < |r.value.elems| ==>
      r.value.elems[i] == TimedRate(scanned[i].row.rate, scanned[i].row.timestamp)
    ensures fault.None? ==> forall e :: e in r.value.elems <==> exists j :: (j in Join(db) && j.crypto == crypto && j.fiat == fiat
      && j.row.timestamp >= now - DaySeconds && e == TimedRate(j.row.rate, j.row.timestamp))
  {
    if fault.Some? {
      return Failure(DriverError(fault.value));
    }
    var rates: GoSlice<TimedRate> := Items([]);
    var i := 0;
    while i < |scanned|
      invariant 0 <= i <= |scanned|
      invariant rates.Items? && |rates.elems| == i
      invariant forall k :: 0 <= k < i ==> rates.elems[k] == TimedRate(scanned[k].row.rate, scanned[k].row.timestamp)
    {
      rates := Append(rates, TimedRate(scanned[i].row.rate, scanned[i].row.timestamp));
      i := i + 1;
    }
    ScanMembers(scanned, HistoryRows(db, crypto, fiat, now));
    forall e ensures e in rates.elems <==> exists j :: (j in Join(db) && j.crypto == crypto && j.fiat == fiat
      && j.row.timestamp >= now - DaySeconds && e == TimedRate(j.row.rate, j.row.timestamp))
    {
      if e in rates.elems {
        var k :| 0 <= k < |rates.elems| && rates.elems[k] == e;
        assert scanned[k] in scanned;
      }
      if exists j :: (j in Join(db) && j.crypto == crypto && j.fiat == fiat
        && j.row.timestamp >= now - DaySeconds && e == TimedRate(j.row.rate, j.row.timestamp))
      {
        var j :| j in Join(db) && j.crypto == crypto && j.fiat == fiat
          && j.row.timestamp >= now - DaySeconds && e == TimedRate(j.row.rate, j.row.timestamp);
        assert j in HistoryRows(db, crypto, fiat, now);
        var k :| 0 <= k < |scanned| && scanned[k] == j;
        assert rates.elems[k] == e;
      }
    }
    r := Success(rates);
  }

  /** The history fixture of the unit tests: rows 2 and 1 hours old are kept,
      the one 26 hours old is not. */
  lemma HistoryWindowFixture(btc: int, usd: int, r1: Rate, r2: Rate, r3: Rate, now: int)
    ensures var db := Db([Currency(btc, "BTC")], [Currency(usd, "USD")],
        [RateRow(btc, usd, r1, now - 2 * 3600), RateRow(btc, usd, r2, now - 3600), RateRow(btc, usd, r3, now - 26 * 3600)]);
      && Joined("BTC", "USD", db.rates[0]) in HistoryRows(db, "BTC", "USD", now)
      && Joined("BTC", "USD", db.rates[1]) in HistoryRows(db, "BTC", "USD", now)
      && Joined("BTC", "USD", db.rates[2]) !in HistoryRows(db, "BTC", "USD", now)
  {
    var db := Db([Currency(btc, "BTC")], [Currency(usd, "USD")],
      [RateRow(btc, usd, r1, now - 2 * 3600), RateRow(btc, usd, r2, now - 3600), RateRow(btc, usd, r3, now - 26 * 3600)]);
    InJoin(db, Joined("BTC", "USD", db.rates[0]));
    InJoin(db, Joined("BTC", "USD", db.rates[1]));
  }

  // ---------------------------------------------------------------------
  // Replies

  const UsageText := "\n\nValid URL formats:\n1. http://localhost:8080/rates\n2. http://localhost:8080/rates/{crypto}\n3. http://localhost:8080/rates/{crypto}/{fiat}\n4. http://localhost:8080/rates/history/{crypto}/{fiat} "
  const TooManyParametersText := "Too many parameters. Please try again with valid parameters." + UsageText
  const InvalidParametersText := "Invalid parameters. Please try again with valid parameters." + UsageText
  const InvalidCryptoText := "Crypto currency does not exist or is not servicable. \nPlease try again with valid parameters." + UsageText
  const InvalidFiatText := "Fiat currency does not exist or is not servicable. \nPlease try again with valid parameters." + UsageText
  const RateNotFoundText := "Exchange rates not found."

  const TooManyParametersReply := Reply(StatusBadRequest, PlainText(TooManyParametersText), None)
  const InvalidParametersReply := Reply(StatusBadRequest, PlainText(InvalidParametersText), None)
  const InvalidCryptoReply := Reply(StatusNotFound, PlainText(InvalidCryptoText), None)
  const InvalidFiatReply := Reply(StatusNotFound, PlainText(InvalidFiatText), None)
  const RateNotFoundReply := Reply(StatusNotFound, PlainText(RateNotFoundText), None)
  /** `w.WriteHeader(http.StatusInternalServerError)` with no body. */
  const ServerErrorReply := Reply(StatusInternalServerError, NoBody, None)

  /** What the driver does during one request: whether connecting fails and
      the error, if any, each statement reports. */
  datatype Driver = Driver(
    connectError: Option<string>,
    cryptoCheckFault: Option<string>,
    fiatCheckFault: Option<string>,
    queryFault: Option<string>)

  /** The common prefix of the handlers: connect, check the crypto, then
      (for the pair handlers) check the fiat. `None` means every check
      passed; otherwise the reply the handler stops with. A storage error on
      either check is a 500; an unknown crypto is reported before the fiat is
      looked at; only then does an unknown fiat give its 404. */
  function Validate(db: Db, driver: Driver, crypto: string, fiat: Option<string>): (stop: Option<Reply>)
    ensures stop.None? <==>
      driver.connectError.None? && driver.cryptoCheckFault.None? && SymbolExists(db.cryptos, crypto)
      && (fiat.Some? ==> driver.fiatCheckFault.None? && SymbolExists(db.fiats, fiat.value))
    ensures driver.connectError.Some? ==> stop == Some(ServerErrorReply)
    ensures driver.connectError.None? && driver.cryptoCheckFault.Some? ==> stop == Some(ServerErrorReply)
    ensures driver.connectError.None? && driver.cryptoCheckFault.None? && !SymbolExists(db.cryptos, crypto)
      ==> stop == Some(InvalidCryptoReply)
    ensures (driver.connectError.None? && driver.cryptoCheckFault.None? && SymbolExists(db.cryptos, crypto)
      && fiat.Some? && driver.fiatCheckFault.Some?) ==> stop == Some(ServerErrorReply)
    ensures (driver.connectError.None? && driver.cryptoCheckFault.None? && SymbolExists(db.cryptos, crypto)
      && fiat.Some? && driver.fiatCheckFault.None? && !SymbolExists(db.fiats, fiat.value)) ==> stop == Some(InvalidFiatReply)
  {
    if driver.connectError.Some? then Some(ServerErrorReply)
    else match CheckCurrency(db.cryptos, crypto, driver.cryptoCheckFault)
      case Failure(_) => Some(ServerErrorReply)
      case Success(false) => Some(InvalidCryptoReply)
      case Success(true) =>
        match fiat
        case None => None
        case Some(f) =>
          match CheckCurrency(db.fiats, f, driver.fiatCheckFault)
          case Failure(_) => Some(ServerErrorReply)
          case Success(false) => Some(InvalidFiatReply)
          case Success(true) => None
  }

  /** An unregistered crypto is a 404 naming the crypto as unsupported, never
      a storage error, whatever the fiat is. */
  lemma UnknownCryptoIsNotFound(db: Db, crypto: string, fiat: Option<string>, fiatCheckFault: Option<string>, queryFault: Option<string>)
    requires forall i :: 0 <= i < |db.cryptos| ==> db.cryptos[i].symbol != crypto
    ensures Validate(db, Driver(None, None, fiatCheckFault, queryFault), crypto, fiat) == Some(InvalidCryptoReply)
  {
  }

  /** How a query error becomes a reply: ErrNoRows is "Exchange rates not
      found.", anything else a bare 500. */
  function QueryErrorReply(e: QueryError): (rep: Reply)
    ensures e.NoRows? ==> rep == RateNotFoundReply
    ensures e.DriverError? ==> rep == ServerErrorReply
  {
    match e
    case NoRows => RateNotFoundReply
    case DriverError(_) => ServerErrorReply
  }

  /** handleGetExchangeRate after the checks: 200 with `{"value": rate}` for a
      rate of the pair's latest row, 404 "Exchange rates not found." exactly
      when the pair has no rows, 500 on a driver error. */
  function HandleGetExchangeRate(db: Db, driver: Driver, crypto: string, fiat: string, scanned: seq<Joined>): (rep: Reply)
    requires IsScanOf(scanned, LatestPairRows(db, crypto, fiat))
    ensures Validate(db, driver, crypto, Some(fiat)).Some? ==> rep == Validate(db, driver, crypto, Some(fiat)).value
    ensures Validate(db, driver, crypto, Some(fiat)).None? && driver.queryFault.Some? ==> rep == ServerErrorReply
    ensures Validate(db, driver, crypto, Some(fiat)).None? && driver.queryFault.None? ==>
      (rep == RateNotFoundReply <==> !HasPairRows(db, crypto, fiat))
    ensures Validate(db, driver, crypto, Some(fiat)).None? && driver.queryFault.None? && HasPairRows(db, crypto, fiat) ==>
      rep.Reply? && rep.status == StatusOK && rep.body.ValueJson?
    ensures rep.Reply? && rep.status == StatusOK ==> rep.body.ValueJson? && exists j :: (j in Join(db) && j.crypto == crypto
      && j.fiat == fiat && j.row.rate == rep.body.value && IsLatestOfPair(db, j))
  {
    match Validate(db, driver, crypto, Some(fiat))
    case Some(stop) => stop
    case None =>
      match GetExchangeRate(db, crypto, fiat, scanned, driver.queryFault)
      case Failure(e) => QueryErrorReply(e)
      case Success(rate) => Reply(StatusOK, ValueJson(rate), None)
  }

  /** The response loop of handleGetExchangeRatesForCrypto:
      `response[fiat] = rate` for every entry of the query's map. */
  method CopyRates(rates: map<string, Rate>) returns (response: map<string, Rate>)
    ensures response == rates
  {
    response := map[];
    var pending := rates.Keys;
    while pending != {}
      invariant pending <= rates.Keys
      invariant response.Keys == rates.Keys - pending
      invariant forall f :: f in response ==> response[f] == rates[f]
      decreases pending
    {
      var f :| f in pending;
      response := response[f := rates[f]];
      pending := pending - {f};
    }
  }

  /** handleGetExchangeRatesForCrypto: after the crypto check, 200 with the
      fiat map or 500. The query never reports ErrNoRows, so a registered
      crypto without rates gets 200 with an empty map and the not-found reply
      is unreachable. */
  method HandleGetExchangeRatesForCrypto(db: Db, driver: Driver, crypto: string, scanned: seq<Joined>) returns (rep: Reply)
    requires IsScanOf(scanned, LatestOfCryptoRows(db, crypto))
    ensures Validate(db, driver, crypto, None).Some? ==> rep == Validate(db, driver, crypto, None).value
    ensures Validate(db, driver, crypto, None).None? && driver.queryFault.Some? ==> rep == ServerErrorReply
    ensures Validate(db, driver, crypto, None).None? && driver.queryFault.None? ==>
      rep == Reply(StatusOK, FiatRatesJson(FiatFold(scanned)), None)
    ensures rep != RateNotFoundReply
  {
    var stop := Validate(db, driver, crypto, None);
    if stop.Some? {
      return stop.value;
    }
    var rates := GetExchangeRatesForCrypto(db, crypto, scanned, driver.queryFault);
    if rates.Failure? {
      return QueryErrorReply(rates.error);
    }
    var response := CopyRates(rates.value);
    rep := Reply(StatusOK, FiatRatesJson(response), None);
  }

  /** handleGetHistoricalExchangeRates: after both checks, 200 with
      `{"exchange_rate": [...]}` (an empty list, not null, when no row is
      recent) or 500. */
  method HandleGetHistoricalExchangeRates(db: Db, driver: Driver, crypto: string, fiat: string, now: int, scanned: seq<Joined>)
    returns (rep: Reply)
    requires IsScanOf(scanned, HistoryRows(db, crypto, fiat, now))
    ensures Validate(db, driver, crypto, Some(fiat)).Some? ==> rep == Validate(db, driver, crypto, Some(fiat)).value
    ensures Validate(db, driver, crypto, Some(fiat)).None? && driver.queryFault.Some? ==> rep == ServerErrorReply
    ensures Validate(db, driver, crypto, Some(fiat)).None? && driver.queryFault.None? ==>
      rep.Reply? && rep.status == StatusOK && rep.body.HistoryJson? && rep.body.exchangeRate.Items?
      && |rep.body.exchangeRate.elems| == |scanned| == |HistoryRows(db, crypto, fiat, now)|
      && (forall i :: 0 <= i < |scanned| ==>
            rep.body.exchangeRate.elems[i] == TimedRate(scanned[i].row.rate, scanned[i].row.timestamp))
      && (forall e :: e in rep.body.exchangeRate.elems <==> exists j :: (j in Join(db) && j.crypto == crypto && j.fiat == fiat
            && j.row.timestamp >= now - DaySeconds && e == TimedRate(j.row.rate, j.row.timestamp)))
  {
    var stop := Validate(db, driver, crypto, Some(fiat));
    if stop.Some? {
      return stop.value;
    }
    var rates := GetHistoricalExchangeRates(db, crypto, fiat, now, scanned, driver.queryFault);
    if rates.Failure? {
      return QueryErrorReply(rates.error);
    }
    rep := Reply(StatusOK, HistoryJson(rates.value), None);
  }

  /** handleGetAllExchangeRates: no checks; 200 with the nested map or 500. */
  method HandleGetAllExchangeRates(db: Db, driver: Driver, scanned: seq<Joined>) returns (rep: Reply)
    requires IsScanOf(scanned, LatestRows(db))
    ensures driver.connectError.Some? ==> rep == ServerErrorReply
    ensures driver.connectError.None? && driver.queryFault.Some? ==> rep == ServerErrorReply
    ensures driver.connectError.None? && driver.queryFault.None? ==>
      rep == Reply(StatusOK, AllRatesJson(NestedFold(scanned)), None)
  {
    if driver.connectError.Some? {
      return ServerErrorReply;
    }
    var rates := GetAllExchangeRates(db, scanned, driver.queryFault);
    if rates.Failure? {
      return QueryErrorReply(rates.error);
    }
    rep := Reply(StatusOK, AllRatesJson(rates.value), None);
  }

  // ---------------------------------------------------------------------
  // Router

  /** The five handlers and the fallback HandleRequest dispatches to. */
  datatype Route =
    | TooManyParameters
    | SingleRate(crypto: string, fiat: string)
    | CryptoRates(crypto: string)
    | History(crypto: string, fiat: string)
    | AllRates
    | InvalidParameters

  /** HandleRequest's if/else chain over `strings.Split(path, "/")`, checked in
      source order. The 4-segment branch checks no literal besides "rates"
      and no emptiness. */
  function RouteOf(segs: seq<string>): Route
  {
    var n := |segs|;
    if n > 5 then TooManyParameters
    else if n == 4 && segs[1] == "rates" then SingleRate(segs[2], segs[3])
    else if n == 3 && segs[2] != "" && segs[1] == "rates" then CryptoRates(segs[2])
    else if n == 5 && segs[2] == "history" && segs[3] != "" && segs[4] != "" && segs[1] == "rates" then History(segs[3], segs[4])
    else if n == 2 && segs[1] == "rates" then AllRates
    else InvalidParameters
  }

  function Classify(path: string): Route
  {
    RouteOf(Strings.Split(path, '/'))
  }

  /** More than four slashes is always "too many parameters". */
  lemma ClassifyTooMany(path: string)
    requires Strings.Count(path, '/') >= 5
    ensures Classify(path) == TooManyParameters
  {
    Strings.SplitLength(path, '/');
  }

  lemma SplitRatesPath(rest: seq<string>, path: string)
    requires |rest| >= 1 && forall i :: 0 <= i < |rest| ==> '/' !in rest[i]
    requires path == "/rates/" + Strings.Join(rest, '/')
    ensures Strings.Split(path, '/') == ["", "rates"] + rest
  {
    var tail := Strings.Join(rest, '/');
    var segs := ["", "rates"] + rest;
    assert segs[1..] == ["rates"] + rest;
    assert (["rates"] + rest)[1..] == rest;
    assert Strings.Join(["rates"] + rest, '/') == "rates" + ['/'] + tail;
    assert Strings.Join(segs, '/') == "" + ['/'] + ("rates" + ['/'] + tail);
    assert path == RatesPath("", rest);
    SplitRatesPathOf("", rest);
  }

  /** `/rates` lists all rates. */
  lemma ClassifyAllRates()
    ensures Classify("/rates") == AllRates
  {
    assert "/rates" == "" + ['/'] + "rates";
    Strings.SplitAround("", "rates", '/');
    Strings.SplitNoSep("", '/');
    Strings.SplitNoSep("rates", '/');
  }

  /** `/rates/{crypto}` with a non-empty crypto asks for that crypto's rates;
      `/rates/` is invalid. */
  lemma ClassifyCryptoRates(crypto: string)
    requires '/' !in crypto
    ensures crypto != "" ==> Classify("/rates/" + crypto) == CryptoRates(crypto)
    ensures crypto == "" ==> Classify("/rates/" + crypto) == InvalidParameters
  {
    SplitRatesPath([crypto], "/rates/" + crypto);
  }

  /** `/rates/{crypto}/{fiat}` asks for the single rate, even when a segment
      is empty or the crypto is the literal "history": `/rates/history/BTC`
      is the single rate of crypto "history" in fiat "BTC". */
  lemma ClassifySingleRate(crypto: string, fiat: string)
    requires '/' !in crypto && '/' !in fiat
    ensures Classify("/rates/" + crypto + "/" + fiat) == SingleRate(crypto, fiat)
  {
    assert Strings.Join([crypto, fiat], '/') == crypto + "/" + fiat;
    assert "/rates/" + crypto + "/" + fiat == "/rates/" + Strings.Join([crypto, fiat], '/');
    SplitRatesPath([crypto, fiat], "/rates/" + crypto + "/" + fiat);
  }

  /** `/rates/history/{crypto}/{fiat}` with non-empty symbols asks for the
      pair's history. */
  lemma ClassifyHistory(crypto: string, fiat: string)
    requires '/' !in crypto && '/' !in fiat && crypto != "" && fiat != ""
    ensures Classify("/rates/history/" + crypto + "/" + fiat) == History(crypto, fiat)
  {
    var path := "/rates/history/" + crypto + "/" + fiat;
    assert ["history", crypto, fiat][1..] == [crypto, fiat];
    assert [crypto, fiat][1..] == [fiat];
    assert Strings.Join([crypto, fiat], '/') == crypto + "/" + fiat;
    assert Strings.Join(["history", crypto, fiat], '/') == "history" + "/" + (crypto + "/" + fiat);
    assert Strings.Join(["history", crypto, fiat], '/') == "history/" + crypto + "/" + fiat;
    assert path == "/rates/" + Strings.Join(["history", crypto, fiat], '/');
    SplitRatesPath(["history", crypto, fiat], path);
  }

  /** The path whose '/'-separated segments are `lead`, "rates" and then
      `params`. A request path starts with '/', so its `lead` is "". */
  function RatesPath(lead: string, params: seq<string>): string
  {
    Strings.Join([lead, "rates"] + params, '/')
  }

  /** The text before the first '/'. */
  function Lead(path: string): string
  {
    Strings.Split(path, '/')[0]
  }

  /** A segment the router takes as a symbol: non-empty, without '/'. */
  predicate IsParam(s: string)
  {
    s != "" && '/' !in s
  }

  /** A rates path splits back into its segments. */
  lemma SplitRatesPathOf(lead: string, params: seq<string>)
    requires '/' !in lead && forall i :: 0 <= i < |params| ==> '/' !in params[i]
    ensures Strings.Split(RatesPath(lead, params), '/') == [lead, "rates"] + params
  {
    var segs := [lead, "rates"] + params;
    forall i | 0 <= i < |segs| ensures '/' !in segs[i] {
      if i >= 2 {
        assert segs[i] == params[i - 2];
      }
    }
    Strings.SplitJoin(segs, '/');
  }

  /** A path whose second segment is "rates" is the rates path of its
      remaining segments. */
  lemma RatesPathOfSegments(path: string)
    requires |Strings.Split(path, '/')| >= 2 && Strings.Split(path, '/')[1] == "rates"
    ensures path == RatesPath(Lead(path), Strings.Split(path, '/')[2..])
  {
    var segs := Strings.Split(path, '/');
    Strings.JoinSplit(path, '/');
    assert [segs[0], "rates"] + segs[2..] == segs;
  }

  /** The converse of the routes: every answer but the fallback is read off
      a path of its own shape, and "too many parameters" only comes from a
      path with at least five '/'. */
  lemma ClassifyConverse(path: string)
    ensures Classify(path) == TooManyParameters ==> Strings.Count(path, '/') >= 5
    ensures Classify(path) == AllRates ==> path == RatesPath(Lead(path), [])
    ensures Classify(path).CryptoRates? ==>
      IsParam(Classify(path).crypto) && path == RatesPath(Lead(path), [Classify(path).crypto])
    ensures Classify(path).SingleRate? ==>
      && '/' !in Classify(path).crypto && '/' !in Classify(path).fiat
      && path == RatesPath(Lead(path), [Classify(path).crypto, Classify(path).fiat])
    ensures Classify(path).History? ==>
      && IsParam(Classify(path).crypto) && IsParam(Classify(path).fiat)
      && path == RatesPath(Lead(path), ["history", Classify(path).crypto, Classify(path).fiat])
  {
    var segs := Strings.Split(path, '/');
    var route := Classify(path);
    Strings.SplitLength(path, '/');
    if route.AllRates? || route.CryptoRates? || route.SingleRate? || route.History? {
      RatesPathOfSegments(path);
      var rest := segs[2..];
      if route.AllRates? {
        assert rest == [];
      } else if route.CryptoRates? {
        assert rest == [segs[2]];
      } else if route.SingleRate? {
        assert rest == [segs[2], segs[3]];
      } else {
        assert rest == [segs[2], segs[3], segs[4]];
      }
    }
  }

  /** The fallback: a path gets "invalid parameters" exactly when it has at
      most four '/' and none of the four accepted shapes. */
  lemma ClassifyInvalid(path: string)
    ensures Classify(path) == InvalidParameters <==>
      && Strings.Count(path, '/') <= 4
      && path != RatesPath(Lead(path), [])
      && (forall c :: IsParam(c) ==> path != RatesPath(Lead(path), [c]))
      && (forall c, f :: '/' !in c && '/' !in f ==> path != RatesPath(Lead(path), [c, f]))
      && (forall c, f :: IsParam(c) && IsParam(f) ==> path != RatesPath(Lead(path), ["history", c, f]))
  {
    var lead := Lead(path);
    assert '/' !in lead;
    ClassifyConverse(path);
    if Classify(path) == InvalidParameters {
      if Strings.Count(path, '/') >= 5 {
        ClassifyTooMany(path);
      }
      if path == RatesPath(lead, []) {
        SplitRatesPathOf(lead, []);
      }
      forall c | IsParam(c) ensures path != RatesPath(lead, [c]) {
        if path == RatesPath(lead, [c]) {
          SplitRatesPathOf(lead, [c]);
        }
      }
      forall c, f | '/' !in c && '/' !in f ensures path != RatesPath(lead, [c, f]) {
        if path == RatesPath(lead, [c, f]) {
          SplitRatesPathOf(lead, [c, f]);
        }
      }
      forall c, f | IsParam(c) && IsParam(f) ensures path != RatesPath(lead, ["history", c, f]) {
        if path == RatesPath(lead, ["history", c, f]) {
          SplitRatesPathOf(lead, ["history", c, f]);
        }
      }
    }
  }

  /** The root and a path with another first segment fall through to
      "invalid parameters". */
  lemma ClassifyInvalidRoot()
    ensures Classify("/") == InvalidParameters
    ensures Classify("/foo") == InvalidParameters
  {
    assert "/" == "" + ['/'] + "";
    Strings.SplitAround("", "", '/');
    assert "/foo" == "" + ['/'] + "foo";
    Strings.SplitAround("", "foo", '/');
    Strings.SplitNoSep("foo", '/');
  }

  /** A history path with an empty fiat, and a pair behind an unknown
      literal, fall through to "invalid parameters" too. */
  lemma ClassifyInvalidLongPaths()
    ensures Classify(RatesPath("", ["history", "BTC", ""])) == InvalidParameters
    ensures Classify(RatesPath("", ["spot", "BTC", "USD"])) == InvalidParameters
  {
    SplitRatesPathOf("", ["history", "BTC", ""]);
    SplitRatesPathOf("", ["spot", "BTC", "USD"]);
  }
}
