/** The serverless rate handler (netlify/functions/rate/main.go): four
    queries without any "latest" filtering except the single-pair
    `ORDER BY timestamp DESC LIMIT 1`, and a router whose segment counts do
    not match the indices it reads. */
module LambdaRates {
  import opened Common
  import opened Tables
  import Strings

  /** Error text GetExchangeRate substitutes for `sql.ErrNoRows`. */
  const PairNotFoundText := "Invalid Cryptocurrency-FiatCurrency Pair / Pair not servicable"

  /** The pair's joined rows, by symbol. */
  function PairRows(db: Db, crypto: string, fiat: string): seq<Joined>
  {
    Filter(Join(db), (j: Joined) => j.crypto == crypto && j.fiat == fiat)
  }

  /** The crypto's joined rows (no timestamp filter at all). */
  function CryptoRows(db: Db, crypto: string): seq<Joined>
  {
    Filter(Join(db), (j: Joined) => j.crypto == crypto)
  }

  /** `er.timestamp > now - 24h`: the window excludes its lower bound. */
  function RecentPairRows(db: Db, crypto: string, fiat: string, now: int): seq<Joined>
  {
    Filter(Join(db), (j: Joined) => j.crypto == crypto && j.fiat == fiat && j.row.timestamp > now - DaySeconds)
  }

  /** `ORDER BY er.timestamp DESC`: ties come in any order. */
  predicate NewestFirst(s: seq<Joined>)
  {
    forall i, k :: 0 <= i < k < |s| ==> s[i].row.timestamp >= s[k].row.timestamp
  }

  /** No joined row of the same pair of symbols is newer than `j`. */
  ghost predicate IsNewestOfPair(db: Db, j: Joined)
  {
    forall k :: k in Join(db) && k.crypto == j.crypto && k.fiat == j.fiat ==> k.row.timestamp <= j.row.timestamp
  }

  /** GetExchangeRate: the first row of the newest-first scan. With no row the
      pair error text replaces ErrNoRows; other driver errors pass through. */
  function GetExchangeRate(db: Db, crypto: string, fiat: string, scanned: seq<Joined>, fault: Option<string>)
    : (r: Result<Rate, string>)
    requires IsScanOf(scanned, PairRows(db, crypto, fiat)) && NewestFirst(scanned)
    ensures fault.Some? ==> r == Failure(fault.value)
    ensures fault.None? ==> (r == Failure(PairNotFoundText) <==> !HasPairRows(db, crypto, fiat))
    ensures fault.None? ==> r.Success? || r == Failure(PairNotFoundText)
    ensures r.Success? ==> exists j :: (j in Join(db) && j.crypto == crypto && j.fiat == fiat
      && j.row.rate == r.value && IsNewestOfPair(db, j))
  {
    ScanMembers(scanned, PairRows(db, crypto, fiat));
    if fault.Some? then Failure(fault.value)
    else if scanned == [] then
      assert forall j :: j in Join(db) && j.crypto == crypto && j.fiat == fiat ==> j in PairRows(db, crypto, fiat);
      Failure(PairNotFoundText)
    else
      var j := scanned[0];
      assert j in scanned;
      assert IsNewestOfPair(db, j) by {
        forall k | k in Join(db) && k.crypto == j.crypto && k.fiat == j.fiat ensures k.row.timestamp <= j.row.timestamp {
          assert k in PairRows(db, crypto, fiat);
          var i :| 0 <= i < |scanned| && scanned[i] == k;
        }
      }
      Success(j.row.rate)
  }

  /** GetExchangeRatesForCrypto: every joined row of the crypto folded into
      `rates[fiat] = rate`, so a fiat is present exactly when the pair has any
      row, and its value is the rate of one of them: the last in scan order,
      which need not be the newest. */
  method GetExchangeRatesForCrypto(db: Db, crypto: string, scanned: seq<Joined>, fault: Option<string>)
    returns (r: Result<map<string, Rate>, string>)
    requires IsScanOf(scanned, CryptoRows(db, crypto))
    ensures fault.Some? ==> r == Failure(fault.value)
    ensures fault.None? ==> r == Success(FiatFold(scanned))
    ensures fault.None? ==> forall f :: f in r.value <==> HasPairRows(db, crypto, f)
    ensures fault.None? ==> forall f :: f in r.value ==> exists j :: (j in Join(db) && j.crypto == crypto && j.fiat == f
      && j.row.rate == r.value[f])
  {
    if fault.Some? {
      return Failure(fault.value);
    }
    var rates := CollectFiatRates(scanned);
    ScanMembers(scanned, CryptoRows(db, crypto));
    forall f ensures f in rates <==> HasPairRows(db, crypto, f) {
      FiatFoldKeys(scanned, f);
      if f in rates {
        var i :| 0 <= i < |scanned| && scanned[i].fiat == f;
        assert scanned[i] in scanned;
      }
      if HasPairRows(db, crypto, f) {
        var j :| j in Join(db) && j.crypto == crypto && j.fiat == f;
        assert j in CryptoRows(db, crypto);
        var i :| 0 <= i < |scanned| && scanned[i] == j;
      }
    }
    forall f | f in rates ensures exists j :: (j in Join(db) && j.crypto == crypto && j.fiat == f && j.row.rate == rates[f]) {
      FiatFoldFrom(scanned, f);
    }
    r := Success(rates);
  }

  /** GetAllExchangeRates: every joined row folded into
      `rates[crypto][fiat] = rate`, creating the inner map on first sight of a
      crypto. There is an entry exactly for the pairs that have rows. */
  method GetAllExchangeRates(db: Db, scanned: seq<Joined>, fault: Option<string>)
    returns (r: Result<map<string, map<string, Rate>>, string>)
    requires IsScanOf(scanned, Join(db))
    ensures fault.Some? ==> r == Failure(fault.value)
    ensures fault.None? ==> r == Success(NestedFold(scanned))
    ensures fault.None? ==> forall c, f :: (c in r.value && f in r.value[c]) <==> HasPairRows(db, c, f)
    ensures fault.None? ==> forall c, f :: c in r.value && f in r.value[c] ==>
      exists j :: (j in Join(db) && j.crypto == c && j.fiat == f && j.row.rate == r.value[c][f])
    ensures fault.None? ==> forall c :: c in r.value ==> r.value[c] != map[]
  {
    if fault.Some? {
      return Failure(fault.value);
    }
    var rates := CollectAllRates(scanned);
    ScanMembers(scanned, Join(db));
    forall c, f ensures (c in rates && f in rates[c]) <==> HasPairRows(db, c, f) {
      NestedFoldKeys(scanned, c, f);
      if c in rates && f in rates[c] {
        var i :| 0 <= i < |scanned| && scanned[i].crypto == c && scanned[i].fiat == f;
        assert scanned[i] in scanned;
      }
      if HasPairRows(db, c, f) {
        var j :| j in Join(db) && j.crypto == c && j.fiat == f;
        var i :| 0 <= i < |scanned| && scanned[i] == j;
      }
    }
    forall c, f | c in rates && f in rates[c] ensures exists j :: (j in Join(db) && j.crypto == c && j.fiat == f && j.row.rate == rates[c][f]) {
      NestedFoldFrom(scanned, c, f);
    }
    forall c | c in rates ensures rates[c] != map[] {
      NestedFoldInnerNonEmpty(scanned, c);
    }
    r := Success(rates);
  }

  /** GetHistoricalExchangeRates: appends a (crypto, rate, fiat) entry per
      scanned row to a slice declared nil, so the answer is nil (JSON `null`)
      exactly when no row is newer than 24 hours, and otherwise holds one
      entry per such row. */
  method GetHistoricalExchangeRates(db: Db, crypto: string, fiat: string, now: int, scanned: seq<Joined>, fault: Option<string>)
    returns (r: Result<GoSlice<PairRate>, string>)
    requires IsScanOf(scanned, RecentPairRows(db, crypto, fiat, now))
    ensures fault.Some? ==> r == Failure(fault.value)
    ensures fault.None? ==> r.Success? && (r.value.Nil? <==> RecentPairRows(db, crypto, fiat, now) == [])
    ensures fault.None? ==> |Elems(r.value)| == |scanned| == |RecentPairRows(db, crypto, fiat, now)|
    ensures fault.None? ==> forall i :: 0 <= i < |Elems(r.value)| ==>
      Elems(r.value)[i] == PairRate(scanned[i].crypto, scanned[i].row.rate, scanned[i].fiat)
    ensures fault.None? ==> forall e :: e in Elems(r.value) <==> exists j :: (j in Join(db) && j.crypto == crypto && j.fiat == fiat
      && j.row.timestamp > now - DaySeconds && e == PairRate(crypto, j.row.rate, fiat))
  {
    if fault.Some? {
      return Failure(fault.value);
    }
    var rates: GoSlice<PairRate> := Nil;
    var i := 0;
    while i < |scanned|
      invariant 0 <= i <= |scanned|
      invariant rates.Nil? <==> i == 0
      invariant |Elems(rates)| == i
      invariant forall k :: 0 <= k < i ==> Elems(rates)[k] == PairRate(scanned[k].crypto, scanned[k].row.rate, scanned[k].fiat)
    {
      rates := Append(rates, PairRate(scanned[i].crypto, scanned[i].row.rate, scanned[i].fiat));
      i := i + 1;
    }
    ScanMembers(scanned, RecentPairRows(db, crypto, fiat, now));
    forall e ensures e in Elems(rates) <==> exists j :: (j in Join(db) && j.crypto == crypto && j.fiat == fiat
      && j.row.timestamp > now - DaySeconds && e == PairRate(crypto, j.row.rate, fiat))
    {
      if e in Elems(rates) {
        var k :| 0 <= k < |Elems(rates)| && Elems(rates)[k] == e;
        assert scanned[k] in scanned;
      }
      if exists j :: (j in Join(db) && j.crypto == crypto && j.fiat == fiat
        && j.row.timestamp > now - DaySeconds && e == PairRate(crypto, j.row.rate, fiat))
      {
        var j :| j in Join(db) && j.crypto == crypto && j.fiat == fiat
          && j.row.timestamp > now - DaySeconds && e == PairRate(crypto, j.row.rate, fiat);
        assert j in RecentPairRows(db, crypto, fiat, now);
        var k :| 0 <= k < |scanned| && scanned[k] == j;
        assert Elems(rates)[k] == e;
      }
    }
    r := Success(rates);
  }

  /** A row exactly 24 hours old is outside this window (the local server's
      `>=` keeps it). */
  lemma WindowExcludesBoundary(db: Db, j: Joined, now: int)
    requires j in Join(db) && j.row.timestamp == now - DaySeconds
    ensures j !in RecentPairRows(db, j.crypto, j.fiat, now)
  {
  }

  // ---------------------------------------------------------------------
  // Handler

  /** What the environment does during one request: whether opening the
      database fails, and what each query returns. */
  datatype Outcomes = Outcomes(
    openError: Option<string>,
    pair: Result<Rate, string>,
    forCrypto: Result<map<string, Rate>, string>,
    all: Result<map<string, map<string, Rate>>, string>,
    history: Result<GoSlice<PairRate>, string>)

  /** The reply every data branch shares: 500 with the open error returned
      beside it; 400 with `{"error": ...}` on a query error; 200 with the
      answer otherwise. */
  function BranchReply<T>(openError: Option<string>, query: Result<T, string>, body: T -> Body): (rep: Reply)
    ensures openError.Some? ==> rep == Reply(StatusInternalServerError, NoBody, openError)
    ensures openError.None? && query.Failure? ==> rep == Reply(StatusBadRequest, ErrorJson(query.error), None)
    ensures openError.None? && query.Success? ==> rep == Reply(StatusOK, body(query.value), None)
  {
    if openError.Some? then Reply(StatusInternalServerError, NoBody, openError)
    else match query
      case Failure(msg) => Reply(StatusBadRequest, ErrorJson(msg), None)
      case Success(v) => Reply(StatusOK, body(v), None)
  }

  /** `splitPath[i]`: None is Go's index-out-of-range panic. */
  function At(segs: seq<string>, i: nat): (r: Option<string>)
    ensures r.Some? <==> i < |segs|
    ensures r.Some? ==> r.value == segs[i]
  {
    if i < |segs| then Some(segs[i]) else None
  }

  /** HandleRequest on `strings.Split(path, "/")`: the branch for two
      segments reads index 2, the one for one segment index 1, the one for
      three segments index 3 (the crypto it reads first, at index 1 or 2,
      exists); zero segments never occur. Any other count is a bare 404. */
  function HandleRequest(path: string, env: Outcomes): (rep: Reply)
  {
    var segs := Strings.Split(path, '/');
    if |segs| == 2 then
      match At(segs, 2)
      case None => Panic
      case Some(fiat) => BranchReply(env.openError, env.pair, (rate: Rate) => PairJson(segs[1], rate, fiat))
    else if |segs| == 1 then
      match At(segs, 1)
      case None => Panic
      case Some(_) => BranchReply(env.openError, env.forCrypto, (m: map<string, Rate>) => FiatRatesJson(m))
    else if |segs| == 0 then
      BranchReply(env.openError, env.all, (m: map<string, map<string, Rate>>) => AllRatesJson(m))
    else if |segs| == 3 then
      match At(segs, 3)
      case None => Panic
      case Some(_) => BranchReply(env.openError, env.history, (h: GoSlice<PairRate>) => PairListJson(h))
    else Reply(StatusNotFound, NoBody, None)
  }

  /** As written, no path reaches the database: a path with at most two
      slashes panics, any other gets a bare 404, whatever the queries would
      have returned. */
  lemma HandleRequestNeverAnswers(path: string, env: Outcomes)
    ensures Strings.Count(path, '/') <= 2 ==> HandleRequest(path, env) == Panic
    ensures Strings.Count(path, '/') > 2 ==> HandleRequest(path, env) == Reply(StatusNotFound, NoBody, None)
  {
    Strings.SplitLength(path, '/');
  }
}
