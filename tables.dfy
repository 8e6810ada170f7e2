/** The relational store, abstractly: each table is a sequence of records.
    Every SELECT joins ExchangeRates with Cryptocurrencies and FiatCurrencies
    on their ids (`Join`), filters, and hands the rows back in an order the
    database chooses; a scan order is any permutation of the result set
    (`IsScanOf`). The two row-folding loops that both server revisions share
    (`rates[fiat] = rate` and `rates[crypto][fiat] = rate`) live here too. */
module Tables {
  import opened Common

  /** A row of Cryptocurrencies or FiatCurrencies. */
  datatype Currency = Currency(id: int, symbol: string)

  /** A row of ExchangeRates; timestamps are seconds. */
  datatype RateRow = RateRow(cryptoId: int, fiatId: int, rate: Rate, timestamp: int)

  datatype Db = Db(cryptos: seq<Currency>, fiats: seq<Currency>, rates: seq<RateRow>)

  /** A rate row joined with the symbols of its two currencies. */
  datatype Joined = Joined(crypto: string, fiat: string, row: RateRow)

  /** `INTERVAL 24 HOUR` and `24 * time.Hour`, in seconds. */
  const DaySeconds := 24 * 60 * 60

  /** The symbol of the currency with the given id. Ids are primary keys, so
      at most one row matches; the first match is that row. */
  function SymbolOf(table: seq<Currency>, id: int): (r: Option<string>)
    ensures r.None? <==> forall i :: 0 <= i < |table| ==> table[i].id != id
    ensures r.Some? ==> exists i :: 0 <= i < |table| && table[i].id == id && table[i].symbol == r.value
  {
    if table == [] then None
    else if table[0].id == id then Some(table[0].symbol)
    else
      var r := SymbolOf(table[1..], id);
      assert forall i :: 1 <= i < |table| ==> table[i] == table[1..][i - 1];
      r
  }

  function JoinRow(cryptos: seq<Currency>, fiats: seq<Currency>, r: RateRow): seq<Joined>
  {
    match (SymbolOf(cryptos, r.cryptoId), SymbolOf(fiats, r.fiatId))
    case (Some(c), Some(f)) => [Joined(c, f, r)]
    case _ => []
  }

  function JoinRows(cryptos: seq<Currency>, fiats: seq<Currency>, rates: seq<RateRow>): seq<Joined>
  {
    if rates == [] then []
    else JoinRows(cryptos, fiats, rates[..|rates| - 1]) + JoinRow(cryptos, fiats, rates[|rates| - 1])
  }

  /** `ExchangeRates er JOIN Cryptocurrencies c ON ... JOIN FiatCurrencies f ON ...`,
      in table order. */
  function Join(db: Db): seq<Joined>
  {
    JoinRows(db.cryptos, db.fiats, db.rates)
  }

  /** The joined row's symbols are those of its ids. */
  ghost predicate Resolves(db: Db, j: Joined)
  {
    SymbolOf(db.cryptos, j.row.cryptoId) == Some(j.crypto) && SymbolOf(db.fiats, j.row.fiatId) == Some(j.fiat)
  }

  lemma {:induction false} InJoinRows(cryptos: seq<Currency>, fiats: seq<Currency>, rates: seq<RateRow>, j: Joined)
    ensures j in JoinRows(cryptos, fiats, rates) <==>
      j.row in rates && SymbolOf(cryptos, j.row.cryptoId) == Some(j.crypto) && SymbolOf(fiats, j.row.fiatId) == Some(j.fiat)
  {
    if rates != [] {
      var init, last := rates[..|rates| - 1], rates[|rates| - 1];
      InJoinRows(cryptos, fiats, init, j);
      assert rates == init + [last];
    }
  }

  /** A joined row is exactly a stored rate row whose ids resolve to its symbols. */
  lemma InJoin(db: Db, j: Joined)
    ensures j in Join(db) <==> j.row in db.rates && Resolves(db, j)
  {
    InJoinRows(db.cryptos, db.fiats, db.rates, j);
  }

  /** Some joined row exists for the pair. */
  ghost predicate HasPairRows(db: Db, crypto: string, fiat: string)
  {
    exists j :: j in Join(db) && j.crypto == crypto && j.fiat == fiat
  }

  /** The rows satisfying `p`, in order (a WHERE clause). */
  function Filter<T(!new)>(s: seq<T>, p: T -> bool): (r: seq<T>)
    ensures forall x :: x in r <==> x in s && p(x)
  {
    if s == [] then []
    else
      var r := Filter(s[..|s| - 1], p);
      assert s == s[..|s| - 1] + [s[|s| - 1]];
      r + (if p(s[|s| - 1]) then [s[|s| - 1]] else [])
  }

  /** `MAX(timestamp)`: None on no rows, otherwise the greatest timestamp. */
  function MaxTimestamp(rows: seq<RateRow>): (m: Option<int>)
    ensures m.None? <==> rows == []
    ensures m.Some? ==> exists i :: 0 <= i < |rows| && rows[i].timestamp == m.value
    ensures m.Some? ==> forall i :: 0 <= i < |rows| ==> rows[i].timestamp <= m.value
  {
    if rows == [] then None
    else
      var t := rows[0].timestamp;
      assert forall i :: 1 <= i < |rows| ==> rows[i] == rows[1..][i - 1];
      match MaxTimestamp(rows[1..])
      case None => Some(t)
      case Some(m) => Some(if m < t then t else m)
  }

  /** `SELECT MAX(timestamp) FROM ExchangeRates WHERE cryptocurrency_id = .. AND fiat_currency_id = ..` */
  function PairMax(rates: seq<RateRow>, cryptoId: int, fiatId: int): Option<int>
  {
    MaxTimestamp(Filter(rates, (r: RateRow) => r.cryptoId == cryptoId && r.fiatId == fiatId))
  }

  /** `SELECT MAX(timestamp) FROM ExchangeRates WHERE cryptocurrency_id = ..` */
  function CryptoMax(rates: seq<RateRow>, cryptoId: int): Option<int>
  {
    MaxTimestamp(Filter(rates, (r: RateRow) => r.cryptoId == cryptoId))
  }

  /** The maximum of a pair's timestamps bounds every row of that pair. */
  lemma PairMaxBounds(rates: seq<RateRow>, r: RateRow)
    requires r in rates
    ensures PairMax(rates, r.cryptoId, r.fiatId).Some?
    ensures r.timestamp <= PairMax(rates, r.cryptoId, r.fiatId).value
  {
    var rows := Filter(rates, (x: RateRow) => x.cryptoId == r.cryptoId && x.fiatId == r.fiatId);
    assert r in rows;
    var i :| 0 <= i < |rows| && rows[i] == r;
  }

  /** A row the database returns under a per-pair `= MAX(timestamp)` test carries
      the greatest timestamp of its pair. */
  lemma AtPairMaxIsLatest(rates: seq<RateRow>, r: RateRow, other: RateRow)
    requires PairMax(rates, r.cryptoId, r.fiatId) == Some(r.timestamp)
    requires other in rates && other.cryptoId == r.cryptoId && other.fiatId == r.fiatId
    ensures other.timestamp <= r.timestamp
  {
    PairMaxBounds(rates, other);
  }

  /** Whenever a pair has a joined row, it also has a joined row at its pair's
      maximum timestamp, so `= MAX(timestamp)` never loses a pair. */
  lemma LatestOfPairExists(db: Db, j: Joined)
    requires j in Join(db)
    ensures exists k :: (k in Join(db) && k.crypto == j.crypto && k.fiat == j.fiat
      && k.row.cryptoId == j.row.cryptoId && k.row.fiatId == j.row.fiatId
      && PairMax(db.rates, k.row.cryptoId, k.row.fiatId) == Some(k.row.timestamp))
  {
    InJoin(db, j);
    var p := (x: RateRow) => x.cryptoId == j.row.cryptoId && x.fiatId == j.row.fiatId;
    var rows := Filter(db.rates, p);
    assert j.row in rows;
    var m := MaxTimestamp(rows);
    var i :| 0 <= i < |rows| && rows[i].timestamp == m.value;
    var r := rows[i];
    assert r in db.rates && p(r);
    var k := Joined(j.crypto, j.fiat, r);
    InJoin(db, k);
  }

  /** A scan order of a result set: the same rows, in some order. */
  ghost predicate IsScanOf(scanned: seq<Joined>, resultSet: seq<Joined>)
  {
    multiset(scanned) == multiset(resultSet)
  }

  lemma ScanMembers(scanned: seq<Joined>, resultSet: seq<Joined>)
    requires IsScanOf(scanned, resultSet)
    ensures forall j :: j in scanned <==> j in resultSet
    ensures |scanned| == |resultSet|
  {
    forall j ensures j in scanned <==> j in resultSet {
      assert j in scanned <==> j in multiset(scanned);
      assert j in resultSet <==> j in multiset(resultSet);
    }
    assert |multiset(scanned)| == |multiset(resultSet)|;
  }

  // ---------------------------------------------------------------------
  // `rates[fiat] = rate` over scanned rows

  /** The map after scanning `rows` in order, each row overwriting its fiat. */
  function FiatFold(rows: seq<Joined>): map<string, Rate>
  {
    if rows == [] then map[]
    else
      var j := rows[|rows| - 1];
      FiatFold(rows[..|rows| - 1])[j.fiat := j.row.rate]
  }

  /** The fold has a key exactly for every scanned fiat. */
  lemma {:induction false} FiatFoldKeys(rows: seq<Joined>, f: string)
    ensures f in FiatFold(rows) <==> exists i :: 0 <= i < |rows| && rows[i].fiat == f
  {
    if rows != [] {
      var init := rows[..|rows| - 1];
      FiatFoldKeys(init, f);
      assert forall i :: 0 <= i < |init| ==> init[i] == rows[i];
    }
  }

  /** The value of a fiat is the rate of the last scanned row for it. */
  lemma {:induction false} FiatFoldLastWins(rows: seq<Joined>, i: nat)
    requires i < |rows|
    requires forall k :: i < k < |rows| ==> rows[k].fiat != rows[i].fiat
    ensures rows[i].fiat in FiatFold(rows) && FiatFold(rows)[rows[i].fiat] == rows[i].row.rate
  {
    if i < |rows| - 1 {
      var init := rows[..|rows| - 1];
      assert init[i] == rows[i];
      FiatFoldLastWins(init, i);
    }
  }

  /** Every value of the fold is the rate of some scanned row for that fiat. */
  lemma {:induction false} FiatFoldFrom(rows: seq<Joined>, f: string)
    requires f in FiatFold(rows)
    ensures exists j :: j in rows && j.fiat == f && j.row.rate == FiatFold(rows)[f]
  {
    var init := rows[..|rows| - 1];
    var last := rows[|rows| - 1];
    if last.fiat != f {
      FiatFoldFrom(init, f);
      var j :| j in init && j.fiat == f && j.row.rate == FiatFold(init)[f];
      assert j in rows;
    } else {
      assert last in rows;
    }
  }

  /** The loop of GetExchangeRatesForCrypto: `rates[fiat] = rate` per row. */
  method CollectFiatRates(rows: seq<Joined>) returns (rates: map<string, Rate>)
    ensures rates == FiatFold(rows)
  {
    rates := map[];
    var i := 0;
    while i < |rows|
      invariant 0 <= i <= |rows|
      invariant rates == FiatFold(rows[..i])
    {
      assert rows[..i + 1][..i] == rows[..i];
      rates := rates[rows[i].fiat := rows[i].row.rate];
      i := i + 1;
    }
    assert rows[..|rows|] == rows;
  }

  // ---------------------------------------------------------------------
  // `rates[crypto][fiat] = rate` over scanned rows

  /** The nested map after scanning `rows`: a crypto's inner map is created at
      its first row, and each row overwrites its (crypto, fiat) entry. */
  function NestedFold(rows: seq<Joined>): map<string, map<string, Rate>>
  {
    if rows == [] then map[]
    else
      var m := NestedFold(rows[..|rows| - 1]);
      var j := rows[|rows| - 1];
      var inner := if j.crypto in m then m[j.crypto] else map[];
      m[j.crypto := inner[j.fiat := j.row.rate]]
  }

  /** The scanned rows of one crypto, in scan order. */
  function RowsOfCrypto(rows: seq<Joined>, c: string): (r: seq<Joined>)
    ensures forall j :: j in r <==> j in rows && j.crypto == c
  {
    if rows == [] then []
    else
      var j := rows[|rows| - 1];
      assert rows == rows[..|rows| - 1] + [j];
      RowsOfCrypto(rows[..|rows| - 1], c) + (if j.crypto == c then [j] else [])
  }

  /** A crypto has an entry in the nested fold exactly when some row names it. */
  lemma {:induction false} NestedFoldCryptoKeys(rows: seq<Joined>, c: string)
    ensures c in NestedFold(rows) <==> exists i :: 0 <= i < |rows| && rows[i].crypto == c
  {
    if rows != [] {
      var init := rows[..|rows| - 1];
      NestedFoldCryptoKeys(init, c);
      assert forall i :: 0 <= i < |init| ==> init[i] == rows[i];
      assert NestedFold(rows).Keys == NestedFold(init).Keys + {rows[|rows| - 1].crypto};
    }
  }

  /** The nested fold is, per crypto, the flat fold of that crypto's rows. */
  lemma {:induction false} NestedFoldPerCrypto(rows: seq<Joined>, c: string)
    requires c in NestedFold(rows)
    ensures NestedFold(rows)[c] == FiatFold(RowsOfCrypto(rows, c))
  {
    var init := rows[..|rows| - 1];
    var j := rows[|rows| - 1];
    var sub := RowsOfCrypto(init, c);
    var m := NestedFold(init);
    if j.crypto != c {
      assert RowsOfCrypto(rows, c) == sub;
      assert NestedFold(rows)[c] == m[c];
      NestedFoldPerCrypto(init, c);
    } else {
      var whole := RowsOfCrypto(rows, c);
      assert whole == sub + [j];
      assert whole[..|whole| - 1] == sub;
      assert FiatFold(whole) == FiatFold(sub)[j.fiat := j.row.rate];
      if c in m {
        NestedFoldPerCrypto(init, c);
      } else {
        NestedFoldCryptoKeys(init, c);
        assert sub == [];
      }
    }
  }

  /** Every inner map is non-empty: it is created on its crypto's first row. */
  lemma NestedFoldInnerNonEmpty(rows: seq<Joined>, c: string)
    requires c in NestedFold(rows)
    ensures NestedFold(rows)[c] != map[]
  {
    NestedFoldCryptoKeys(rows, c);
    NestedFoldPerCrypto(rows, c);
    var i :| 0 <= i < |rows| && rows[i].crypto == c;
    var sub := RowsOfCrypto(rows, c);
    assert rows[i] in sub;
    var k :| 0 <= k < |sub| && sub[k] == rows[i];
    FiatFoldKeys(sub, rows[i].fiat);
  }

  /** `[c][f]` is present exactly when some scanned row is for (c, f). */
  lemma NestedFoldKeys(rows: seq<Joined>, c: string, f: string)
    ensures (c in NestedFold(rows) && f in NestedFold(rows)[c]) <==>
      exists i :: 0 <= i < |rows| && rows[i].crypto == c && rows[i].fiat == f
  {
    NestedFoldCryptoKeys(rows, c);
    if c in NestedFold(rows) {
      NestedFoldPerCrypto(rows, c);
    }
    var sub := RowsOfCrypto(rows, c);
    FiatFoldKeys(sub, f);
    if exists i :: 0 <= i < |rows| && rows[i].crypto == c && rows[i].fiat == f {
      var i :| 0 <= i < |rows| && rows[i].crypto == c && rows[i].fiat == f;
      assert rows[i] in sub;
      var k :| 0 <= k < |sub| && sub[k] == rows[i];
    }
    if c in NestedFold(rows) && f in NestedFold(rows)[c] {
      var k :| 0 <= k < |sub| && sub[k].fiat == f;
      assert sub[k] in rows;
      var i :| 0 <= i < |rows| && rows[i] == sub[k];
    }
  }

  /** Every value `[c][f]` is the rate of some scanned row for (c, f). */
  lemma NestedFoldFrom(rows: seq<Joined>, c: string, f: string)
    requires c in NestedFold(rows) && f in NestedFold(rows)[c]
    ensures exists j :: j in rows && j.crypto == c && j.fiat == f && j.row.rate == NestedFold(rows)[c][f]
  {
    NestedFoldPerCrypto(rows, c);
    var sub := RowsOfCrypto(rows, c);
    FiatFoldFrom(sub, f);
  }

  /** The rate at `[c][f]` is that of the last scanned row for (c, f). */
  lemma NestedFoldLastWins(rows: seq<Joined>, i: nat)
    requires i < |rows|
    requires forall k :: i < k < |rows| ==> rows[k].crypto != rows[i].crypto || rows[k].fiat != rows[i].fiat
    ensures rows[i].crypto in NestedFold(rows)
    ensures rows[i].fiat in NestedFold(rows)[rows[i].crypto]
    ensures NestedFold(rows)[rows[i].crypto][rows[i].fiat] == rows[i].row.rate
  {
    var c, f := rows[i].crypto, rows[i].fiat;
    NestedFoldKeys(rows, c, f);
    NestedFoldPerCrypto(rows, c);
    var sub := RowsOfCrypto(rows, c);
    // position of rows[i] inside sub, and no later row of sub has fiat f
    SubLastWins(rows, c, i);
    var k :| 0 <= k < |sub| && sub[k] == rows[i] && forall q :: k < q < |sub| ==> sub[q].fiat != f;
    FiatFoldLastWins(sub, k);
  }

  /** A crypto's row that no later row of the same pair follows stays last
      for that pair inside `RowsOfCrypto`. */
  lemma {:induction false} SubLastWins(rows: seq<Joined>, c: string, i: nat)
    requires i < |rows| && rows[i].crypto == c
    requires forall k :: i < k < |rows| ==> rows[k].crypto != rows[i].crypto || rows[k].fiat != rows[i].fiat
    ensures exists k :: (0 <= k < |RowsOfCrypto(rows, c)| && RowsOfCrypto(rows, c)[k] == rows[i]
      && forall q :: k < q < |RowsOfCrypto(rows, c)| ==> RowsOfCrypto(rows, c)[q].fiat != rows[i].fiat)
  {
    var init := rows[..|rows| - 1];
    var j := rows[|rows| - 1];
    var sub := RowsOfCrypto(init, c);
    if i == |rows| - 1 {
      assert RowsOfCrypto(rows, c) == sub + [j];
      assert (sub + [j])[|sub|] == j;
    } else {
      assert init[i] == rows[i];
      SubLastWins(init, c, i);
      var k :| 0 <= k < |sub| && sub[k] == rows[i] && forall q :: k < q < |sub| ==> sub[q].fiat != rows[i].fiat;
      var whole := RowsOfCrypto(rows, c);
      assert whole == sub + (if j.crypto == c then [j] else []);
      assert whole[k] == rows[i];
      forall q | k < q < |whole| ensures whole[q].fiat != rows[i].fiat {
        if q < |sub| { assert whole[q] == sub[q]; } else { assert whole[q] == j; }
      }
    }
  }

  /** The loop of GetAllExchangeRates: the inner map is made on a crypto's
      first row, then `rates[crypto][fiat] = rate`. */
  method CollectAllRates(rows: seq<Joined>) returns (rates: map<string, map<string, Rate>>)
    ensures rates == NestedFold(rows)
  {
    rates := map[];
    var i := 0;
    while i < |rows|
      invariant 0 <= i <= |rows|
      invariant rates == NestedFold(rows[..i])
    {
      assert rows[..i + 1][..i] == rows[..i];
      var j := rows[i];
      if j.crypto !in rates {
        rates := rates[j.crypto := map[]];
      }
      rates := rates[j.crypto := rates[j.crypto][j.fiat := j.row.rate]];
      i := i + 1;
    }
    assert rows[..|rows|] == rows;
  }
}
