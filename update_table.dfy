/** The refresh Lambda (netlify/functions/updatetable/main.go): load the
    symbol→id mappings, turn the price payload into rows for the pairs whose
    two symbols have non-zero ids, and insert them one Exec at a time without
    a transaction. */
module UpdateTable {
  import opened Common
  import opened Tables

  /** One element of `exchangeRates`. */
  datatype ExchangeRate = ExchangeRate(cryptoId: int, fiatId: int, rate: Rate)

  /** The decoded payload: crypto symbol → fiat symbol → rate. */
  type ApiResponse = map<string, map<string, Rate>>

  // ---------------------------------------------------------------------
  // Mappings

  /** `mappings[symbol] = id` over the scanned rows: every scanned symbol is
      a key, and a later row for the same symbol overwrites an earlier one. */
  function MappingOf(rows: seq<Currency>): (m: map<string, int>)
    ensures forall s :: s in m <==> exists i :: 0 <= i < |rows| && rows[i].symbol == s
  {
    if rows == [] then map[]
    else
      var init := rows[..|rows| - 1];
      assert forall i :: 0 <= i < |init| ==> init[i] == rows[i];
      MappingOf(init)[rows[|rows| - 1].symbol := rows[|rows| - 1].id]
  }

  /** The id stored for a symbol is that of its last scanned row. */
  lemma {:induction false} MappingOfLastWins(rows: seq<Currency>, i: nat)
    requires i < |rows|
    requires forall k :: i < k < |rows| ==> rows[k].symbol != rows[i].symbol
    ensures MappingOf(rows)[rows[i].symbol] == rows[i].id
  {
    if i < |rows| - 1 {
      var init := rows[..|rows| - 1];
      assert forall k :: i < k < |init| ==> init[k] == rows[k];
      MappingOfLastWins(init, i);
    }
  }

  /** Symbols are unique in a currency table. */
  predicate UniqueSymbols(rows: seq<Currency>)
  {
    forall i, k :: 0 <= i < |rows| && 0 <= k < |rows| && i != k ==> rows[i].symbol != rows[k].symbol
  }

  /** Some occurrence of `x` has no later one. */
  lemma {:induction false} LastOccurrence(s: seq<Currency>, x: Currency)
    requires x in s
    ensures exists i :: 0 <= i < |s| && s[i] == x && forall k :: i < k < |s| ==> s[k] != x
  {
    if s[|s| - 1] != x {
      var init := s[..|s| - 1];
      assert x in init by {
        var j :| 0 <= j < |s| && s[j] == x;
        assert init[j] == x;
      }
      LastOccurrence(init, x);
      var i :| 0 <= i < |init| && init[i] == x && forall k :: i < k < |init| ==> init[k] != x;
      assert s[i] == x && forall k :: i < k < |s| ==> s[k] != x;
    }
  }

  /** With unique symbols every row's id is stored under its symbol, so the
      order the rows are scanned in does not matter. */
  lemma MappingOfScanOrder(table: seq<Currency>, scanned: seq<Currency>)
    requires UniqueSymbols(table) && multiset(scanned) == multiset(table)
    ensures forall c :: c in table ==> c.symbol in MappingOf(scanned) && MappingOf(scanned)[c.symbol] == c.id
    ensures forall s :: s in MappingOf(scanned) <==> exists c :: c in table && c.symbol == s
  {
    forall c | c in table ensures c.symbol in MappingOf(scanned) && MappingOf(scanned)[c.symbol] == c.id {
      assert c in multiset(scanned);
      LastOccurrence(scanned, c);
      var i :| 0 <= i < |scanned| && scanned[i] == c && forall k :: i < k < |scanned| ==> scanned[k] != c;
      forall k | i < k < |scanned| ensures scanned[k].symbol != c.symbol {
        assert scanned[k] in multiset(table);
        var a :| 0 <= a < |table| && table[a] == c;
        var b :| 0 <= b < |table| && table[b] == scanned[k];
      }
      MappingOfLastWins(scanned, i);
    }
    forall s ensures s in MappingOf(scanned) <==> exists c :: c in table && c.symbol == s {
      if s in MappingOf(scanned) {
        var i :| 0 <= i < |scanned| && scanned[i].symbol == s;
        assert scanned[i] in multiset(table);
      }
    }
  }

  /** GetCryptoMappings and GetFiatMappings: the scan loop, or the driver's
      error. */
  method GetMappings(scanned: seq<Currency>, fault: Option<string>) returns (r: Result<map<string, int>, string>)
    ensures fault.Some? ==> r == Failure(fault.value)
    ensures fault.None? ==> r == Success(MappingOf(scanned))
  {
    if fault.Some? {
      return Failure(fault.value);
    }
    var mappings: map<string, int> := map[];
    var i := 0;
    while i < |scanned|
      invariant 0 <= i <= |scanned|
      invariant mappings == MappingOf(scanned[..i])
    {
      assert scanned[..i + 1][..i] == scanned[..i];
      mappings := mappings[scanned[i].symbol := scanned[i].id];
      i := i + 1;
    }
    assert scanned[..i] == scanned;
    r := Success(mappings);
  }

  // ---------------------------------------------------------------------
  // Building the rows

  /** Go's `m[k]`: the zero value for an absent key. */
  function GoGet(m: map<string, int>, k: string): (v: int)
    ensures k !in m ==> v == 0
    ensures k in m ==> v == m[k]
  {
    if k in m then m[k] else 0
  }

  /** An API entry survives the filter when both its symbols map to a
      non-zero id (zero is both "absent" and a stored id of 0). */
  predicate Eligible(api: ApiResponse, cm: map<string, int>, fm: map<string, int>, p: (string, string))
  {
    p.0 in api && p.1 in api[p.0] && GoGet(cm, p.0) != 0 && GoGet(fm, p.1) != 0
  }

  /** The element appended for an entry. */
  function RowFor(api: ApiResponse, cm: map<string, int>, fm: map<string, int>, p: (string, string)): ExchangeRate
    requires p.0 in api && p.1 in api[p.0]
  {
    ExchangeRate(GoGet(cm, p.0), GoGet(fm, p.1), api[p.0][p.1])
  }

  /** `origin` lists, without repetition, exactly the eligible entries, and
      `rows` holds their elements in that order. */
  ghost predicate BuiltFrom(api: ApiResponse, cm: map<string, int>, fm: map<string, int>,
                            rows: seq<ExchangeRate>, origin: seq<(string, string)>)
  {
    && |rows| == |origin|
    && (forall i :: 0 <= i < |origin| ==> Eligible(api, cm, fm, origin[i]) && rows[i] == RowFor(api, cm, fm, origin[i]))
    && (forall p :: Eligible(api, cm, fm, p) ==> p in origin)
    && (forall i, k :: 0 <= i < k < |origin| ==> origin[i] != origin[k])
  }

  /** The nested `range` loops of HandleRequest. Go picks the iteration order,
      so the model picks it too (`:|`); the result is pinned down up to that
      order: one element per eligible entry and none for any other. */
  method BuildExchangeRates(api: ApiResponse, cm: map<string, int>, fm: map<string, int>)
    returns (rates: GoSlice<ExchangeRate>, ghost origin: seq<(string, string)>)
    ensures BuiltFrom(api, cm, fm, Elems(rates), origin)
    ensures rates.Nil? <==> origin == []
    ensures forall r :: r in Elems(rates) <==> exists p :: Eligible(api, cm, fm, p) && r == RowFor(api, cm, fm, p)
  {
    rates := Nil;
    origin := [];
    var pending := api.Keys;
    while pending != {}
      invariant pending <= api.Keys
      invariant |Elems(rates)| == |origin| && (rates.Nil? <==> origin == [])
      invariant forall i :: 0 <= i < |origin| ==> (Eligible(api, cm, fm, origin[i])
        && Elems(rates)[i] == RowFor(api, cm, fm, origin[i]) && origin[i].0 !in pending)
      invariant forall p :: Eligible(api, cm, fm, p) && p.0 !in pending ==> p in origin
      invariant forall i, k :: 0 <= i < k < |origin| ==> origin[i] != origin[k]
      decreases pending
    {
      var c :| c in pending;
      var cryptoId := GoGet(cm, c);
      if cryptoId != 0 {
        var fs := api[c].Keys;
        while fs != {}
          invariant fs <= api[c].Keys
          invariant |Elems(rates)| == |origin| && (rates.Nil? <==> origin == [])
          invariant forall i :: 0 <= i < |origin| ==> (Eligible(api, cm, fm, origin[i])
            && Elems(rates)[i] == RowFor(api, cm, fm, origin[i])
            && (origin[i].0 !in pending || (origin[i].0 == c && origin[i].1 !in fs)))
          invariant forall p :: Eligible(api, cm, fm, p) && (p.0 !in pending || (p.0 == c && p.1 !in fs)) ==> p in origin
          invariant forall i, k :: 0 <= i < k < |origin| ==> origin[i] != origin[k]
          decreases fs
        {
          var f :| f in fs;
          var fiatId := GoGet(fm, f);
          if fiatId != 0 {
            assert forall i :: 0 <= i < |origin| ==> origin[i] != (c, f);
            rates := Append(rates, ExchangeRate(cryptoId, fiatId, api[c][f]));
            origin := origin + [(c, f)];
          }
          fs := fs - {f};
        }
      }
      pending := pending - {c};
    }
    forall r | r in Elems(rates) ensures exists p :: Eligible(api, cm, fm, p) && r == RowFor(api, cm, fm, p) {
      var i :| 0 <= i < |Elems(rates)| && Elems(rates)[i] == r;
    }
    forall r | (exists p :: Eligible(api, cm, fm, p) && r == RowFor(api, cm, fm, p)) ensures r in Elems(rates) {
      var p :| Eligible(api, cm, fm, p) && r == RowFor(api, cm, fm, p);
      var i :| 0 <= i < |origin| && origin[i] == p;
    }
  }

  /** A currency whose stored id is 0 never gets a row, although its symbol
      is mapped. */
  lemma ZeroIdIsSkipped(api: ApiResponse, cm: map<string, int>, fm: map<string, int>,
                        rows: seq<ExchangeRate>, origin: seq<(string, string)>, c: string)
    requires BuiltFrom(api, cm, fm, rows, origin)
    requires c in cm && cm[c] == 0
    ensures forall i :: 0 <= i < |origin| ==> origin[i].0 != c
    ensures forall r :: r in rows ==> r.cryptoId != 0
  {
    forall r | r in rows ensures r.cryptoId != 0 {
      var i :| 0 <= i < |rows| && rows[i] == r;
    }
  }

  // ---------------------------------------------------------------------
  // Inserting

  /** The rows an INSERT without a timestamp column adds: the column's
      default gives each the time of the insert, `stamp`. */
  function Stamped(rates: seq<ExchangeRate>, stamp: int): seq<RateRow>
  {
    if rates == [] then []
    else
      var last := rates[|rates| - 1];
      Stamped(rates[..|rates| - 1], stamp) + [RateRow(last.cryptoId, last.fiatId, last.rate, stamp)]
  }

  lemma {:induction false} StampedRows(rates: seq<ExchangeRate>, stamp: int)
    ensures |Stamped(rates, stamp)| == |rates|
    ensures forall i :: 0 <= i < |rates| ==>
      Stamped(rates, stamp)[i] == RateRow(rates[i].cryptoId, rates[i].fiatId, rates[i].rate, stamp)
  {
    if rates != [] {
      var init := rates[..|rates| - 1];
      StampedRows(init, stamp);
      assert forall i :: 0 <= i < |init| ==> init[i] == rates[i];
    }
  }

  /** The index of the first Exec that fails among the first `n`. */
  function FirstFault(faults: map<nat, string>, n: nat): (r: Option<nat>)
    ensures r.Some? ==> r.value < n && r.value in faults && forall i :: 0 <= i < r.value ==> i !in faults
    ensures r.None? ==> forall i :: 0 <= i < n ==> i !in faults
  {
    if n == 0 then None
    else match FirstFault(faults, n - 1)
      case Some(k) => Some(k)
      case None => if n - 1 in faults then Some(n - 1) else None
  }

  /** InsertExchangeRates: nothing at all for an empty list (no Prepare);
      the Prepare error; or one Exec per element in order, stopping at the
      first failing one (Exec `i` fails when `i in execFaults`). Without a
      transaction the rows before the failure stay. */
  method InsertExchangeRates(table: seq<RateRow>, rates: GoSlice<ExchangeRate>, prepareFault: Option<string>,
                             execFaults: map<nat, string>, stamp: int)
    returns (after: seq<RateRow>, err: Option<string>)
    ensures Elems(rates) == [] ==> after == table && err.None?
    ensures Elems(rates) != [] && prepareFault.Some? ==> after == table && err == prepareFault
    ensures Elems(rates) != [] && prepareFault.None? && FirstFault(execFaults, |Elems(rates)|).None? ==>
      after == table + Stamped(Elems(rates), stamp) && err.None?
    ensures Elems(rates) != [] && prepareFault.None? && FirstFault(execFaults, |Elems(rates)|).Some? ==>
      after == table + Stamped(Elems(rates)[..FirstFault(execFaults, |Elems(rates)|).value], stamp)
      && err == Some(execFaults[FirstFault(execFaults, |Elems(rates)|).value])
  {
    var xs := Elems(rates);
    if xs == [] {
      return table, None;
    }
    if prepareFault.Some? {
      return table, prepareFault;
    }
    after := table;
    var i := 0;
    while i < |xs|
      invariant 0 <= i <= |xs|
      invariant after == table + Stamped(xs[..i], stamp)
      invariant forall k :: 0 <= k < i ==> k !in execFaults
    {
      if i in execFaults {
        assert FirstFault(execFaults, |xs|) == Some(i);
        return after, Some(execFaults[i]);
      }
      assert xs[..i + 1][..i] == xs[..i];
      after := after + [RateRow(xs[i].cryptoId, xs[i].fiatId, xs[i].rate, stamp)];
      i := i + 1;
    }
    assert xs[..i] == xs;
    err := None;
  }

  // ---------------------------------------------------------------------
  // The refresh request

  /** What the price API does: whether the GET fails, its status code and
      the decoded body (or the decoder's error). */
  datatype Upstream = Upstream(getError: Option<string>, status: int, decoded: Result<ApiResponse, string>)

  /** What the database does: connect (with Ping), the two mapping scans and
      their errors, the Prepare error and the failing Execs. */
  datatype Storage = Storage(
    connectError: Option<string>,
    cryptoScan: seq<Currency>, cryptoFault: Option<string>,
    fiatScan: seq<Currency>, fiatFault: Option<string>,
    prepareFault: Option<string>, execFaults: map<nat, string>)

  function StatusErrorText(status: int): string
  {
    "API call failed with status code: " + IntToString(status)
  }

  /** How many rows an insert of `n` rows leaves in the table: none for an
      empty batch or a failed Prepare, the rows before the first failing
      Exec, or all of them. */
  function InsertedCount(n: nat, prepareFault: Option<string>, execFaults: map<nat, string>): (k: nat)
    ensures k <= n
    ensures k == n <==> n == 0 || (prepareFault.None? && FirstFault(execFaults, n).None?)
  {
    if n == 0 || prepareFault.Some? then 0
    else match FirstFault(execFaults, n)
      case None => n
      case Some(i) => i
  }

  /** Every step before the insert succeeded. */
  predicate ReachesInsert(up: Upstream, st: Storage)
  {
    st.connectError.None? && up.getError.None? && up.status == StatusOK && up.decoded.Success?
    && st.cryptoFault.None? && st.fiatFault.None?
  }

  /** `after` is `table` followed by stamped rows for the first entries of
      `origin`, in order. */
  ghost predicate ExtendsWith(table: seq<RateRow>, after: seq<RateRow>, api: ApiResponse, cm: map<string, int>,
                              fm: map<string, int>, origin: seq<(string, string)>, stamp: int)
  {
    && (forall i :: 0 <= i < |origin| ==> Eligible(api, cm, fm, origin[i]))
    && |table| <= |after| <= |table| + |origin|
    && after[..|table|] == table
    && (forall k :: |table| <= k < |after| ==>
          var x := RowFor(api, cm, fm, origin[k - |table|]);
          after[k] == RateRow(x.cryptoId, x.fiatId, x.rate, stamp))
  }

  lemma StampedPrefixExtends(table: seq<RateRow>, xs: seq<ExchangeRate>, n: nat, api: ApiResponse,
                             cm: map<string, int>, fm: map<string, int>, origin: seq<(string, string)>, stamp: int)
    requires BuiltFrom(api, cm, fm, xs, origin) && n <= |xs|
    ensures ExtendsWith(table, table + Stamped(xs[..n], stamp), api, cm, fm, origin, stamp)
  {
    StampedRows(xs[..n], stamp);
    assert (table + Stamped(xs[..n], stamp))[..|table|] == table;
  }

  /** HandleRequest: each failure before the insert is a 500 carrying the
      error and leaves the table as it was (a non-200 status names its code);
      once the insert is reached, the table grows by stamped rows for a
      prefix of the eligible entries, all of them when the reply is 200. */
  method Refresh(table: seq<RateRow>, up: Upstream, st: Storage, stamp: int)
    returns (rep: Reply, after: seq<RateRow>, ghost origin: seq<(string, string)>)
    ensures st.connectError.Some? ==> rep == Reply(StatusInternalServerError, NoBody, st.connectError) && after == table
    ensures st.connectError.None? && up.getError.Some? ==>
      rep == Reply(StatusInternalServerError, NoBody, up.getError) && after == table
    ensures st.connectError.None? && up.getError.None? && up.status != StatusOK ==>
      rep == Reply(StatusInternalServerError, NoBody, Some(StatusErrorText(up.status))) && after == table
    ensures st.connectError.None? && up.getError.None? && up.status == StatusOK && up.decoded.Failure? ==>
      rep == Reply(StatusInternalServerError, NoBody, Some(up.decoded.error)) && after == table
    ensures (st.connectError.None? && up.getError.None? && up.status == StatusOK && up.decoded.Success?
      && st.cryptoFault.Some?) ==> rep == Reply(StatusInternalServerError, NoBody, st.cryptoFault) && after == table
    ensures (st.connectError.None? && up.getError.None? && up.status == StatusOK && up.decoded.Success?
      && st.cryptoFault.None? && st.fiatFault.Some?) ==>
      rep == Reply(StatusInternalServerError, NoBody, st.fiatFault) && after == table
    ensures ReachesInsert(up, st) ==>
      && (forall p :: Eligible(up.decoded.value, MappingOf(st.cryptoScan), MappingOf(st.fiatScan), p) ==> p in origin)
      && (forall i, k :: 0 <= i < k < |origin| ==> origin[i] != origin[k])
      && ExtendsWith(table, after, up.decoded.value, MappingOf(st.cryptoScan), MappingOf(st.fiatScan), origin, stamp)
      && (rep == Reply(StatusOK, NoBody, None) || (rep.Reply? && rep.status == StatusInternalServerError && rep.err.Some?))
      && (rep == Reply(StatusOK, NoBody, None) <==>
            origin == [] || (st.prepareFault.None? && FirstFault(st.execFaults, |origin|).None?))
      && (origin != [] && st.prepareFault.Some? ==> rep == Reply(StatusInternalServerError, NoBody, st.prepareFault))
      && (origin != [] && st.prepareFault.None? && FirstFault(st.execFaults, |origin|).Some? ==>
            rep == Reply(StatusInternalServerError, NoBody, Some(st.execFaults[FirstFault(st.execFaults, |origin|).value])))
      && |after| == |table| + InsertedCount(|origin|, st.prepareFault, st.execFaults)
  {
    origin := [];
    if st.connectError.Some? {
      return Reply(StatusInternalServerError, NoBody, st.connectError), table, origin;
    }
    if up.getError.Some? {
      return Reply(StatusInternalServerError, NoBody, up.getError), table, origin;
    }
    if up.status != StatusOK {
      return Reply(StatusInternalServerError, NoBody, Some(StatusErrorText(up.status))), table, origin;
    }
    if up.decoded.Failure? {
      return Reply(StatusInternalServerError, NoBody, Some(up.decoded.error)), table, origin;
    }
    var api := up.decoded.value;
    var cryptoMappings := GetMappings(st.cryptoScan, st.cryptoFault);
    if cryptoMappings.Failure? {
      return Reply(StatusInternalServerError, NoBody, Some(cryptoMappings.error)), table, origin;
    }
    var fiatMappings := GetMappings(st.fiatScan, st.fiatFault);
    if fiatMappings.Failure? {
      return Reply(StatusInternalServerError, NoBody, Some(fiatMappings.error)), table, origin;
    }
    var cm, fm := cryptoMappings.value, fiatMappings.value;
    var rates;
    rates, origin := BuildExchangeRates(api, cm, fm);
    var err;
    after, err := InsertExchangeRates(table, rates, st.prepareFault, st.execFaults, stamp);
    var xs := Elems(rates);
    var n := InsertedCount(|xs|, st.prepareFault, st.execFaults);
    assert after == table + Stamped(xs[..n], stamp) by {
      if xs == [] || st.prepareFault.Some? {
        assert xs[..0] == [];
      } else if FirstFault(st.execFaults, |xs|).None? {
        assert xs[..n] == xs;
      }
    }
    StampedPrefixExtends(table, xs, n, api, cm, fm, origin, stamp);
    StampedRows(xs[..n], stamp);
    if err.Some? {
      rep := Reply(StatusInternalServerError, NoBody, err);
    } else {
      assert n == |xs|;
      rep := Reply(StatusOK, NoBody, None);
    }
  }
}
