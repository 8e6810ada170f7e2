/** The local refresh script (cryptolocal/filldata.py): symbol→id dicts
    built by comprehension, the price URL built from their keys, the
    `exchange_rates` dict keyed by id pair, and one all-or-nothing bulk
    insert per cycle. */
module FillData {
  import opened Common
  import opened Tables
  import Strings
  import opened PyDict

  const ApiBaseUrl := "https://min-api.cryptocompare.com/data/pricemulti"

  // ---------------------------------------------------------------------
  // fetch_symbol_id_mapping

  /** `{row[0]: row[1] for row in results}`: every fetched symbol is a key
      (in order of first appearance). */
  function SymbolIdMapping(results: seq<Currency>): (m: Dict<string, int>)
    ensures Valid(m)
    ensures forall s :: s in Keys(m) <==> exists i :: 0 <= i < |results| && results[i].symbol == s
  {
    if results == [] then Empty()
    else
      var init := results[..|results| - 1];
      var last := results[|results| - 1];
      var m0 := SymbolIdMapping(init);
      var m := Set(m0, last.symbol, last.id);
      assert Keys(m) == Keys(m0) || Keys(m) == Keys(m0) + [last.symbol];
      assert forall s :: s in Keys(m) <==> s in Keys(m0) || s == last.symbol;
      assert forall i :: 0 <= i < |init| ==> init[i] == results[i];
      m
  }

  /** A later row for the same symbol overwrites an earlier one. */
  lemma {:induction false} SymbolIdMappingLastWins(results: seq<Currency>, i: nat)
    requires i < |results|
    requires forall k :: i < k < |results| ==> results[k].symbol != results[i].symbol
    ensures Get(SymbolIdMapping(results), results[i].symbol) == Some(results[i].id)
  {
    if i < |results| - 1 {
      var init := results[..|results| - 1];
      assert forall k :: i < k < |init| ==> init[k] == results[k];
      SymbolIdMappingLastWins(init, i);
    } else {
      GetSet(SymbolIdMapping(results[..i]), results[i].symbol, results[i].id);
    }
  }

  // ---------------------------------------------------------------------
  // The request URL

  /** `f"{api_base_url}?fsyms={crypto_symbols}&tsyms={fiat_symbols}"` with
      the comma-joined keys of the two mappings. */
  function ApiUrl(cryptoMapping: Dict<string, int>, fiatMapping: Dict<string, int>): string
  {
    ApiBaseUrl + "?fsyms=" + Strings.Join(Keys(cryptoMapping), ',')
      + "&tsyms=" + Strings.Join(Keys(fiatMapping), ',')
  }

  /** Symbols that survive the URL: no ',' and no '&' inside. */
  predicate PlainSymbols(symbols: seq<string>)
  {
    forall i :: 0 <= i < |symbols| ==> ',' !in symbols[i] && '&' !in symbols[i]
  }

  /** The URL carries exactly the mapping keys, in order: `fsyms` splits on
      ',' back into the crypto keys and `tsyms` into the fiat keys. */
  lemma ApiUrlCarriesKeys(cryptoMapping: Dict<string, int>, fiatMapping: Dict<string, int>)
    requires |Keys(cryptoMapping)| >= 1 && |Keys(fiatMapping)| >= 1
    requires PlainSymbols(Keys(cryptoMapping)) && PlainSymbols(Keys(fiatMapping))
    ensures var query := Strings.TrimPrefix(ApiUrl(cryptoMapping, fiatMapping), ApiBaseUrl + "?fsyms=");
      var fields := Strings.Split(query, '&');
      && |fields| == 2
      && Strings.Split(fields[0], ',') == Keys(cryptoMapping)
      && Strings.Split(Strings.TrimPrefix(fields[1], "tsyms="), ',') == Keys(fiatMapping)
  {
    var cs, fs := Keys(cryptoMapping), Keys(fiatMapping);
    var cj, fj := Strings.Join(cs, ','), Strings.Join(fs, ',');
    var prefix := ApiBaseUrl + "?fsyms=";
    var rest := cj + ['&'] + ("tsyms=" + fj);
    assert ApiUrl(cryptoMapping, fiatMapping) == prefix + rest;
    Strings.TrimPrefixConcat(prefix, rest);
    Strings.JoinExcludes(cs, ',', '&');
    Strings.JoinExcludes(fs, ',', '&');
    Strings.SplitAround(cj, "tsyms=" + fj, '&');
    Strings.SplitNoSep(cj, '&');
    assert '&' !in "tsyms=" + fj;
    Strings.SplitNoSep("tsyms=" + fj, '&');
    Strings.TrimPrefixConcat("tsyms=", fj);
    Strings.SplitJoin(cs, ',');
    Strings.SplitJoin(fs, ',');
  }

  // ---------------------------------------------------------------------
  // Building exchange_rates

  /** The decoded payload: crypto symbol → fiat symbol → rate, in JSON order. */
  type Payload = Dict<string, Dict<string, Rate>>

  /** One `exchange_rates[key] = rate` assignment. */
  type Assignment = ((int, int), Rate)

  /** The assignments one crypto's inner loop makes, in order: one per fiat
      whose `.get` is not None. */
  function FiatAssignments(cid: int, rates: seq<(string, Rate)>, fiatMapping: Dict<string, int>): seq<Assignment>
  {
    if rates == [] then []
    else
      var last := rates[|rates| - 1];
      FiatAssignments(cid, rates[..|rates| - 1], fiatMapping)
        + match Get(fiatMapping, last.0) case Some(fid) => [((cid, fid), last.1)] case None => []
  }

  /** All assignments of the nested loops, in order. */
  function Assignments(data: seq<(string, Dict<string, Rate>)>, cryptoMapping: Dict<string, int>,
                       fiatMapping: Dict<string, int>): seq<Assignment>
  {
    if data == [] then []
    else
      var last := data[|data| - 1];
      Assignments(data[..|data| - 1], cryptoMapping, fiatMapping)
        + match Get(cryptoMapping, last.0) case Some(cid) => FiatAssignments(cid, last.1.entries, fiatMapping) case None => []
  }

  /** Performing assignments on a dict, in order. */
  function Apply(d: Dict<(int, int), Rate>, assigns: seq<Assignment>): (r: Dict<(int, int), Rate>)
    ensures Valid(d) ==> Valid(r)
  {
    if assigns == [] then d
    else
      var last := assigns[|assigns| - 1];
      Set(Apply(d, assigns[..|assigns| - 1]), last.0, last.1)
  }

  lemma AssignmentsStep(data: seq<(string, Dict<string, Rate>)>, cryptoMapping: Dict<string, int>,
                        fiatMapping: Dict<string, int>, i: nat)
    requires i < |data|
    ensures Assignments(data[..i + 1], cryptoMapping, fiatMapping) == Assignments(data[..i], cryptoMapping, fiatMapping)
      + match Get(cryptoMapping, data[i].0) case Some(cid) => FiatAssignments(cid, data[i].1.entries, fiatMapping) case None => []
  {
    assert data[..i + 1][..i] == data[..i];
  }

  lemma FiatAssignmentsStep(cid: int, rates: seq<(string, Rate)>, fiatMapping: Dict<string, int>, j: nat)
    requires j < |rates|
    ensures FiatAssignments(cid, rates[..j + 1], fiatMapping) == FiatAssignments(cid, rates[..j], fiatMapping)
      + match Get(fiatMapping, rates[j].0) case Some(fid) => [((cid, fid), rates[j].1)] case None => []
  {
    assert rates[..j + 1][..j] == rates[..j];
  }

  lemma ApplyStep(d: Dict<(int, int), Rate>, done: seq<Assignment>, x: Assignment)
    ensures Apply(d, done + [x]) == Set(Apply(d, done), x.0, x.1)
  {
    assert (done + [x])[..|done|] == done;
  }

  lemma SplitLast<T>(first: seq<T>, second: seq<T>)
    requires second != []
    ensures second == second[..|second| - 1] + [second[|second| - 1]]
    ensures first + second == (first + second[..|second| - 1]) + [second[|second| - 1]]
  {
  }

  /** Performing two batches in turn is performing their concatenation. */
  lemma {:induction false} ApplyConcat(d: Dict<(int, int), Rate>, first: seq<Assignment>, second: seq<Assignment>)
    ensures Apply(d, first + second) == Apply(Apply(d, first), second)
  {
    if second == [] {
      assert first + second == first;
    } else {
      var init := second[..|second| - 1];
      var last := second[|second| - 1];
      SplitLast(first, second);
      ApplyConcat(d, first, init);
      ApplyStep(d, first + init, last);
      ApplyStep(Apply(d, first), init, last);
    }
  }

  /** The inner loop of `main`: the rates of one crypto whose id is known. */
  method SetFiatRates(rates: Dict<(int, int), Rate>, cid: int, inner: Dict<string, Rate>, fiatMapping: Dict<string, int>)
    returns (after: Dict<(int, int), Rate>)
    ensures after == Apply(rates, FiatAssignments(cid, inner.entries, fiatMapping))
  {
    after := rates;
    var j := 0;
    assert inner.entries[..0] == [];
    while j < |inner.entries|
      invariant 0 <= j <= |inner.entries|
      invariant after == Apply(rates, FiatAssignments(cid, inner.entries[..j], fiatMapping))
    {
      FiatAssignmentsStep(cid, inner.entries, fiatMapping, j);
      var fiatCurrency, rate := inner.entries[j].0, inner.entries[j].1;
      var fid := Get(fiatMapping, fiatCurrency);
      ghost var done := FiatAssignments(cid, inner.entries[..j], fiatMapping);
      if fid.Some? {
        ApplyStep(rates, done, ((cid, fid.value), rate));
        after := Set(after, (cid, fid.value), rate);
      } else {
        assert done + [] == done;
      }
      j := j + 1;
    }
    assert inner.entries[..j] == inner.entries;
  }

  /** The nested loops of `main` that fill `exchange_rates`. */
  method BuildExchangeRates(data: Payload, cryptoMapping: Dict<string, int>, fiatMapping: Dict<string, int>)
    returns (rates: Dict<(int, int), Rate>)
    ensures rates == Apply(Empty(), Assignments(data.entries, cryptoMapping, fiatMapping))
  {
    rates := Empty();
    var i := 0;
    while i < |data.entries|
      invariant 0 <= i <= |data.entries|
      invariant rates == Apply(Empty(), Assignments(data.entries[..i], cryptoMapping, fiatMapping))
    {
      AssignmentsStep(data.entries, cryptoMapping, fiatMapping, i);
      ghost var before := Assignments(data.entries[..i], cryptoMapping, fiatMapping);
      var cryptocurrency, inner := data.entries[i].0, data.entries[i].1;
      var cid := Get(cryptoMapping, cryptocurrency);
      if cid.Some? {
        ApplyConcat(Empty(), before, FiatAssignments(cid.value, inner.entries, fiatMapping));
        rates := SetFiatRates(rates, cid.value, inner, fiatMapping);
      } else {
        assert before + [] == before;
      }
      i := i + 1;
    }
    assert data.entries[..i] == data.entries;
  }

  /** A pair of ids is a key after the assignments exactly when some
      assignment names it. */
  lemma {:induction false} ApplyKeys(assigns: seq<Assignment>, key: (int, int))
    ensures key in Keys(Apply(Empty(), assigns)) <==> exists i :: 0 <= i < |assigns| && assigns[i].0 == key
  {
    if assigns != [] {
      var init := assigns[..|assigns| - 1];
      var last := assigns[|assigns| - 1];
      ApplyKeys(init, key);
      var m0 := Apply(Empty(), init);
      var m := Set(m0, last.0, last.1);
      assert Apply(Empty(), assigns) == m;
      if key == last.0 {
        assert Get(m, key).Some?;
        assert assigns[|assigns| - 1].0 == key;
      } else {
        if last.0 in Keys(m0) {
          assert Keys(m) == Keys(m0);
        } else {
          assert Keys(m) == Keys(m0) + [last.0];
        }
        assert key in Keys(m) <==> key in Keys(m0);
        if key in Keys(m0) {
          var i :| 0 <= i < |init| && init[i].0 == key;
          assert assigns[i] == init[i];
        }
        if exists i :: 0 <= i < |assigns| && assigns[i].0 == key {
          var i :| 0 <= i < |assigns| && assigns[i].0 == key;
          assert i < |init|;
          assert init[i] == assigns[i];
        }
      }
    }
  }

  /** The value under a key is that of its last assignment. */
  lemma {:induction false} ApplyLastWins(assigns: seq<Assignment>, i: nat)
    requires i < |assigns|
    requires forall k :: i < k < |assigns| ==> assigns[k].0 != assigns[i].0
    ensures Get(Apply(Empty(), assigns), assigns[i].0) == Some(assigns[i].1)
  {
    if i < |assigns| - 1 {
      var init := assigns[..|assigns| - 1];
      assert forall k :: i < k < |init| ==> init[k] == assigns[k];
      ApplyLastWins(init, i);
    } else {
      GetSet(Apply(Empty(), assigns[..i]), assigns[i].0, assigns[i].1);
    }
  }

  /** Every stored value was assigned to its key. */
  lemma {:induction false} ApplyFrom(assigns: seq<Assignment>, key: (int, int), v: Rate)
    requires Get(Apply(Empty(), assigns), key) == Some(v)
    ensures (key, v) in assigns
  {
    if assigns != [] {
      var init := assigns[..|assigns| - 1];
      if assigns[|assigns| - 1].0 != key {
        ApplyFrom(init, key, v);
        assert forall i :: 0 <= i < |init| ==> init[i] == assigns[i];
      }
    }
  }

  lemma {:induction false} InFiatAssignments(cid: int, rates: seq<(string, Rate)>, fiatMapping: Dict<string, int>, x: Assignment)
    ensures x in FiatAssignments(cid, rates, fiatMapping) <==>
      x.0.0 == cid && exists b :: 0 <= b < |rates| && Get(fiatMapping, rates[b].0) == Some(x.0.1) && x.1 == rates[b].1
  {
    if rates != [] {
      var init := rates[..|rates| - 1];
      InFiatAssignments(cid, init, fiatMapping, x);
      assert forall b :: 0 <= b < |init| ==> init[b] == rates[b];
    }
  }

  /** Entry `b` of crypto entry `a` of the payload has mapped symbols and
      yields the assignment `x`. */
  ghost predicate EntryGives(data: seq<(string, Dict<string, Rate>)>, cryptoMapping: Dict<string, int>,
                             fiatMapping: Dict<string, int>, a: int, b: int, x: Assignment)
  {
    0 <= a < |data| && 0 <= b < |data[a].1.entries|
      && Get(cryptoMapping, data[a].0) == Some(x.0.0) && Get(fiatMapping, data[a].1.entries[b].0) == Some(x.0.1)
      && x.1 == data[a].1.entries[b].1
  }

  /** Every assignment comes from a payload entry with mapped symbols. */
  lemma {:induction false} AssignmentsSound(data: seq<(string, Dict<string, Rate>)>, cryptoMapping: Dict<string, int>,
                                            fiatMapping: Dict<string, int>, x: Assignment)
    requires x in Assignments(data, cryptoMapping, fiatMapping)
    ensures exists a, b :: EntryGives(data, cryptoMapping, fiatMapping, a, b, x)
  {
    var init := data[..|data| - 1];
    var last := data[|data| - 1];
    if x in Assignments(init, cryptoMapping, fiatMapping) {
      AssignmentsSound(init, cryptoMapping, fiatMapping, x);
      var a, b :| EntryGives(init, cryptoMapping, fiatMapping, a, b, x);
      assert init[a] == data[a];
      assert EntryGives(data, cryptoMapping, fiatMapping, a, b, x);
    } else {
      var cid := Get(cryptoMapping, last.0).value;
      InFiatAssignments(cid, last.1.entries, fiatMapping, x);
      var b :| 0 <= b < |last.1.entries| && Get(fiatMapping, last.1.entries[b].0) == Some(x.0.1) && x.1 == last.1.entries[b].1;
      assert EntryGives(data, cryptoMapping, fiatMapping, |data| - 1, b, x);
    }
  }

  /** Every payload entry with mapped symbols yields an assignment. */
  lemma {:induction false} AssignmentsComplete(data: seq<(string, Dict<string, Rate>)>, cryptoMapping: Dict<string, int>,
                                               fiatMapping: Dict<string, int>, a: int, b: int, x: Assignment)
    requires EntryGives(data, cryptoMapping, fiatMapping, a, b, x)
    ensures x in Assignments(data, cryptoMapping, fiatMapping)
  {
    var init := data[..|data| - 1];
    var last := data[|data| - 1];
    if a < |data| - 1 {
      assert init[a] == data[a];
      AssignmentsComplete(init, cryptoMapping, fiatMapping, a, b, x);
    } else {
      InFiatAssignments(x.0.0, last.1.entries, fiatMapping, x);
    }
  }

  /** The payload has an entry whose crypto symbol maps to `cid` and whose
      fiat symbol maps to `fid`. */
  ghost predicate NamesPair(data: Payload, cryptoMapping: Dict<string, int>, fiatMapping: Dict<string, int>, cid: int, fid: int)
  {
    exists a, b :: 0 <= a < |data.entries| && 0 <= b < |data.entries[a].1.entries| &&
      Get(cryptoMapping, data.entries[a].0) == Some(cid) && Get(fiatMapping, data.entries[a].1.entries[b].0) == Some(fid)
  }

  /** ... and that entry's rate is `v`. */
  ghost predicate QuotesPair(data: Payload, cryptoMapping: Dict<string, int>, fiatMapping: Dict<string, int>,
                             cid: int, fid: int, v: Rate)
  {
    exists a, b :: 0 <= a < |data.entries| && 0 <= b < |data.entries[a].1.entries| &&
      Get(cryptoMapping, data.entries[a].0) == Some(cid) && Get(fiatMapping, data.entries[a].1.entries[b].0) == Some(fid) &&
      v == data.entries[a].1.entries[b].1
  }

  /** One id pair is a key of `exchange_rates` exactly when the payload
      names it. */
  lemma ExchangeRatesKey(data: Payload, cryptoMapping: Dict<string, int>, fiatMapping: Dict<string, int>, cid: int, fid: int)
    ensures (cid, fid) in Keys(Apply(Empty(), Assignments(data.entries, cryptoMapping, fiatMapping)))
      <==> NamesPair(data, cryptoMapping, fiatMapping, cid, fid)
  {
    var assigns := Assignments(data.entries, cryptoMapping, fiatMapping);
    ApplyKeys(assigns, (cid, fid));
    if (cid, fid) in Keys(Apply(Empty(), assigns)) {
      var i :| 0 <= i < |assigns| && assigns[i].0 == (cid, fid);
      AssignmentsSound(data.entries, cryptoMapping, fiatMapping, assigns[i]);
      var a, b :| EntryGives(data.entries, cryptoMapping, fiatMapping, a, b, assigns[i]);
    }
    if NamesPair(data, cryptoMapping, fiatMapping, cid, fid) {
      var a, b :| 0 <= a < |data.entries| && 0 <= b < |data.entries[a].1.entries| &&
        Get(cryptoMapping, data.entries[a].0) == Some(cid) && Get(fiatMapping, data.entries[a].1.entries[b].0) == Some(fid);
      var x := ((cid, fid), data.entries[a].1.entries[b].1);
      AssignmentsComplete(data.entries, cryptoMapping, fiatMapping, a, b, x);
      var i :| 0 <= i < |assigns| && assigns[i] == x;
    }
  }

  /** The value under an id pair is the rate of a payload entry naming it. */
  lemma ExchangeRatesValue(data: Payload, cryptoMapping: Dict<string, int>, fiatMapping: Dict<string, int>,
                           cid: int, fid: int, v: Rate)
    ensures Get(Apply(Empty(), Assignments(data.entries, cryptoMapping, fiatMapping)), (cid, fid)) == Some(v)
      ==> QuotesPair(data, cryptoMapping, fiatMapping, cid, fid, v)
  {
    if Get(Apply(Empty(), Assignments(data.entries, cryptoMapping, fiatMapping)), (cid, fid)) == Some(v) {
      ApplyFrom(Assignments(data.entries, cryptoMapping, fiatMapping), (cid, fid), v);
      AssignmentsSound(data.entries, cryptoMapping, fiatMapping, ((cid, fid), v));
      var a, b :| EntryGives(data.entries, cryptoMapping, fiatMapping, a, b, ((cid, fid), v));
    }
  }

  /** `exchange_rates` has a key `(cid, fid)` exactly when the payload has an
      entry whose crypto maps to `cid` and whose fiat maps to `fid` (an id of
      0 counts: presence is `is not None`), and every value is the rate of
      such an entry. */
  lemma ExchangeRatesExact(data: Payload, cryptoMapping: Dict<string, int>, fiatMapping: Dict<string, int>)
    ensures var er := Apply(Empty(), Assignments(data.entries, cryptoMapping, fiatMapping));
      && Valid(er)
      && (forall cid, fid :: (cid, fid) in Keys(er) <==> NamesPair(data, cryptoMapping, fiatMapping, cid, fid))
      && (forall cid, fid, v :: Get(er, (cid, fid)) == Some(v) ==> QuotesPair(data, cryptoMapping, fiatMapping, cid, fid, v))
  {
    forall cid, fid {
      ExchangeRatesKey(data, cryptoMapping, fiatMapping, cid, fid);
    }
    forall cid, fid, v {
      ExchangeRatesValue(data, cryptoMapping, fiatMapping, cid, fid, v);
    }
  }

  /** An id of 0 is a real id here: the pair is stored. */
  lemma ZeroIdIsKept(data: Payload, cryptoMapping: Dict<string, int>, fiatMapping: Dict<string, int>, a: nat, b: nat)
    requires a < |data.entries| && b < |data.entries[a].1.entries|
    requires Get(cryptoMapping, data.entries[a].0) == Some(0)
    requires Get(fiatMapping, data.entries[a].1.entries[b].0) == Some(0)
    ensures (0, 0) in Keys(Apply(Empty(), Assignments(data.entries, cryptoMapping, fiatMapping)))
  {
    assert NamesPair(data, cryptoMapping, fiatMapping, 0, 0);
    ExchangeRatesKey(data, cryptoMapping, fiatMapping, 0, 0);
  }

  // ---------------------------------------------------------------------
  // insert_exchange_rates

  /** `[(cid, fid, rate) for (cid, fid), rate in exchange_rates.items()]`. */
  function Values(exchangeRates: Dict<(int, int), Rate>): seq<(int, int, Rate)>
  {
    seq(|exchangeRates.entries|, i requires 0 <= i < |exchangeRates.entries| =>
      (exchangeRates.entries[i].0.0, exchangeRates.entries[i].0.1, exchangeRates.entries[i].1))
  }

  /** `values` holds one tuple per dict entry and nothing else: a tuple is
      present exactly when the dict maps its id pair to its rate, and no id
      pair appears twice. */
  lemma ValuesExact(exchangeRates: Dict<(int, int), Rate>)
    requires Valid(exchangeRates)
    ensures |Values(exchangeRates)| == |exchangeRates.entries|
    ensures forall cid, fid, v :: (cid, fid, v) in Values(exchangeRates) <==> Get(exchangeRates, (cid, fid)) == Some(v)
    ensures forall i, k :: 0 <= i < k < |Values(exchangeRates)| ==>
      (Values(exchangeRates)[i].0, Values(exchangeRates)[i].1) != (Values(exchangeRates)[k].0, Values(exchangeRates)[k].1)
  {
    var es := exchangeRates.entries;
    var vs := Values(exchangeRates);
    forall cid, fid, v ensures (cid, fid, v) in vs <==> Get(exchangeRates, (cid, fid)) == Some(v) {
      if (cid, fid, v) in vs {
        var i :| 0 <= i < |vs| && vs[i] == (cid, fid, v);
        assert es[i] == ((cid, fid), v);
        assert Find(es, (cid, fid)) == Some(i);
      }
      if Get(exchangeRates, (cid, fid)) == Some(v) {
        var i :| 0 <= i < |es| && es[i] == ((cid, fid), v);
        assert vs[i] == (cid, fid, v);
      }
    }
  }

  /** The rows `INSERT ... VALUES (%s, %s, %s, NOW())` adds, all stamped with
      the insert time. */
  function StampValues(values: seq<(int, int, Rate)>, stamp: int): seq<RateRow>
  {
    seq(|values|, i requires 0 <= i < |values| => RateRow(values[i].0, values[i].1, values[i].2, stamp))
  }

  // ---------------------------------------------------------------------
  // One cycle of main

  /** How a cycle ends: rows committed, the non-200 status printed, or an
      exception caught and printed. */
  datatype CycleOutcome = Inserted | StatusFailed(status: int) | Raised(error: string)

  /** The body of `main`'s loop. A failing mapping fetch, a failing request,
      a non-200 status, a decoding error and a failing insert all end the
      cycle without committing anything; otherwise the whole batch is
      committed at once. `mappingFault` stands for an error from either
      mapping fetch, `requestFault` for one raised by `requests.get`. */
  method Cycle(table: seq<RateRow>, cryptoResults: seq<Currency>, fiatResults: seq<Currency>, mappingFault: Option<string>,
               requestFault: Option<string>, status: int, data: Result<Payload, string>, insertFault: Option<string>,
               stamp: int)
    returns (request: Option<string>, outcome: CycleOutcome, after: seq<RateRow>)
    ensures mappingFault.Some? ==> request.None? && outcome == Raised(mappingFault.value) && after == table
    ensures mappingFault.None? ==> request == Some(ApiUrl(SymbolIdMapping(cryptoResults), SymbolIdMapping(fiatResults)))
    ensures mappingFault.None? && requestFault.Some? ==> outcome == Raised(requestFault.value) && after == table
    ensures mappingFault.None? && requestFault.None? && status != 200 ==> outcome == StatusFailed(status) && after == table
    ensures mappingFault.None? && requestFault.None? && status == 200 && data.Failure? ==>
      outcome == Raised(data.error) && after == table
    ensures mappingFault.None? && requestFault.None? && status == 200 && data.Success? && insertFault.Some? ==>
      outcome == Raised(insertFault.value) && after == table
    ensures mappingFault.None? && requestFault.None? && status == 200 && data.Success? && insertFault.None? ==>
      outcome == Inserted && after == table + StampValues(Values(Apply(Empty(),
        Assignments(data.value.entries, SymbolIdMapping(cryptoResults), SymbolIdMapping(fiatResults)))), stamp)
  {
    if mappingFault.Some? {
      return None, Raised(mappingFault.value), table;
    }
    var cryptoMapping := SymbolIdMapping(cryptoResults);
    var fiatMapping := SymbolIdMapping(fiatResults);
    var url := ApiUrl(cryptoMapping, fiatMapping);
    request := Some(url);
    if requestFault.Some? {
      return request, Raised(requestFault.value), table;
    }
    if status != 200 {
      return request, StatusFailed(status), table;
    }
    if data.Failure? {
      return request, Raised(data.error), table;
    }
    var exchangeRates := BuildExchangeRates(data.value, cryptoMapping, fiatMapping);
    var values := Values(exchangeRates);
    if insertFault.Some? {
      return request, Raised(insertFault.value), table;
    }
    outcome, after := Inserted, table + StampValues(values, stamp);
  }
}
