/** The transaction of ClearDeviations: bounded retries, and the status built from the
    data server's response. */
module ClearDeviationTx {
  import opened GoInt
  import opened ClearDeviation
  import opened DeviationNames

  datatype Code = Aborted | ResourceExhausted | Unavailable | DeadlineExceeded | OtherCode

  /** An error, with its gRPC status code if it carries one. */
  datatype TxError = TxError(code: Option<Code>, text: string)

  /** The errors of each intent, by intent key. */
  datatype Response = Response(warnings: seq<string>, intents: map<string, seq<string>>)

  /** What the data server answers in one attempt. */
  datatype Answers = Answers(
    connectError: Option<TxError>,
    setResponse: Option<Response>,
    setError: Option<TxError>,
    confirmError: Option<TxError>)

  datatype TxResult = TxResult(rsp: Option<Response>, err: Option<TxError>)

  /** executeClearDeviationTxOnce. */
  function Once(a: Answers): TxResult {
    if a.connectError != None then TxResult(None, a.connectError)
    else if a.setError != None then TxResult(a.setResponse, a.setError)
    else if a.confirmError != None then
      var e := a.confirmError.value;
      TxResult(a.setResponse, Some(TxError(e.code, "transaction confirm failed: " + e.text)))
    else TxResult(a.setResponse, None)
  }

  predicate Recoverable(err: Option<TxError>) {
    err != None && err.value.code != None && err.value.code.value != OtherCode
  }

  /** What an attempt comes to: the first error there is, in the order connect, Set, Confirm, the
      last with its text prefixed but its code kept; and Set's response, if there was a
      connection. It is tried again exactly if that error carries one of four codes. */
  lemma OnceOutcome(a: Answers)
    ensures var r, e := Once(a), FirstError(a);
            && (r.err == None <==> a.connectError == None && a.setError == None && a.confirmError == None)
            && (r.err != None ==> e != None && r.err.value.code == e.value.code)
            && (r.err != None ==> r.err.value.text == FailureText(a))
            && r.rsp == (if a.connectError == None then a.setResponse else None)
            && (Recoverable(r.err) <==> Retryable(a))
  {
  }

  function FirstError(a: Answers): Option<TxError> {
    if a.connectError != None then a.connectError else if a.setError != None then a.setError else a.confirmError
  }

  /** Why an attempt is repeated. */
  predicate Retryable(a: Answers) {
    FirstError(a) != None
    && FirstError(a).value.code in {Some(Aborted), Some(ResourceExhausted), Some(Unavailable), Some(DeadlineExceeded)}
  }

  /** The message of the reply, empty if nothing failed. */
  function FailureText(a: Answers): string {
    if a.connectError == None && a.setError == None && a.confirmError != None
    then "transaction confirm failed: " + a.confirmError.value.text
    else if FirstError(a) == None then ""
    else FirstError(a).value.text
  }

  /** retryClearDeviationTx. `attempt(i)` is what the i-th attempt would get, `cancelled(i)`
      whether the context ends during the wait after it. `tries` counts attempts made and
      `waited` the back-off that was waited out. */
  method Retry(maxAttempts: int, baseBackoff: nat, attempt: nat -> Answers, cancelled: nat -> bool)
    returns (result: TxResult, tries: nat, waited: nat)
    ensures tries <= if maxAttempts < 0 then 0 else maxAttempts
    ensures tries == 0 <==> maxAttempts <= 0
    ensures result == if tries == 0 then TxResult(None, None) else Once(attempt(tries))
    ensures forall i :: 1 <= i < tries ==> Recoverable(Once(attempt(i)).err) && !cancelled(i)
    ensures tries > 0 ==> tries == maxAttempts || !Recoverable(result.err) || cancelled(tries)
    ensures tries > 0 && result.err == None ==>
              var last := attempt(tries);
              last.connectError == None && last.setError == None && last.confirmError == None
    ensures waited == if tries == 0 then 0 else baseBackoff * (Pow2(tries - 1) - 1)
  {
    var backoff := baseBackoff;
    result, tries, waited := TxResult(None, None), 0, 0;
    while tries < maxAttempts
      invariant tries == 0 || tries < maxAttempts
      invariant tries == 0 ==> result == TxResult(None, None)
      invariant forall i :: 1 <= i <= tries ==> Recoverable(Once(attempt(i)).err) && !cancelled(i)
      invariant backoff == baseBackoff * Pow2(tries) && waited == baseBackoff * (Pow2(tries) - 1)
      decreases maxAttempts - tries
    {
      tries := tries + 1;
      result := Once(attempt(tries));
      if result.err == None || tries == maxAttempts || !Recoverable(result.err) { return; }
      if cancelled(tries) { return; }
      waited := waited + backoff;
      backoff := backoff * 2;
      Doubling(baseBackoff, tries);
    }
  }

  lemma Doubling(base: nat, k: nat)
    requires k > 0
    ensures base * Pow2(k - 1) * 2 == base * Pow2(k)
    ensures base * (Pow2(k - 1) - 1) + base * Pow2(k - 1) == base * (Pow2(k) - 1)
  {
  }

  const MAX_ATTEMPTS := 4
  const BASE_BACKOFF_MS := 200

  /** executeClearDeviationTx. */
  method ExecuteTx(attempt: nat -> Answers, cancelled: nat -> bool)
    returns (result: TxResult, tries: nat, waited: nat)
    ensures 1 <= tries <= 4 && waited == 200 * (Pow2(tries - 1) - 1)
    ensures forall i :: 1 <= i < tries ==> Retryable(attempt(i)) && !cancelled(i)
    ensures tries == 4 || !Retryable(attempt(tries)) || cancelled(tries)
    ensures var last := attempt(tries);
            && (result.err == None <==> last.connectError == None && last.setError == None && last.confirmError == None)
            && (if result.err == None then "" else result.err.value.text) == FailureText(last)
            && result.rsp == (if last.connectError == None then last.setResponse else None)
  {
    hide Once, Recoverable, Retryable, Pow2;
    result, tries, waited := Retry(MAX_ATTEMPTS, BASE_BACKOFF_MS, attempt, cancelled);
    forall i | 1 <= i <= tries { OnceOutcome(attempt(i)); }
  }

  // ----- buildClearDeviationStatus

  datatype Status = Status(message: string, warnings: seq<string>, results: seq<ConfigResult>)

  /** What the loop over configsByName leaves in intentToName: each key maps to the name of
      some config that has it, the last one the loop met. */
  ghost predicate ReverseIndex(index: map<string, string>, configs: map<string, Config>) {
    && (forall n <- configs :: IntentKey(configs[n]) in index)
    && (forall k <- index :: index[k] in configs && IntentKey(configs[index[k]]) == k)
  }

  function ResponseName(index: map<string, string>, key: string): string {
    if key in index then index[key] else key
  }

  function Report(errors: seq<string>): seq<Reason> {
    seq(|errors|, i requires 0 <= i < |errors| => Reported(errors[i]))
  }

  function ResponseResults(index: map<string, string>, intents: map<string, seq<string>>, order: seq<string>)
    : seq<ConfigResult>
    requires forall k <- order :: k in intents
  {
    seq(|order|, i requires 0 <= i < |order| =>
      ConfigResult(ResponseName(index, order[i]), intents[order[i]] == [], Report(intents[order[i]])))
  }

  /** The entries the response did not report on inherit the overall outcome. */
  function Inherited(entries: seq<Entry>, responded: set<string>, ok: bool): seq<ConfigResult> {
    if entries == [] then []
    else (if entries[0].name in responded then [] else [ConfigResult(entries[0].name, ok, [])])
         + Inherited(entries[1..], responded, ok)
  }

  /** Every key of the map once, in the order the loop met them. */
  ghost predicate Enumerates<V>(order: seq<string>, m: map<string, V>) {
    && (forall i, j :: 0 <= i < j < |order| ==> order[i] != order[j])
    && (forall k :: k in order <==> k in m)
  }

  method BuildReverseIndex(configs: map<string, Config>) returns (index: map<string, string>)
    ensures ReverseIndex(index, configs)
  {
    index := map[];
    var names := configs.Keys;
    while names != {}
      invariant names <= configs.Keys
      invariant forall n :: n in configs && n !in names ==> IntentKey(configs[n]) in index
      invariant forall k <- index :: index[k] in configs && IntentKey(configs[index[k]]) == k
      decreases names
    {
      var name :| name in names;
      index := index[IntentKey(configs[name]) := name];
      names := names - {name};
    }
  }

  method BuildStatus(entries: seq<Entry>, configs: map<string, Config>, rsp: Option<Response>, err: Option<TxError>)
    returns (status: Status, ghost index: map<string, string>, ghost order: seq<string>)
    ensures status.message == if err == None then "" else err.value.text
    ensures rsp == None ==>
              && status.warnings == []
              && |status.results| == |entries|
              && forall i :: 0 <= i < |entries| ==>
                   status.results[i] == ConfigResult(entries[i].name, false, [Reported(status.message)])
    ensures rsp != None ==>
              && status.warnings == rsp.value.warnings
              && ReverseIndex(index, configs)
              && Enumerates(order, rsp.value.intents)
              && status.results == ResultsOf(entries, rsp.value.intents, err == None, index, order)
    ensures forall e <- entries :: Answered(status.results, e.name)
  {
    var message := if err == None then "" else err.value.text;
    index, order := map[], [];
    if rsp == None {
      var failed := FailAll(entries, message);
      status := Status(message, [], failed);
      forall e | e in entries ensures Answered(failed, e.name) {
        var i :| 0 <= i < |entries| && entries[i] == e;
        assert failed[i].name == e.name;
      }
      return;
    }
    var intentToName := BuildReverseIndex(configs);
    index := intentToName;
    var results, responded;
    results, responded, order := CollectResponses(rsp.value.intents, intentToName);
    var rest := InheritOutcome(entries, responded, err == None);
    status := Status(message, rsp.value.warnings, results + rest);
    forall e | e in entries { EveryNameAnswered(entries, rsp.value.intents, err == None, index, order, e); }
  }

  method FailAll(entries: seq<Entry>, message: string) returns (failed: seq<ConfigResult>)
    ensures |failed| == |entries|
    ensures forall i :: 0 <= i < |entries| ==> failed[i] == ConfigResult(entries[i].name, false, [Reported(message)])
  {
    failed := [];
    for i := 0 to |entries|
      invariant |failed| == i
      invariant forall j :: 0 <= j < i ==> failed[j] == ConfigResult(entries[j].name, false, [Reported(message)])
    {
      failed := failed + [ConfigResult(entries[i].name, false, [Reported(message)])];
    }
  }

  /** The loop over rsp.Intents. */
  method CollectResponses(intents: map<string, seq<string>>, index: map<string, string>)
    returns (results: seq<ConfigResult>, responded: set<string>, ghost order: seq<string>)
    ensures Enumerates(order, intents)
    ensures results == ResponseResults(index, intents, order)
    ensures responded == set k <- order :: ResponseName(index, k)
  {
    results, responded, order := [], {}, [];
    var keys := intents.Keys;
    while keys != {}
      invariant keys <= intents.Keys
      invariant forall k :: k in order <==> k in intents && k !in keys
      invariant forall i, j :: 0 <= i < j < |order| ==> order[i] != order[j]
      invariant results == ResponseResults(index, intents, order)
      invariant responded == set k <- order :: ResponseName(index, k)
      decreases keys
    {
      var key :| key in keys;
      var name := if key in index then index[key] else key;
      responded := responded + {name};
      results := results + [ConfigResult(name, |intents[key]| == 0, Report(intents[key]))];
      keys := keys - {key};
      order := order + [key];
    }
  }

  /** The loop over the requested entries. */
  method InheritOutcome(entries: seq<Entry>, responded: set<string>, ok: bool) returns (results: seq<ConfigResult>)
    ensures results == Inherited(entries, responded, ok)
  {
    results := [];
    assert entries[0..] == entries;
    for i := 0 to |entries|
      invariant results + Inherited(entries[i..], responded, ok) == Inherited(entries, responded, ok)
    {
      assert entries[i..][1..] == entries[i + 1..];
      ghost var rest := Inherited(entries[i + 1..], responded, ok);
      if entries[i].name !in responded {
        var r := ConfigResult(entries[i].name, ok, []);
        assert results + ([r] + rest) == results + [r] + rest;
        results := results + [r];
      } else {
        assert [] + rest == rest;
      }
    }
  }

  function ResultsOf(entries: seq<Entry>, intents: map<string, seq<string>>, ok: bool,
                     index: map<string, string>, order: seq<string>)
    : seq<ConfigResult>
    requires forall k <- order :: k in intents
  {
    ResponseResults(index, intents, order)
    + Inherited(entries, set k <- order :: ResponseName(index, k), ok)
  }

  // ----- What the status tells the caller

  lemma {:induction false} InheritedSound(entries: seq<Entry>, responded: set<string>, ok: bool, r: ConfigResult)
    requires r in Inherited(entries, responded, ok)
    ensures r.success == ok && r.errors == [] && r.name !in responded
  {
    if r in Inherited(entries[1..], responded, ok) { InheritedSound(entries[1..], responded, ok, r); }
  }

  lemma {:induction false} InheritedCovers(entries: seq<Entry>, responded: set<string>, ok: bool, e: Entry)
    requires e in entries && e.name !in responded
    ensures ConfigResult(e.name, ok, []) in Inherited(entries, responded, ok)
  {
    if e != entries[0] { InheritedCovers(entries[1..], responded, ok, e); }
  }

  predicate Answered(results: seq<ConfigResult>, name: string) {
    exists r <- results :: r.name == name
  }

  /** Every requested name gets at least one result. */
  lemma EveryNameAnswered(entries: seq<Entry>, intents: map<string, seq<string>>, ok: bool,
                          index: map<string, string>, order: seq<string>, e: Entry)
    requires Enumerates(order, intents) && e in entries
    ensures Answered(ResultsOf(entries, intents, ok, index, order), e.name)
  {
    hide Inherited;
    var responded := set k <- order :: ResponseName(index, k);
    var head := ResponseResults(index, intents, order);
    if e.name in responded {
      var k :| k in order && ResponseName(index, k) == e.name;
      var i :| 0 <= i < |order| && order[i] == k;
      assert head[i] in head && head[i].name == e.name;
    } else {
      InheritedCovers(entries, responded, ok, e);
    }
  }

  lemma DotSplits(a: string, b: string, r: string, q: string)
    requires '.' !in a && '.' !in b
    requires a + "." + r == b + "." + q
    ensures a == b && r == q
  {
    var s, t := a + "." + r, b + "." + q;
    assert s[|a|] == '.' && t[|b|] == '.';
    assert (forall i :: 0 <= i < |a| ==> s[i] == a[i]) && (forall i :: 0 <= i < |b| ==> t[i] == b[i]);
    assert a == s[..|a|] && b == t[..|b|];
    assert r == s[|a| + 1..] && q == t[|b| + 1..];
  }

  /** A Kubernetes namespace is a DNS label, without dots; then intent keys are equal for
      equal namespace and name only, though names may hold dots. */
  lemma KeysInjective(a: Config, b: Config)
    requires '.' !in a.namespace && '.' !in b.namespace
    ensures IntentKey(a) == IntentKey(b) <==> a.namespace == b.namespace && a.name == b.name
  {
    if IntentKey(a) == IntentKey(b) { DotSplits(a.namespace, b.namespace, a.name, b.name); }
  }

  /** The configs as the lister returns them: by their own names. */
  predicate Listed(configs: map<string, Config>) {
    forall n <- configs :: configs[n].name == n && '.' !in configs[n].namespace
  }

  /** The reverse index is exact. */
  lemma KeyToConfig(index: map<string, string>, configs: map<string, Config>, n: string)
    requires ReverseIndex(index, configs) && Listed(configs) && n in configs
    ensures ResponseName(index, IntentKey(configs[n])) == n
  {
    KeysInjective(configs[n], configs[index[IntentKey(configs[n])]]);
  }

  /** The response reports only on intents of the target's configs. */
  predicate KnownKeys(intents: map<string, seq<string>>, configs: map<string, Config>) {
    forall k <- intents :: exists n :: n in configs && IntentKey(configs[n]) == k
  }

  /** All results under a name say this. */
  predicate Says(results: seq<ConfigResult>, name: string, success: bool) {
    forall r <- results :: r.name == name ==> r.success == success
  }

  /** The errors reported for the intent of the config that a requested name stands for. */
  function ErrorsOf(name: string, configs: map<string, Config>, intents: map<string, seq<string>>): seq<string>
    requires Resolve(name, configs).0 != None
  {
    var key := IntentKey(configs[ConfigName(name, configs)]);
    if key in intents then intents[key] else []
  }

  /** A response result under the name n is the one for n's own intent. */
  lemma ResponseResultOf(configs: map<string, Config>, intents: map<string, seq<string>>,
                         index: map<string, string>, order: seq<string>, i: nat)
    requires Listed(configs) && ReverseIndex(index, configs)
    requires Enumerates(order, intents) && KnownKeys(intents, configs) && i < |order|
    ensures var r := ResponseResults(index, intents, order)[i];
            && r.name in configs && IntentKey(configs[r.name]) == order[i]
            && (r.success <==> intents[order[i]] == [])
            && |r.errors| == |intents[order[i]]|
            && forall k :: 0 <= k < |r.errors| ==> r.errors[k] == Reported(intents[order[i]][k])
  {
    var k := order[i];
    assert k in intents;
    var n :| n in configs && IntentKey(configs[n]) == k;
    KeyToConfig(index, configs, n);
  }

  /** What the results under a requested name say: the errors of the config's intent decide if
      the intent was reported on and the name is the config's own, else the transaction. */
  lemma SuccessUnder(entries: seq<Entry>, configs: map<string, Config>, intents: map<string, seq<string>>, ok: bool,
                     index: map<string, string>, order: seq<string>, e: Entry)
    requires Listed(configs) && ReverseIndex(index, configs)
    requires Enumerates(order, intents) && KnownKeys(intents, configs)
    requires e in entries && Resolve(e.name, configs).0 != None
    ensures var results := ResultsOf(entries, intents, ok, index, order);
            var own := e.name in configs && IntentKey(configs[e.name]) in intents;
            && Answered(results, e.name)
            && Says(results, e.name, if own then ErrorsOf(e.name, configs, intents) == [] else ok)
            && forall r <- results :: r.name == e.name && !own ==> r.errors == []
  {
    hide Inherited, Resolve;
    var n, results := ConfigName(e.name, configs), ResultsOf(entries, intents, ok, index, order);
    var responded := set k <- order :: ResponseName(index, k);
    var head, tail := ResponseResults(index, intents, order), Inherited(entries, responded, ok);
    EveryNameAnswered(entries, intents, ok, index, order, e);
    if e.name in configs {
      OwnName(e.name, configs);
      KeyToConfig(index, configs, e.name);
      assert IntentKey(configs[e.name]) in order ==> e.name in responded;
    }
    forall r | r in results && r.name == e.name
      ensures r.success == if e.name in configs && IntentKey(configs[e.name]) in intents
                           then ErrorsOf(e.name, configs, intents) == [] else ok
      ensures !(e.name in configs && IntentKey(configs[e.name]) in intents) ==> r.errors == []
    {
      if r in head {
        var i :| 0 <= i < |head| && head[i] == r;
        assert order[i] in order;
        ResponseResultOf(configs, intents, index, order, i);
      } else {
        InheritedSound(entries, responded, ok, r);
      }
    }
  }

  /** A config is cleared if the transaction succeeded and no error was reported for its intent.
      The results under a requested name say so exactly in these cases: under the config's own
      name, with the intent reported on, if the transaction succeeded or the intent has errors;
      else if it failed or the intent has none. */
  lemma TruthfulIff(entries: seq<Entry>, configs: map<string, Config>, intents: map<string, seq<string>>, ok: bool,
                    index: map<string, string>, order: seq<string>, e: Entry)
    requires Listed(configs) && ReverseIndex(index, configs)
    requires Enumerates(order, intents) && KnownKeys(intents, configs)
    requires e in entries && Resolve(e.name, configs).0 != None
    ensures var errors := ErrorsOf(e.name, configs, intents);
            Says(ResultsOf(entries, intents, ok, index, order), e.name, ok && errors == [])
            <==> if e.name in configs && IntentKey(configs[e.name]) in intents then ok || errors != []
                 else !ok || errors == []
  {
    hide ResultsOf, Resolve, ErrorsOf;
    SuccessUnder(entries, configs, intents, ok, index, order, e);
  }

  /** They agree with the intent's errors alone if and only if the intent was reported on under
      the config's own name, or the transaction as a whole ended like the intent. */
  lemma IntentIff(entries: seq<Entry>, configs: map<string, Config>, intents: map<string, seq<string>>, ok: bool,
                  index: map<string, string>, order: seq<string>, e: Entry)
    requires Listed(configs) && ReverseIndex(index, configs)
    requires Enumerates(order, intents) && KnownKeys(intents, configs)
    requires e in entries && Resolve(e.name, configs).0 != None
    ensures var errors := ErrorsOf(e.name, configs, intents);
            Says(ResultsOf(entries, intents, ok, index, order), e.name, errors == [])
            <==> (e.name in configs && IntentKey(configs[e.name]) in intents) || (ok <==> errors == [])
  {
    hide ResultsOf, Resolve, ErrorsOf;
    SuccessUnder(entries, configs, intents, ok, index, order, e);
  }

  lemma OwnName(name: string, configs: map<string, Config>)
    requires name in configs
    ensures Resolve(name, configs).0 != None && ConfigName(name, configs) == name
  {
  }

  /** A concrete run of the failing case: the only intent failed, the transaction did not,
      and the deviation's name is reported as cleared. */
  lemma ReportedAsCleared(index: map<string, string>, order: seq<string>)
    requires var configs := map["c" := Config("ns", "c", 0, Some(false), [], None)];
             ReverseIndex(index, configs) && Enumerates(order, map["ns.c" := ["rejected"]])
    ensures ConfigResult("config-c", true, []) in
              ResultsOf([Entry("config-c", [])], map["ns.c" := ["rejected"]], true, index, order)
  {
    var configs := map["c" := Config("ns", "c", 0, Some(false), [], None)];
    var responded := set k <- order :: ResponseName(index, k);
    assert IntentKey(configs["c"]) == "ns.c";
    forall k | k in order ensures ResponseName(index, k) != "config-c" {
      assert k == "ns.c" && index[k] in configs;
    }
    InheritedCovers([Entry("config-c", [])], responded, true, Entry("config-c", []));
  }

  /** The other failing case: the data server accepts the transaction but Confirm fails, and
      the config's own name is reported as cleared. */
  lemma ConfirmFailed(e: TxError, index: map<string, string>, order: seq<string>)
    requires var configs := map["c" := Config("ns", "c", 0, Some(false), [], None)];
             ReverseIndex(index, configs) && Enumerates<seq<string>>(order, map["ns.c" := []])
    ensures var rsp := Response([], map["ns.c" := []]);
            var once := Once(Answers(None, Some(rsp), None, Some(e)));
            && once.rsp == Some(rsp) && once.err != None
            && ConfigResult("c", true, []) in ResultsOf([Entry("c", [])], rsp.intents, once.err == None, index, order)
  {
    var configs := map["c" := Config("ns", "c", 0, Some(false), [], None)];
    var intents: map<string, seq<string>> := map["ns.c" := []];
    assert IntentKey(configs["c"]) == "ns.c";
    assert "ns.c" in order;
    var i :| 0 <= i < |order| && order[i] == "ns.c";
    assert ResponseResults(index, intents, order)[i] == ConfigResult("c", true, []);
  }

  // ----- Intent keys

  /** Without rejections, the intents of a transaction have different keys if and only if the
      entries name different configs. */
  lemma KeysDistinctIff<P>(env: Env<P>, entries: seq<Entry>)
    requires Listed(env.configs) && Rejections(env, entries) == []
    ensures |Intents(env, entries)| == |entries|
    ensures forall i :: 0 <= i < |entries| ==> Resolve(entries[i].name, env.configs).0 != None
    ensures (forall i, j :: 0 <= i < j < |entries| ==> Intents(env, entries)[i].key != Intents(env, entries)[j].key)
       <==> forall i, j :: 0 <= i < j < |entries| ==>
              ConfigName(entries[i].name, env.configs) != ConfigName(entries[j].name, env.configs)
  {
    hide Intents, Rejections, Resolve, Check;
    EntriesSplit(env, entries);
    forall i | 0 <= i < |entries|
      ensures Resolve(entries[i].name, env.configs).0 != None
      ensures Intents(env, entries)[i].key == IntentKey(env.configs[ConfigName(entries[i].name, env.configs)])
    {
      OneIntentPerEntry(env, entries, i);
    }
    forall m, n | m in env.configs && n in env.configs
      ensures IntentKey(env.configs[m]) == IntentKey(env.configs[n]) <==> m == n
    {
      KeysInjective(env.configs[m], env.configs[n]);
    }
  }

  /** A config requested by its own name and by its deviation's: two intents with one key. */
  lemma SharedKey<P>(parse: string -> Option<P>)
    ensures var env := Env(parse, true, map["a" := Config("ns", "a", 0, None, [], None)]);
            var intents := Intents(env, [Entry("a", []), Entry("config-a", [])]);
            |intents| == 2 && intents[0].key == intents[1].key == "ns.a"
  {
    var env := Env(parse, true, map["a" := Config("ns", "a", 0, None, [], None)]);
    var entries := [Entry("a", []), Entry("config-a", [])];
    assert DeviationName(CONFIG, "a") == "config-a";
    ParseInvertsPrint("config-a", CONFIG, "a");
    assert GoodPaths(env, []) == [] && BadPaths(env, []) == [] && Updates(env, []) == Some([]);
    assert Check(env, entries[0]).Valid? && Check(env, entries[1]).Valid?;
    assert Check(env, entries[0]).intent.key == "ns.a" && Check(env, entries[1]).intent.key == "ns.a";
    hide Check;
    assert entries[..1][..0] == [] && entries[..1][0] == entries[0];
    assert Intents(env, entries[..1]) == [Check(env, entries[0]).intent];
  }

  // ----- The handler

  datatype Reply =
    | TargetNotReady
    | SpecRequired
    | ListerMissing
    | ListFailed
    | Invalid(fields: seq<FieldError>)
    | NothingToDo
    | Done(status: Status)

  /** ClearDeviations. `sent` is the batch handed to the transaction, if one is started, `tries`
      the attempts made and `waited` the back-off in milliseconds. */
  method ClearDeviations<P>(ready: bool, spec: Option<seq<Entry>>, listerSet: bool, listed: Option<map<string, Config>>,
                            parse: string -> Option<P>, nonRevertiveByDefault: bool,
                            attempt: nat -> Answers, cancelled: nat -> bool)
    returns (reply: Reply, sent: Option<seq<Intent<P>>>, tries: nat, waited: nat,
             ghost index: map<string, string>, ghost order: seq<string>)
    ensures reply == TargetNotReady <==> !ready
    ensures reply == SpecRequired <==> ready && spec == None
    ensures reply == ListerMissing <==> ready && spec != None && !listerSet
    ensures reply == ListFailed <==> ready && spec != None && listerSet && listed == None
    ensures reply == NothingToDo <==> ready && spec == Some([]) && listerSet && listed != None
    ensures reply.Done? <==> sent != None
    ensures reply.Done? <==> tries > 0
    ensures ready && spec != None && listerSet && listed != None ==>
              var env, entries := Env(parse, nonRevertiveByDefault, listed.value), spec.value;
              && (sent != None <==> entries != [] && forall e <- entries :: Check(env, e).Valid?)
              && (sent != None ==> sent.value == Intents(env, entries) && |sent.value| == |entries|)
              && (reply.Invalid? ==> reply.fields == FieldErrors(Rejections(env, entries)) != [])
              && (reply.Done? ==> forall e <- entries :: Answered(reply.status.results, e.name))
    // Attempts are repeated while they fail in a retryable way, four times at most.
    ensures reply.Done? ==>
              && 1 <= tries <= 4 && waited == 200 * (Pow2(tries - 1) - 1)
              && (forall i :: 1 <= i < tries ==> Retryable(attempt(i)) && !cancelled(i))
              && (tries == 4 || !Retryable(attempt(tries)) || cancelled(tries))
    // The status tells what the last attempt came to.
    ensures reply.Done? ==>
              var last, status := attempt(tries), reply.status;
              var succeeded := last.connectError == None && last.setError == None && last.confirmError == None;
              && status.message == FailureText(last)
              && (last.connectError != None || last.setResponse == None ==>
                    && status.warnings == [] && |status.results| == |spec.value|
                    && forall i :: 0 <= i < |spec.value| ==>
                         status.results[i] == ConfigResult(spec.value[i].name, false, [Reported(status.message)]))
              && (last.connectError == None && last.setResponse != None ==>
                    var rsp := last.setResponse.value;
                    && status.warnings == rsp.warnings
                    && ReverseIndex(index, listed.value) && Enumerates(order, rsp.intents)
                    && status.results == ResultsOf(spec.value, rsp.intents, succeeded, index, order))
  {
    hide Check, Intents, Rejections, ResultsOf, FailureText, Retryable, Pow2;
    sent, tries, waited, index, order := None, 0, 0, map[], [];
    if !ready { reply := TargetNotReady; return; }
    if spec == None { reply := SpecRequired; return; }
    if !listerSet { reply := ListerMissing; return; }
    if listed == None { reply := ListFailed; return; }
    var env := Env(parse, nonRevertiveByDefault, listed.value);
    var intents, rejections := BuildRequest(env, spec.value);
    EntriesSplit(env, spec.value);
    if |rejections| > 0 {
      var fields := ToFieldErrors(rejections);
      reply := Invalid(fields);
      return;
    }
    if |intents| == 0 { reply := NothingToDo; return; }
    sent := Some(intents);
    var result;
    result, tries, waited := ExecuteTx(attempt, cancelled);
    var status;
    status, index, order := BuildStatus(spec.value, listed.value, result.rsp, result.err);
    reply := Done(status);
  }
}
