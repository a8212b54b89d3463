/** ClearDeviations: validate a batch, send one transaction with retries, and attribute the
    response to the requested names. Paths are parsed by code outside the repository
    (`parse`), and the data server's answers are parameters. */
module ClearDeviation {
  import opened GoInt
  import opened DeviationNames

  datatype ConfigBlob = ConfigBlob(path: string, raw: seq<byte>)

  datatype Config = Config(
    namespace: string, name: string, priority: int, revertive: Option<bool>,
    blobs: seq<ConfigBlob>, applied: Option<seq<ConfigBlob>>)

  /** One requested entry: a config's name or a deviation's name, and the paths to clear. */
  datatype Entry = Entry(name: string, paths: seq<string>)

  datatype Reason =
    | ConfigNotFound
    | DeviationConfigNotFound(resource: string)
    | TargetScoped
    | IsRevertive
    | InvalidPath(path: string)
    | UpdateFailed
    | Reported(text: string)

  datatype ConfigResult = ConfigResult(name: string, success: bool, errors: seq<Reason>)

  datatype Update<P> = Update(path: P, json: seq<byte>)

  datatype Intent<P> = Intent(
    key: string, priority: int, revertPaths: seq<P>, update: seq<Update<P>>, nonRevertive: bool)

  /** What the handler reads from its surroundings: ParsePath, REVERTIVE=false in the
      environment, and the configs of the target by name. */
  datatype Env<!P> = Env(parse: string -> Option<P>, nonRevertiveByDefault: bool, configs: map<string, Config>)

  datatype Checked<P> = Valid(intent: Intent<P>) | Rejected(errors: seq<Reason>)

  /** GetGVKNSN. */
  function IntentKey(c: Config): string {
    c.namespace + "." + c.name
  }

  function Revertive(c: Config, nonRevertiveByDefault: bool): bool {
    if c.revertive != None then c.revertive.value else !nonRevertiveByDefault
  }

  function Resolve(name: string, configs: map<string, Config>): (r: (Option<Config>, Reason)) {
    if name in configs then (Some(configs[name]), ConfigNotFound)
    else
      match ParseDeviationName(name)
      case Some(d) =>
        if d.typ == TARGET then (None, TargetScoped)
        else if d.resource in configs then (Some(configs[d.resource]), ConfigNotFound)
        else (None, DeviationConfigNotFound(d.resource))
      case None => (None, ConfigNotFound)
  }

  /** The name under which the entry's config is listed. */
  function ConfigName(name: string, configs: map<string, Config>): (n: string)
    requires Resolve(name, configs).0 != None
    ensures n in configs && Resolve(name, configs).0 == Some(configs[n])
  {
    if name in configs then name else ParseDeviationName(name).value.resource
  }

  /** A name resolves exactly when it is a config's, or a config deviation's name for one. */
  lemma ResolveIff(name: string, configs: map<string, Config>)
    ensures Resolve(name, configs).0 != None
       <==> name in configs || exists r :: r != "" && r in configs && name == DeviationName(CONFIG, r)
  {
    forall r: string | r != "" && name == DeviationName(CONFIG, r)
      ensures ParseDeviationName(name) == Some(Parsed(CONFIG, r))
    {
      ParseInvertsPrint(name, CONFIG, r);
    }
    match ParseDeviationName(name)
    case Some(d) => ParseInvertsPrint(name, d.typ, d.resource);
    case None =>
  }

  /** The deviation name of a config stands for that config, unless another config happens to
      have the deviation's name as its own. */
  lemma ResolveDeviation(r: string, configs: map<string, Config>)
    requires r != "" && r in configs
    ensures var d := DeviationName(CONFIG, r);
            Resolve(d, configs).0 == Some(configs[if d in configs then d else r])
  {
    ParseInvertsPrint(DeviationName(CONFIG, r), CONFIG, r);
  }

  /** With configs listed by their own names: it resolves to its config exactly if no config has
      the deviation's name. */
  lemma ResolveDeviationIff(r: string, configs: map<string, Config>)
    requires r != "" && r in configs && forall n <- configs :: configs[n].name == n
    ensures Resolve(DeviationName(CONFIG, r), configs).0 == Some(configs[r]) <==> DeviationName(CONFIG, r) !in configs
  {
    ResolveDeviation(r, configs);
    assert |DeviationName(CONFIG, r)| > |r|;
  }

  // ----- Validation

  function BadPaths<P>(env: Env<P>, paths: seq<string>): seq<Reason> {
    if paths == [] then []
    else (if env.parse(paths[0]) == None then [InvalidPath(paths[0])] else []) + BadPaths(env, paths[1..])
  }

  function GoodPaths<P>(env: Env<P>, paths: seq<string>): seq<P> {
    if paths == [] then []
    else (match env.parse(paths[0]) case Some(p) => [p] case None => []) + GoodPaths(env, paths[1..])
  }

  function Updates<P>(env: Env<P>, blobs: seq<ConfigBlob>): Option<seq<Update<P>>> {
    if blobs == [] then Some([])
    else
      match env.parse(blobs[0].path)
      case None => None
      case Some(p) =>
        match Updates(env, blobs[1..])
        case None => None
        case Some(rest) => Some([Update(p, blobs[0].raw)] + rest)
  }

  function Check<P>(env: Env<P>, e: Entry): Checked<P> {
    match Resolve(e.name, env.configs)
    case (None, reason) => Rejected([reason])
    case (Some(c), _) =>
      if Revertive(c, env.nonRevertiveByDefault) then Rejected([IsRevertive])
      else if BadPaths(env, e.paths) != [] then Rejected(BadPaths(env, e.paths))
      else
        match Updates(env, c.blobs)
        case None => Rejected([UpdateFailed])
        case Some(update) => Valid(Intent(IntentKey(c), c.priority, GoodPaths(env, e.paths), update, true))
  }

  function Intents<P>(env: Env<P>, entries: seq<Entry>): seq<Intent<P>> {
    if entries == [] then []
    else
      var last := Check(env, entries[|entries| - 1]);
      Intents(env, entries[..|entries| - 1]) + if last.Valid? then [last.intent] else []
  }

  function Rejections<P>(env: Env<P>, entries: seq<Entry>): seq<ConfigResult> {
    if entries == [] then []
    else
      var e := entries[|entries| - 1];
      var last := Check(env, e);
      Rejections(env, entries[..|entries| - 1])
      + if last.Rejected? then [ConfigResult(e.name, false, last.errors)] else []
  }

  function Prefixed<P>(out: seq<Update<P>>, rest: Option<seq<Update<P>>>): Option<seq<Update<P>>> {
    match rest case None => None case Some(r) => Some(out + r)
  }

  lemma UpdatesStep<P>(env: Env<P>, blobs: seq<ConfigBlob>, out: seq<Update<P>>)
    requires blobs != []
    ensures env.parse(blobs[0].path) == None ==> Updates(env, blobs) == None
    ensures env.parse(blobs[0].path) != None ==>
              Prefixed(out, Updates(env, blobs))
              == Prefixed(out + [Update(env.parse(blobs[0].path).value, blobs[0].raw)], Updates(env, blobs[1..]))
  {
    var p, rest := env.parse(blobs[0].path), Updates(env, blobs[1..]);
    if p != None && rest != None {
      var u := Update(p.value, blobs[0].raw);
      assert out + ([u] + rest.value) == out + [u] + rest.value;
    }
  }

  method GetIntentUpdate<P>(env: Env<P>, c: Config, useSpec: bool) returns (update: Option<seq<Update<P>>>)
    ensures update == Updates(env, if !useSpec && c.applied != None then c.applied.value else c.blobs)
  {
    var blobs := if !useSpec && c.applied != None then c.applied.value else c.blobs;
    var out: seq<Update<P>> := [];
    ghost var all := Updates(env, blobs);
    assert blobs[0..] == blobs && (all != None ==> [] + all.value == all.value);
    hide Updates;
    for i := 0 to |blobs|
      invariant all == Prefixed(out, Updates(env, blobs[i..]))
    {
      UpdatesStep(env, blobs[i..], out);
      assert blobs[i..][1..] == blobs[i + 1..];
      var p := env.parse(blobs[i].path);
      if p == None { return None; }
      out := out + [Update(p.value, blobs[i].raw)];
    }
    assert blobs[|blobs|..] == [] && out + [] == out;
    NoUpdates(env);
    return Some(out);
  }

  lemma NoUpdates<P>(env: Env<P>)
    ensures Updates(env, []) == Some([])
  {
  }

  method ParsePaths<P>(env: Env<P>, paths: seq<string>) returns (good: seq<P>, bad: seq<Reason>)
    ensures good == GoodPaths(env, paths) && bad == BadPaths(env, paths)
  {
    good, bad := [], [];
    assert paths[0..] == paths;
    for i := 0 to |paths|
      invariant good + GoodPaths(env, paths[i..]) == GoodPaths(env, paths)
      invariant bad + BadPaths(env, paths[i..]) == BadPaths(env, paths)
    {
      assert paths[i..][1..] == paths[i + 1..];
      var p := env.parse(paths[i]);
      if p == None { bad := bad + [InvalidPath(paths[i])]; } else { good := good + [p.value]; }
    }
  }

  method BuildRequest<P>(env: Env<P>, entries: seq<Entry>)
    returns (intents: seq<Intent<P>>, rejections: seq<ConfigResult>)
    ensures intents == Intents(env, entries) && rejections == Rejections(env, entries)
  {
    intents, rejections := [], [];
    for i := 0 to |entries|
      invariant intents == Intents(env, entries[..i]) && rejections == Rejections(env, entries[..i])
    {
      var e := entries[i];
      assert entries[..i + 1][..i] == entries[..i];
      var (c, reason) := Resolve(e.name, env.configs);
      if c == None {
        rejections := rejections + [ConfigResult(e.name, false, [reason])];
        continue;
      }
      var cfg := c.value;
      if Revertive(cfg, env.nonRevertiveByDefault) {
        rejections := rejections + [ConfigResult(e.name, false, [IsRevertive])];
        continue;
      }
      var good, bad := ParsePaths(env, e.paths);
      if |bad| > 0 {
        rejections := rejections + [ConfigResult(e.name, false, bad)];
        continue;
      }
      var update := GetIntentUpdate(env, cfg, true);
      if update == None {
        rejections := rejections + [ConfigResult(e.name, false, [UpdateFailed])];
        continue;
      }
      intents := intents +
        [Intent(IntentKey(cfg), cfg.priority, good, update.value, !Revertive(cfg, env.nonRevertiveByDefault))];
    }
    assert entries[..|entries|] == entries;
  }

  lemma {:induction false} PathsParsed<P>(env: Env<P>, paths: seq<string>)
    ensures BadPaths(env, paths) == [] <==> forall i :: 0 <= i < |paths| ==> env.parse(paths[i]) != None
    ensures BadPaths(env, paths) == [] ==>
              && |GoodPaths(env, paths)| == |paths|
              && forall i :: 0 <= i < |paths| ==> Some(GoodPaths(env, paths)[i]) == env.parse(paths[i])
  {
    if paths != [] { PathsParsed(env, paths[1..]); }
  }

  lemma {:induction false} UpdatesParsed<P>(env: Env<P>, blobs: seq<ConfigBlob>)
    ensures Updates(env, blobs) != None <==> forall i :: 0 <= i < |blobs| ==> env.parse(blobs[i].path) != None
    ensures Updates(env, blobs) != None ==>
              && |Updates(env, blobs).value| == |blobs|
              && forall i :: 0 <= i < |blobs| ==>
                   Some(Updates(env, blobs).value[i].path) == env.parse(blobs[i].path)
                   && Updates(env, blobs).value[i].json == blobs[i].raw
  {
    if blobs != [] { UpdatesParsed(env, blobs[1..]); }
  }

  /** An entry is valid exactly when its name resolves to a config that is not revertive and
      every path, of the entry and of the config, parses; its intent then holds all of
      them, in order. */
  lemma ValidIff<P>(env: Env<P>, e: Entry)
    ensures Check(env, e).Valid? <==>
              && Resolve(e.name, env.configs).0 != None
              && var c := Resolve(e.name, env.configs).0.value;
                 && !Revertive(c, env.nonRevertiveByDefault)
                 && (forall i :: 0 <= i < |e.paths| ==> env.parse(e.paths[i]) != None)
                 && (forall i :: 0 <= i < |c.blobs| ==> env.parse(c.blobs[i].path) != None)
    ensures Check(env, e).Valid? ==>
              var c, intent := Resolve(e.name, env.configs).0.value, Check(env, e).intent;
              && intent.key == IntentKey(c) && intent.priority == c.priority && intent.nonRevertive
              && |intent.revertPaths| == |e.paths| && |intent.update| == |c.blobs|
              && (forall i :: 0 <= i < |e.paths| ==> Some(intent.revertPaths[i]) == env.parse(e.paths[i]))
              && (forall i :: 0 <= i < |c.blobs| ==>
                    && Some(intent.update[i].path) == env.parse(c.blobs[i].path)
                    && intent.update[i].json == c.blobs[i].raw)
    ensures Check(env, e).Rejected? ==> Check(env, e).errors != []
  {
    PathsParsed(env, e.paths);
    if Resolve(e.name, env.configs).0 != None {
      UpdatesParsed(env, Resolve(e.name, env.configs).0.value.blobs);
    }
  }

  // ----- Why an entry is rejected

  /** A config says itself whether it is revertive; if it does not, it is, unless REVERTIVE=false
      is set. */
  lemma RevertiveDefault(c: Config)
    ensures c.revertive == Some(true) ==> Revertive(c, true) && Revertive(c, false)
    ensures c.revertive == Some(false) ==> !Revertive(c, true) && !Revertive(c, false)
    ensures c.revertive == None ==> Revertive(c, false) && !Revertive(c, true)
  {
  }

  /** The reasons for an unresolved name: a target's deviation, the deviation of a config that is
      not there, or no config and no deviation's name at all. */
  lemma UnresolvedReason<P>(env: Env<P>, e: Entry)
    requires Resolve(e.name, env.configs).0 == None
    ensures (exists r :: r != "" && e.name == "target-" + r) ==> Check(env, e) == Rejected([TargetScoped])
    ensures forall r :: r != "" && e.name == "config-" + r ==>
              Check(env, e) == Rejected([DeviationConfigNotFound(r)])
    ensures (forall r :: r != "" ==> e.name != "target-" + r && e.name != "config-" + r) ==>
              Check(env, e) == Rejected([ConfigNotFound])
  {
    if r :| r != "" && e.name == "target-" + r {
      NamesSpelled(r);
      ParseInvertsPrint(e.name, TARGET, r);
    }
    forall r | r != "" && e.name == "config-" + r
      ensures Check(env, e) == Rejected([DeviationConfigNotFound(r)])
    {
      NamesSpelled(r);
      ParseInvertsPrint(e.name, CONFIG, r);
    }
    if ParseDeviationName(e.name) != None {
      var d := ParseDeviationName(e.name).value;
      ParseInvertsPrint(e.name, d.typ, d.resource);
      NamesSpelled(d.resource);
    }
  }

  /** For a resolved name: being revertive comes first, then every path that does not parse, in
      order, then the config's own paths. */
  lemma ResolvedReason<P>(env: Env<P>, e: Entry)
    requires Resolve(e.name, env.configs).0 != None
    ensures var c := Resolve(e.name, env.configs).0.value;
            && (Revertive(c, env.nonRevertiveByDefault) ==> Check(env, e) == Rejected([IsRevertive]))
            && (!Revertive(c, env.nonRevertiveByDefault) && (exists p <- e.paths :: env.parse(p) == None) ==>
                  Check(env, e).Rejected? && Listing(env, e.paths, Check(env, e).errors))
            && (!Revertive(c, env.nonRevertiveByDefault) && (forall p <- e.paths :: env.parse(p) != None) ==>
                  (exists b <- c.blobs :: env.parse(b.path) == None) ==> Check(env, e) == Rejected([UpdateFailed]))
  {
    PathsParsed(env, e.paths);
    BadPathsListed(env, e.paths);
    UpdatesParsed(env, Resolve(e.name, env.configs).0.value.blobs);
  }

  /** errors holds InvalidPath for the paths that do not parse, in their order. */
  ghost predicate Listing<P>(env: Env<P>, paths: seq<string>, errors: seq<Reason>) {
    exists places :: Places(env, paths, errors, places)
  }

  /** The k-th error is about the path at places[k]. */
  predicate Places<P>(env: Env<P>, paths: seq<string>, errors: seq<Reason>, places: seq<nat>) {
    && |places| == |errors|
    && (forall k :: 0 <= k < |places| ==> places[k] < |paths| && errors[k] == InvalidPath(paths[places[k]]))
    && (forall k, l :: 0 <= k < l < |places| ==> places[k] < places[l])
    && (forall i :: 0 <= i < |paths| ==> (i in places <==> env.parse(paths[i]) == None))
  }

  lemma {:induction false} BadPathsLast<P>(env: Env<P>, paths: seq<string>, p: string)
    ensures BadPaths(env, paths + [p])
         == BadPaths(env, paths) + if env.parse(p) == None then [InvalidPath(p)] else []
  {
    if paths == [] {
      assert [p][1..] == [] && [] + [p] == [p];
    } else {
      BadPathsLast(env, paths[1..], p);
      assert (paths + [p])[1..] == paths[1..] + [p];
    }
  }

  lemma {:induction false} BadPathsListed<P>(env: Env<P>, paths: seq<string>)
    ensures Listing(env, paths, BadPaths(env, paths))
    decreases |paths|
  {
    hide BadPaths, Places;
    if paths == [] {
      NoBadPaths(env);
    } else {
      var n: nat := |paths| - 1;
      BadPathsListed(env, paths[..n]);
      BadPathsLast(env, paths[..n], paths[n]);
      assert paths == paths[..n] + [paths[n]];
      var places :| Places(env, paths[..n], BadPaths(env, paths[..n]), places);
      PlacesStep(env, paths[..n], paths[n], BadPaths(env, paths[..n]), places);
    }
  }

  lemma NoBadPaths<P>(env: Env<P>)
    ensures BadPaths(env, []) == [] && Places(env, [], [], [])
  {
  }

  lemma PlacesStep<P>(env: Env<P>, paths: seq<string>, p: string, errors: seq<Reason>, places: seq<nat>)
    requires Places(env, paths, errors, places)
    ensures env.parse(p) == None ==> Places(env, paths + [p], errors + [InvalidPath(p)], places + [|paths|])
    ensures env.parse(p) != None ==> Places(env, paths + [p], errors + [], places)
  {
    assert errors + [] == errors && |paths| !in places;
    var more := places + [|paths|];
    forall i | 0 <= i < |paths|
      ensures i in more <==> i in places
      ensures (paths + [p])[i] == paths[i]
    {
    }
    assert |paths| in more;
  }

  /** Every entry ends up on exactly one side. */
  lemma {:induction false} EntriesSplit<P>(env: Env<P>, entries: seq<Entry>)
    ensures |Intents(env, entries)| + |Rejections(env, entries)| == |entries|
    ensures Rejections(env, entries) == [] <==> forall e <- entries :: Check(env, e).Valid?
    decreases |entries|
  {
    hide Check;
    if entries != [] {
      EntriesSplit(env, entries[..|entries| - 1]);
      assert entries == entries[..|entries| - 1] + [entries[|entries| - 1]];
    }
  }

  /** Without rejections there is one non-revertive intent per entry, in order, for the config it names. */
  lemma {:induction false} OneIntentPerEntry<P>(env: Env<P>, entries: seq<Entry>, i: nat)
    requires Rejections(env, entries) == [] && i < |entries|
    ensures |Intents(env, entries)| == |entries|
    ensures var intent := Intents(env, entries)[i];
            && Check(env, entries[i]) == Valid(intent)
            && intent.nonRevertive
            && Resolve(entries[i].name, env.configs).0 != None
            && intent.key == IntentKey(env.configs[ConfigName(entries[i].name, env.configs)])
    decreases |entries|
  {
    var init := entries[..|entries| - 1];
    EntriesSplit(env, entries);
    EntriesSplit(env, init);
    if i < |init| { OneIntentPerEntry(env, init, i); }
  }

  /** field.Invalid(spec.config[index], name, errors). */
  datatype FieldError = FieldError(index: nat, name: string, errors: seq<Reason>)

  /** validationErrorsToFieldErrors: the index is the position in the list of rejections. */
  method ToFieldErrors(rejections: seq<ConfigResult>) returns (fields: seq<FieldError>)
    ensures fields == FieldErrors(rejections)
  {
    fields := [];
    for i := 0 to |rejections|
      invariant fields == FieldErrors(rejections[..i])
    {
      assert rejections[..i + 1][..i] == rejections[..i];
      fields := fields + [FieldError(i, rejections[i].name, rejections[i].errors)];
    }
    assert rejections[..|rejections|] == rejections;
  }

  function FieldErrors(rejections: seq<ConfigResult>): (fields: seq<FieldError>)
    ensures |fields| == |rejections|
  {
    seq(|rejections|, i requires 0 <= i < |rejections| => FieldError(i, rejections[i].name, rejections[i].errors))
  }

  /** How many entries before p were rejected. */
  function FieldIndex<P>(env: Env<P>, entries: seq<Entry>, p: nat): nat
    requires p < |entries|
  {
    |Rejections(env, entries[..p])|
  }

  /** The field error of a rejected entry is found at that place, under the entry's name, and
      reports that place as its index. */
  lemma {:induction false} FieldErrorOf<P>(env: Env<P>, entries: seq<Entry>, p: nat)
    requires p < |entries| && Check(env, entries[p]).Rejected?
    ensures var k, e := FieldIndex(env, entries, p), entries[p];
            && k < |Rejections(env, entries)|
            && Rejections(env, entries)[k] == ConfigResult(e.name, false, Check(env, e).errors)
            && FieldErrors(Rejections(env, entries))[k] == FieldError(k, e.name, Check(env, e).errors)
    decreases |entries|
  {
    hide Check;
    var n := |entries| - 1;
    if p < n {
      FieldErrorOf(env, entries[..n], p);
      assert entries[..n][..p] == entries[..p];
    }
  }

  /** So the index reported for a rejected entry is its own exactly when every entry before
      it was rejected too. */
  lemma FieldIndexRight<P>(env: Env<P>, entries: seq<Entry>, p: nat)
    requires p < |entries| && Check(env, entries[p]).Rejected?
    ensures FieldIndex(env, entries, p) == p <==> forall q :: 0 <= q < p ==> Check(env, entries[q]).Rejected?
    ensures FieldIndex(env, entries, p) <= p
  {
    EntriesSplit(env, entries[..p]);
    NoIntents(env, entries[..p]);
  }

  lemma {:induction false} NoIntents<P>(env: Env<P>, entries: seq<Entry>)
    ensures Intents(env, entries) == [] <==> forall q :: 0 <= q < |entries| ==> Check(env, entries[q]).Rejected?
    decreases |entries|
  {
    hide Check;
    if entries != [] { NoIntents(env, entries[..|entries| - 1]); }
  }

  /** A valid entry, then an unknown name: entry 1 is reported as spec.config[0]. */
  lemma FieldIndexWrong<P>(parse: string -> Option<P>)
    ensures var env := Env(parse, true, map["good" := Config("ns", "good", 0, None, [], None)]);
            var entries := [Entry("good", []), Entry("bad", [])];
            && Check(env, entries[0]).Valid?
            && FieldErrors(Rejections(env, entries)) == [FieldError(0, "bad", [ConfigNotFound])]
  {
    var env := Env(parse, true, map["good" := Config("ns", "good", 0, None, [], None)]);
    var entries := [Entry("good", []), Entry("bad", [])];
    Scan("bad");
    assert Check(env, entries[1]) == Rejected([ConfigNotFound]);
    assert GoodPaths(env, []) == [] && BadPaths(env, []) == [] && Updates(env, []) == Some([]);
    hide Check;
    assert entries[..1][..0] == [];
    assert Rejections(env, entries[..1]) == [];
  }
}
