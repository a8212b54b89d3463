/** DeviationName and ParseDeviationName as printer and parser. */
module DeviationNames {
  import opened GoInt

  const CONFIG := "config"
  const TARGET := "target"

  datatype Parsed = Parsed(typ: string, resource: string)

  function DeviationName(typ: string, resource: string): string {
    typ + "-" + resource
  }

  /** strings.CutPrefix. */
  function CutPrefix(s: string, prefix: string): Option<string> {
    if prefix <= s then Some(s[|prefix|..]) else None
  }

  /** The scan over the known types, in order. */
  function ParseAs(types: seq<string>, name: string): Option<Parsed> {
    if types == [] then None
    else
      var rest := CutPrefix(name, types[0] + "-");
      if rest != None && rest.value != "" then Some(Parsed(types[0], rest.value)) else ParseAs(types[1..], name)
  }

  function ParseDeviationName(name: string): Option<Parsed> {
    ParseAs([CONFIG, TARGET], name)
  }

  lemma Scan(name: string)
    ensures ParseDeviationName(name)
         == var c, t := CutPrefix(name, CONFIG + "-"), CutPrefix(name, TARGET + "-");
            if c != None && c.value != "" then Some(Parsed(CONFIG, c.value))
            else if t != None && t.value != "" then Some(Parsed(TARGET, t.value))
            else None
  {
    var types := [CONFIG, TARGET];
    assert types[1..] == [TARGET] && types[1..][1..] == [];
    assert ParseAs(types[1..][1..], name) == None;
    assert ParseAs(types, name) == ParseDeviationName(name);
  }

  lemma NamesSpelled(resource: string)
    ensures DeviationName(CONFIG, resource) == "config-" + resource
    ensures DeviationName(TARGET, resource) == "target-" + resource
  {
    assert "config" + "-" == "config-" && "target" + "-" == "target-";
  }

  /** No name has both prefixes. */
  lemma PrefixesDiffer(name: string)
    ensures !(CONFIG + "-" <= name && TARGET + "-" <= name)
  {
    if CONFIG + "-" <= name { assert name[0] == (CONFIG + "-")[0] == 'c'; }
    if TARGET + "-" <= name { assert name[0] == (TARGET + "-")[0] == 't'; }
  }

  /** A name parses exactly when it was printed from a known type and a non-empty
      resource, and then to just that pair. */
  lemma ParseInvertsPrint(name: string, typ: string, resource: string)
    ensures ParseDeviationName(name) == Some(Parsed(typ, resource))
       <==> (typ == CONFIG || typ == TARGET) && resource != "" && name == DeviationName(typ, resource)
  {
    Scan(name);
    PrefixesDiffer(name);
    var prefix := typ + "-";
    assert prefix + resource == DeviationName(typ, resource);
    if prefix <= name { assert name == prefix + name[|prefix|..]; }
    if name == DeviationName(typ, resource) { assert name[|prefix|..] == resource; }
  }

  /** Config and target deviations never share a name, nor do two resources of one type. */
  lemma NamesNeverCollide(typ: string, resource: string, typ': string, resource': string)
    requires (typ == CONFIG || typ == TARGET) && (typ' == CONFIG || typ' == TARGET)
    ensures DeviationName(typ, resource) == DeviationName(typ', resource') <==> typ == typ' && resource == resource'
  {
    var name := DeviationName(typ, resource);
    PrefixesDiffer(name);
    if name == DeviationName(typ', resource') {
      assert typ + "-" <= name && typ' + "-" <= name;
      assert name[|typ + "-"|..] == resource;
      assert name[|typ' + "-"|..] == resource';
    }
  }
}
