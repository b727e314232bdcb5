/** The rkt network definition (`Network`): one JSON file per network under
    a fixed directory, loaded when a scope is entered, replaced in memory
    when the desired configuration differs structurally, and written back on
    a clean scope exit only if something changed.

    The file system is an abstract store from paths to parsed documents;
    `json.dump` followed by `json.load` is the identity on the documents the
    reconciler writes, so the store holds the document itself. */
module RktNetwork {
  import opened Outcomes
  import opened Text

  /** `Network.DIR`. */
  const DIR := "/etc/rkt/net.d"

  /** A JSON document as `json.load` returns it (numbers limited to integers). */
  datatype Json =
    | JNull
    | JBool(b: bool)
    | JNum(n: int)
    | JStr(s: string)
    | JArr(items: seq<Json>)
    | JObj(fields: map<string, Json>)

  /** A file as the reconciler can read it: a JSON document, or text that is not JSON. */
  datatype StoredFile = Document(doc: Json) | Unparsable

  /** The file system: the files that exist, by path. */
  type Store = map<string, StoredFile>

  /** The desired network configuration handed to `update`. */
  datatype NetConf = NetConf(name: string, bridge: string, subnet: string, mask: int)

  /** A `Network`: its name, file name, in-memory definition and dirty flag. */
  datatype Network = Network(name: string, filename: string, data: Json, dirty: bool)

  /** The exceptions the reconciler can raise. */
  datatype NetError =
    | InvalidJson(path: string)        // the file exists but does not hold JSON
    | KeyMissing(key: string)          // KeyError
    | NotSubscriptable                 // TypeError: indexing a value that is not an object
    | NotAString                       // AttributeError: `split` on a value that is not a string
    | WrongPartCount(count: nat)       // ValueError: the subnet does not split into two parts
    | InvalidMask(text: string)        // ValueError from `int(mask)`

  /** What `get_conf` returns. */
  datatype ConfView = ConfView(name: Json, bridge: Json, subnet: string, mask: int)

  /** `Network(name)`: nothing loaded, nothing to write, and a file name that
      embeds the network name between `50-` and `.conf`. */
  function NewNetwork(name: string): (n: Network)
    ensures n.name == name && n.data == JObj(map[]) && !n.dirty
    ensures |n.filename| == |name| + 8
    ensures n.filename[..3] == "50-" && n.filename[3..|name| + 3] == name && n.filename[|name| + 3..] == ".conf"
  {
    Network(name, "50-" + name + ".conf", JObj(map[]), false)
  }

  /** `path`: the file name under `DIR`, or the file name itself when it is
      absolute. */
  function Path(n: Network): (p: string)
    ensures |n.filename| > 0 && n.filename[0] == '/' ==> p == n.filename
    ensures !(|n.filename| > 0 && n.filename[0] == '/') ==> p == DIR + "/" + n.filename
  {
    PathJoin(DIR, n.filename)
  }

  /** Each network has its own file, `/etc/rkt/net.d/50-<name>.conf`. */
  lemma PathOfNetwork(name: string, other: string)
    ensures Path(NewNetwork(name)) == "/etc/rkt/net.d/50-" + name + ".conf"
    ensures other != name ==> Path(NewNetwork(other)) != Path(NewNetwork(name))
  {
    var p, q := Path(NewNetwork(name)), Path(NewNetwork(other));
    assert p == DIR + "/" + NewNetwork(name).filename;
    assert q == DIR + "/" + NewNetwork(other).filename;
  }

  /** `_make_ipam(conf)`: a `host-local` allocator whose subnet is the
      configured subnet, a `/`, and the mask as `%s` formats it
      (`MakeIpamMask` shows it reads back as the mask). */
  function MakeIpam(conf: NetConf): (j: Json)
    ensures j.JObj? && j.fields.Keys == {"type", "subnet"} && j.fields["type"] == JStr("host-local")
    ensures j.fields["subnet"].JStr? && |j.fields["subnet"].s| > |conf.subnet| + 1
    ensures j.fields["subnet"].s[..|conf.subnet| + 1] == conf.subnet + "/"
    ensures j.fields["subnet"].s[|conf.subnet| + 1..] == IntToString(conf.mask)
  {
    var subnet := conf.subnet + "/" + IntToString(conf.mask);
    assert subnet[|conf.subnet| + 1..] == IntToString(conf.mask);
    JObj(map["type" := JStr("host-local"), "subnet" := JStr(subnet)])
  }

  /** The text after the configured subnet and its `/` in the allocator's
      subnet holds no further `/` and reads back as the configured mask. */
  lemma MakeIpamMask(conf: NetConf)
    ensures var text := MakeIpam(conf).fields["subnet"].s[|conf.subnet| + 1..];
      '/' !in text && ParseInt(text) == Some(conf.mask)
  {
    ParseIntOfIntToString(conf.mask);
    IntToStringHasNoChar(conf.mask, '/');
  }

  /** `_make(conf)` for the network called `name`: a bridge definition naming
      the network and the configured bridge, with the allocator of
      `_make_ipam`. The configuration's own name plays no part. */
  function Make(name: string, conf: NetConf): (j: Json)
    ensures j.JObj? && "name" in j.fields && "type" in j.fields && "bridge" in j.fields && "ipam" in j.fields
    ensures j.fields["name"] == JStr(name) && j.fields["type"] == JStr("bridge")
    ensures j.fields["bridge"] == JStr(conf.bridge) && j.fields["ipam"] == MakeIpam(conf)
  {
    JObj(map["name" := JStr(name), "type" := JStr("bridge"), "bridge" := JStr(conf.bridge), "ipam" := MakeIpam(conf)])
  }

  /** Two configurations give the same definition exactly when they agree on
      bridge, subnet and mask: the definition loses nothing `update` compares. */
  lemma MakeDetermines(name: string, c1: NetConf, c2: NetConf)
    ensures Make(name, c1) == Make(name, c2) <==>
      c1.bridge == c2.bridge && c1.subnet == c2.subnet && c1.mask == c2.mask
  {
    if Make(name, c1) == Make(name, c2) {
      var m1, m2 := IntToString(c1.mask), IntToString(c2.mask);
      assert JStr(c1.bridge) == JStr(c2.bridge);
      assert MakeIpam(c1).fields["subnet"] == MakeIpam(c2).fields["subnet"];
      assert c1.subnet + ['/'] + m1 == c2.subnet + ['/'] + m2 by {
        assert c1.subnet + "/" + m1 == c2.subnet + "/" + m2;
      }
      IntToStringHasNoChar(c1.mask, '/');
      IntToStringHasNoChar(c2.mask, '/');
      SeparatedAtLast(c1.subnet, m1, c2.subnet, m2, '/');
      ParseIntOfIntToString(c1.mask);
      ParseIntOfIntToString(c2.mask);
    }
  }

  /** `__eq__`: networks compare by their definitions alone. */
  predicate SameData(a: Network, b: Network) {
    a.data == b.data
  }

  /** `update(conf)`: afterwards the definition is the one made from `conf`,
      and the network is dirty exactly when it was already or the definition
      actually changed. Name and file stay. */
  function Update(n: Network, conf: NetConf): (r: Network)
    ensures r.data == Make(n.name, conf)
    ensures r.dirty <==> n.dirty || n.data != Make(n.name, conf)
    ensures r.name == n.name && r.filename == n.filename
  {
    var wanted := Make(n.name, conf);
    if n.data != wanted then n.(data := wanted, dirty := true) else n
  }

  /** Updating with the same configuration a second time changes nothing. */
  lemma UpdateIdempotent(n: Network, conf: NetConf)
    ensures Update(Update(n, conf), conf) == Update(n, conf)
  {
  }

  /** A network already holding the wanted definition stays exactly as it is,
      dirty flag included. */
  lemma UpdateNoChange(n: Network, conf: NetConf)
    requires n.data == Make(n.name, conf)
    ensures Update(n, conf) == n
  {
  }

  /** On a network holding the definition made from `prev`, `update(conf)`
      marks it dirty exactly when it was already or `conf` differs from
      `prev` in bridge, subnet or mask. */
  lemma UpdateDirtiesOnChange(n: Network, prev: NetConf, conf: NetConf)
    requires n.data == Make(n.name, prev)
    ensures Update(n, conf).dirty <==>
      n.dirty || prev.bridge != conf.bridge || prev.subnet != conf.subnet || prev.mask != conf.mask
  {
    MakeDetermines(n.name, prev, conf);
  }

  /** `load()`: a missing file (the read raises `IOError`) keeps the current
      definition; a file that is not JSON raises; otherwise the file's
      document becomes the definition. The dirty flag is never touched. */
  function Load(n: Network, store: Store): (r: Result<Network, NetError>)
    ensures Path(n) !in store ==> r == Success(n)
    ensures Path(n) in store && store[Path(n)].Unparsable? ==> r == Failure(InvalidJson(Path(n)))
    ensures Path(n) in store && store[Path(n)].Document? ==> r == Success(n.(data := store[Path(n)].doc))
  {
    var path := Path(n);
    if path !in store then Success(n)
    else
      match store[path]
      case Unparsable => Failure(InvalidJson(path))
      case Document(doc) => Success(n.(data := doc))
  }

  /** `save(force)`: writes the definition to the network's file exactly when
      the network is dirty or the write is forced; otherwise the store is
      untouched. The dirty flag is not cleared. */
  function Save(n: Network, store: Store, force: bool): (s: Store)
    ensures n.dirty || force ==> Path(n) in s && s[Path(n)] == Document(n.data)
    ensures forall p :: p != Path(n) ==> (p in s <==> p in store) && (p in s ==> s[p] == store[p])
    ensures !n.dirty && !force ==> s == store
  {
    if !n.dirty && !force then store else store[Path(n) := Document(n.data)]
  }

  /** What was saved is what a later load of the same network finds. */
  lemma SaveThenLoad(n: Network, m: Network, store: Store)
    requires m.filename == n.filename && n.dirty
    ensures Load(m, Save(n, store, false)) == Success(m.(data := n.data))
  {
  }

  /** `clear()`: the network's file is gone, every other file stays. */
  function Clear(n: Network, store: Store): (s: Store)
    ensures Path(n) !in s
    ensures forall p :: p != Path(n) ==> (p in s <==> p in store) && (p in s ==> s[p] == store[p])
  {
    store - {Path(n)}
  }

  /** After `clear()`, loading any network with the same file keeps its
      in-memory definition, as if the file had never been written. */
  lemma ClearThenLoad(n: Network, m: Network, store: Store)
    requires m.filename == n.filename
    ensures Load(m, Clear(n, store)) == Success(m)
  {
  }

  /** `__enter__`: load the file, keeping the in-memory definition when there
      is none and raising when it is not JSON; name, file and dirty flag stay. */
  function Enter(n: Network, store: Store): (r: Result<Network, NetError>)
    ensures r.Failure? <==> Path(n) in store && store[Path(n)].Unparsable?
    ensures r.Failure? ==> r.error == InvalidJson(Path(n))
    ensures r.Success? ==> r.value == n.(data := if Path(n) in store then store[Path(n)].doc else n.data)
  {
    Load(n, store)
  }

  /** `__exit__`: save (unforced) when the scope ended without an exception;
      with an exception in flight, the store is left as it was. */
  function Exit(n: Network, store: Store, raised: bool): (s: Store)
    ensures raised ==> s == store
    ensures !raised && n.dirty ==> Path(n) in s && s[Path(n)] == Document(n.data)
    ensures !raised && !n.dirty ==> s == store
    ensures forall p :: p != Path(n) ==> (p in s <==> p in store) && (p in s ==> s[p] == store[p])
  {
    if raised then store else Save(n, store, false)
  }

  /** `data[key]`: the member of a JSON object, `KeyError` when it lacks the
      key and `TypeError` when the value is not an object. */
  function Field(j: Json, key: string): (r: Result<Json, NetError>)
    ensures r.Success? <==> j.JObj? && key in j.fields
    ensures r.Success? ==> r.value == j.fields[key]
  {
    match j
    case JObj(fields) => if key in fields then Success(fields[key]) else Failure(KeyMissing(key))
    case _ => Failure(NotSubscriptable)
  }

  /** The definition's `ipam.subnet` is a string splitting at `/` into
      exactly `subnet` and a numeral for `mask`. */
  ghost predicate SubnetReads(data: Json, subnet: string, mask: int) {
    && data.JObj? && "ipam" in data.fields
    && var ipam := data.fields["ipam"];
    && ipam.JObj? && "subnet" in ipam.fields && ipam.fields["subnet"].JStr?
    && var parts := Split(ipam.fields["subnet"].s, '/');
    && |parts| == 2 && parts[0] == subnet && ParseInt(parts[1]) == Some(mask)
  }

  /** `get_conf()`: reads the definition back into name, bridge, subnet and
      mask. The subnet must split at `/` into exactly two parts, the second
      an integer; a definition that is not an object or lacks `ipam` raises
      before anything else is looked at. */
  function GetConf(n: Network): (r: Result<ConfView, NetError>)
    ensures !n.data.JObj? ==> r == Failure(NotSubscriptable)
    ensures n.data.JObj? && "ipam" !in n.data.fields ==> r == Failure(KeyMissing("ipam"))
    ensures r.Success? ==> Field(n.data, "name") == Success(r.value.name) && Field(n.data, "bridge") == Success(r.value.bridge)
    ensures r.Success? ==> SubnetReads(n.data, r.value.subnet, r.value.mask)
  {
    var ipam :- Field(n.data, "ipam");
    var subnet :- Field(ipam, "subnet");
    if !subnet.JStr? then Failure(NotAString)
    else
      var parts := Split(subnet.s, '/');
      if |parts| != 2 then Failure(WrongPartCount(|parts|))
      else
        var name :- Field(n.data, "name");
        var bridge :- Field(n.data, "bridge");
        match ParseInt(parts[1])
        case None => Failure(InvalidMask(parts[1]))
        case Some(mask) => Success(ConfView(name, bridge, parts[0], mask))
  }

  /** `get_conf()` after `update(conf)` gives back the network's name and the
      bridge, subnet and mask of `conf` exactly when the subnet contains no
      `/`; otherwise it fails on the split. Any integer mask survives. */
  lemma UpdateThenGetConf(n: Network, conf: NetConf)
    ensures GetConf(Update(n, conf)).Success? <==> '/' !in conf.subnet
    ensures '/' !in conf.subnet ==>
      GetConf(Update(n, conf)) == Success(ConfView(JStr(n.name), JStr(conf.bridge), conf.subnet, conf.mask))
  {
    var u := Update(n, conf);
    var subnet := conf.subnet + "/" + IntToString(conf.mask);
    MadeFields(n.name, conf);
    SubnetSplit(conf.subnet, conf.mask);
    GetConfOfSubnet(u, subnet);
  }

  /** The members `get_conf()` reads from a definition `_make` built. */
  lemma MadeFields(name: string, conf: NetConf)
    ensures Field(Make(name, conf), "ipam") == Success(MakeIpam(conf))
    ensures Field(MakeIpam(conf), "subnet") == Success(JStr(conf.subnet + "/" + IntToString(conf.mask)))
    ensures Field(Make(name, conf), "name") == Success(JStr(name))
    ensures Field(Make(name, conf), "bridge") == Success(JStr(conf.bridge))
  {
  }

  /** `get_conf()` on a definition whose members are present and whose subnet
      is the string `s`: it succeeds exactly when `s` splits at `/` into two
      parts, the second an integer, and then reports those parts. */
  lemma GetConfOfSubnet(n: Network, s: string)
    requires Field(n.data, "ipam").Success? && Field(Field(n.data, "ipam").value, "subnet") == Success(JStr(s))
    requires Field(n.data, "name").Success? && Field(n.data, "bridge").Success?
    ensures GetConf(n).Success? <==> |Split(s, '/')| == 2 && ParseInt(Split(s, '/')[1]).Some?
    ensures GetConf(n).Success? ==> GetConf(n) == Success(ConfView(
      Field(n.data, "name").value, Field(n.data, "bridge").value, Split(s, '/')[0], ParseInt(Split(s, '/')[1]).value))
  {
  }

  /** The subnet string `_make_ipam` builds splits at `/` into the subnet and
      the mask's digits exactly when the subnet has no `/` of its own. */
  lemma SubnetSplit(subnet: string, mask: int)
    ensures |Split(subnet + "/" + IntToString(mask), '/')| == 2 <==> '/' !in subnet
    ensures '/' !in subnet ==> Split(subnet + "/" + IntToString(mask), '/') == [subnet, IntToString(mask)]
    ensures ParseInt(IntToString(mask)) == Some(mask)
  {
    var m := IntToString(mask);
    IntToStringHasNoChar(mask, '/');
    assert multiset(subnet + "/" + m)['/'] == multiset(subnet)['/'] + 1 by {
      assert subnet + "/" + m == subnet + ['/'] + m;
      assert multiset(subnet + ['/'] + m) == multiset(subnet) + multiset(['/']) + multiset(m);
      assert '/' !in multiset(m);
    }
    if '/' !in subnet {
      SplitAroundSeparator(subnet, '/', m);
      assert subnet + "/" + m == subnet + ['/'] + m;
    } else {
      assert multiset(subnet)['/'] > 0;
    }
    ParseIntOfIntToString(mask);
  }

  /** `Rkt.configure_runtime()` for the configuration `conf`: enter the scope
      of network `conf.name`, update it with `conf`, and leave the scope
      cleanly. */
  function ConfigureRuntime(store: Store, conf: NetConf): (r: Result<Store, NetError>)
    ensures r.Failure? <==> Path(NewNetwork(conf.name)) in store && store[Path(NewNetwork(conf.name))].Unparsable?
    ensures r.Success? ==> var p := Path(NewNetwork(conf.name));
      && p in r.value && r.value[p] == Document(Make(conf.name, conf))
      && forall q :: q != p ==> (q in r.value <==> q in store) && (q in r.value ==> r.value[q] == store[q])
  {
    var net := NewNetwork(conf.name);
    assert net.data != Make(conf.name, conf) by {
      assert "name" in Make(conf.name, conf).fields;
    }
    var entered :- Enter(net, store);
    Success(Exit(Update(entered, conf), store, false))
  }

  /** Configuring the same network twice: the second run writes nothing. */
  lemma ConfigureIdempotent(store: Store, conf: NetConf)
    requires ConfigureRuntime(store, conf).Success?
    ensures var once := ConfigureRuntime(store, conf).value;
      ConfigureRuntime(once, conf) == Success(once)
  {
    var once := ConfigureRuntime(store, conf).value;
    var net := NewNetwork(conf.name);
    var entered := Enter(net, once).value;
    assert entered.data == Make(conf.name, conf) && !entered.dirty;
    assert Update(entered, conf) == entered;
  }

  /** After configuring, a fresh scope on the same network reads back the
      configured bridge, subnet and mask (subnet without `/`). */
  lemma ConfigureThenReadBack(store: Store, conf: NetConf)
    requires ConfigureRuntime(store, conf).Success?
    requires '/' !in conf.subnet
    ensures var reopened := Enter(NewNetwork(conf.name), ConfigureRuntime(store, conf).value);
      && reopened.Success?
      && GetConf(reopened.value) == Success(ConfView(JStr(conf.name), JStr(conf.bridge), conf.subnet, conf.mask))
  {
    var net := NewNetwork(conf.name);
    var once := ConfigureRuntime(store, conf).value;
    PathOfNetwork(conf.name, conf.name);
    assert once[Path(net)] == Document(Make(conf.name, conf));
    var reopened := Enter(net, once);
    assert reopened == Success(net.(data := Make(conf.name, conf)));
    UpdateThenGetConf(net, conf);
    GetConfReadsOnlyData(reopened.value, Update(net, conf));
  }

  /** Bridge `br0` on `10.0.0.0/24`: written once, read back field by field. */
  lemma ReadBackExample(store: Store, name: string)
    requires ConfigureRuntime(store, NetConf(name, "br0", "10.0.0.0", 24)).Success?
    ensures var reopened := Enter(NewNetwork(name), ConfigureRuntime(store, NetConf(name, "br0", "10.0.0.0", 24)).value);
      && reopened.Success?
      && GetConf(reopened.value) == Success(ConfView(JStr(name), JStr("br0"), "10.0.0.0", 24))
  {
    ConfigureThenReadBack(store, NetConf(name, "br0", "10.0.0.0", 24));
  }

  lemma GetConfReadsOnlyData(a: Network, b: Network)
    requires SameData(a, b)
    ensures GetConf(a) == GetConf(b)
  {
  }
}
