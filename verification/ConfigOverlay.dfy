/** The client configuration: which network a YAML value belongs to, and how the network's default
    configuration is laid under it. */
module ConfigOverlay {
  import opened ByteStrings

  datatype Value =
    | Null
    | Bool(b: bool)
    | Number(n: int)
    | String(s: string)
    | Sequence(items: seq<Value>)
    | Mapping(m: map<Value, Value>)

  // ----- merging -----

  function Merge(base: Value, overlay: Value): Value
    decreases overlay
  {
    if base.Mapping? && overlay.Mapping? then
      Mapping(map k | k in base.m.Keys + overlay.m.Keys ::
        if k !in overlay.m then base.m[k]
        else if k !in base.m then overlay.m[k]
        else Merge(base.m[k], overlay.m[k]))
    else
      overlay
  }

  /** `base` with the overlay's entries under `keys` merged in. */
  ghost predicate MergedFor(base: map<Value, Value>, overlay: map<Value, Value>, keys: set<Value>,
                            m: map<Value, Value>)
    requires keys <= overlay.Keys
  {
    && m.Keys == base.Keys + keys
    && (forall k | k in m && k !in keys :: m[k] == base[k])
    && (forall k | k in keys :: m[k] == if k in base then Merge(base[k], overlay[k]) else overlay[k])
  }

  lemma MergedForAll(base: map<Value, Value>, overlay: map<Value, Value>, m: map<Value, Value>)
    requires MergedFor(base, overlay, overlay.Keys, m)
    ensures Mapping(m) == Merge(Mapping(base), Mapping(overlay))
  {
    var merged := Merge(Mapping(base), Mapping(overlay)).m;
    assert m.Keys == merged.Keys;
    assert forall k | k in m :: m[k] == merged[k];
  }

  method MergeYaml(base: Value, overlay: Value) returns (merged: Value)
    ensures merged == Merge(base, overlay)
    decreases overlay
  {
    if !base.Mapping? || !overlay.Mapping? {
      return overlay;
    }
    var m := base.m;
    var todo := overlay.m.Keys;
    ghost var done: set<Value> := {};
    while todo != {}
      invariant todo !! done && todo + done == overlay.m.Keys
      invariant MergedFor(base.m, overlay.m, done, m)
      decreases |todo|
    {
      var key :| key in todo;
      var value := overlay.m[key];
      if key in m {
        value := MergeYaml(m[key], value);
      }
      m := m[key := value];
      todo, done := todo - {key}, done + {key};
    }
    assert done == overlay.m.Keys;
    MergedForAll(base.m, overlay.m, m);
    merged := Mapping(m);
  }

  // ----- what merging means, path by path -----

  /** The value under a path of mapping keys. */
  function Lookup(v: Value, path: seq<Value>): Option<Value> {
    if path == [] then Some(v)
    else if v.Mapping? && path[0] in v.m then Lookup(v.m[path[0]], path[1..])
    else None
  }

  /** Something on the way to the path is set, and is not a mapping. */
  predicate Shadows(v: Value, path: seq<Value>) {
    path != [] && (!v.Mapping? || (path[0] in v.m && Shadows(v.m[path[0]], path[1..])))
  }

  /** Every setting after the merge: the overlay's where it has one, merged with the base's if both have
      one; else the base's, unless the overlay shadows it. */
  lemma {:induction false} MergeByPath(base: Value, overlay: Value, path: seq<Value>)
    ensures Lookup(Merge(base, overlay), path) ==
            match Lookup(overlay, path)
            case Some(mine) =>
              Some(match Lookup(base, path) case Some(theirs) => Merge(theirs, mine) case None => mine)
            case None => if Shadows(overlay, path) then None else Lookup(base, path)
    decreases |path|
  {
    if path != [] && overlay.Mapping? {
      var k := path[0];
      if base.Mapping? && k in base.m && k in overlay.m {
        MergeByPath(base.m[k], overlay.m[k], path[1..]);
      }
    }
  }

  lemma {:induction false} MergeSelf(v: Value)
    ensures Merge(v, v) == v
    decreases v
  {
    if v.Mapping? {
      forall k | k in v.m
        ensures Merge(v.m[k], v.m[k]) == v.m[k]
      {
        MergeSelf(v.m[k]);
      }
      assert Merge(v, v).m == v.m;
    }
  }

  /** Laying the same defaults under a value again changes nothing. */
  lemma {:induction false} MergeAgain(base: Value, overlay: Value)
    ensures Merge(base, Merge(base, overlay)) == Merge(base, overlay)
    decreases overlay
  {
    if base.Mapping? && overlay.Mapping? {
      var once := Merge(base, overlay);
      var again := Merge(base, once);
      forall k | k in once.m
        ensures again.m[k] == once.m[k]
      {
        if k !in overlay.m {
          MergeSelf(base.m[k]);
        } else if k in base.m {
          MergeAgain(base.m[k], overlay.m[k]);
        }
      }
      assert again.m == once.m;
    }
  }

  // ----- detecting the network -----

  datatype NetworkKind = Mainnet | Testnet | Default

  datatype ContractIds = ContractIds(systemObject: bytes, stakingObject: bytes)

  /** The built-in configurations, and the contract IDs read from them; each may fail to load. */
  datatype Networks = Networks(
    mainnetIds: Option<ContractIds>,
    testnetIds: Option<ContractIds>,
    mainnet: Option<Value>,
    testnet: Option<Value>)

  /** Parses an object ID from a hex literal; left uninterpreted. */
  type HexParser = string -> Option<bytes>

  const SYSTEM_OBJECT := String("system_object")
  const STAKING_OBJECT := String("staking_object")
  const CONTEXTS := String("contexts")

  function ObjectIdFromValue(parse: HexParser, v: Value): Option<bytes> {
    if v.String? then parse(v.s) else None
  }

  function ExtractContractIds(parse: HexParser, v: Value): Option<ContractIds> {
    if !v.Mapping? || SYSTEM_OBJECT !in v.m || STAKING_OBJECT !in v.m then None
    else
      var system := ObjectIdFromValue(parse, v.m[SYSTEM_OBJECT]);
      var staking := ObjectIdFromValue(parse, v.m[STAKING_OBJECT]);
      if system.Some? && staking.Some? then Some(ContractIds(system.value, staking.value)) else None
  }

  function DetectNetworkKind(parse: HexParser, networks: Networks, v: Value): NetworkKind {
    var ids := ExtractContractIds(parse, v);
    if ids.None? then Default
    else if networks.mainnetIds == ids then Mainnet
    else if networks.testnetIds == ids then Testnet
    else Default
  }

  function DefaultsValueFor(networks: Networks, kind: NetworkKind): Option<Value> {
    match kind
    case Mainnet => networks.mainnet
    case Testnet => networks.testnet
    case Default => None
  }

  // ----- applying the defaults -----

  /** The defaults of the network a value belongs to. */
  function DefaultsOf(parse: HexParser, networks: Networks, v: Value): Option<Value> {
    DefaultsValueFor(networks, DetectNetworkKind(parse, networks, v))
  }

  function WithDefaults(parse: HexParser, networks: Networks, v: Value): Value {
    var defaults := DefaultsOf(parse, networks, v);
    if defaults.None? then v else Merge(defaults.value, v)
  }

  predicate HasContexts(v: Value) {
    v.Mapping? && CONTEXTS in v.m && v.m[CONTEXTS].Mapping?
  }

  function Applied(parse: HexParser, networks: Networks, v: Value): Value {
    if HasContexts(v) then
      var contexts := v.m[CONTEXTS].m;
      Mapping(v.m[CONTEXTS := Mapping(map c | c in contexts :: WithDefaults(parse, networks, contexts[c]))])
    else
      WithDefaults(parse, networks, v)
  }

  method ApplyNetworkDefaultsToValue(parse: HexParser, networks: Networks, v: Value) returns (r: Value)
    ensures r == WithDefaults(parse, networks, v)
  {
    var kind := DetectNetworkKind(parse, networks, v);
    var defaults := DefaultsValueFor(networks, kind);
    if defaults.None? {
      return v;
    }
    r := MergeYaml(defaults.value, v);
  }

  method ApplyNetworkDefaults(parse: HexParser, networks: Networks, raw: Value) returns (r: Value)
    ensures r == Applied(parse, networks, raw)
  {
    if HasContexts(raw) {
      var contexts := raw.m[CONTEXTS].m;
      var m: map<Value, Value> := map[];
      var todo := contexts.Keys;
      while todo != {}
        invariant todo <= contexts.Keys && m.Keys == contexts.Keys - todo
        invariant forall c | c in m :: m[c] == WithDefaults(parse, networks, contexts[c])
        decreases |todo|
      {
        var c :| c in todo;
        var value := ApplyNetworkDefaultsToValue(parse, networks, contexts[c]);
        m := m[c := value];
        todo := todo - {c};
      }
      assert m == map c | c in contexts :: WithDefaults(parse, networks, contexts[c]);
      return Mapping(raw.m[CONTEXTS := Mapping(m)]);
    }
    r := ApplyNetworkDefaultsToValue(parse, networks, raw);
  }

  /** The contract IDs a user set decide the network before and after the defaults are applied. */
  lemma SameNetworkAfterwards(parse: HexParser, networks: Networks, v: Value)
    ensures DetectNetworkKind(parse, networks, WithDefaults(parse, networks, v))
            == DetectNetworkKind(parse, networks, v)
  {
    var defaults := DefaultsOf(parse, networks, v);
    if defaults.Some? {
      assert ExtractContractIds(parse, v).Some?;
      assert ExtractContractIds(parse, Merge(defaults.value, v)) == ExtractContractIds(parse, v);
    }
  }

  /** Applying the defaults twice is applying them once. */
  lemma WithDefaultsAgain(parse: HexParser, networks: Networks, v: Value)
    ensures WithDefaults(parse, networks, WithDefaults(parse, networks, v)) == WithDefaults(parse, networks, v)
  {
    SameNetworkAfterwards(parse, networks, v);
    var defaults := DefaultsOf(parse, networks, v);
    if defaults.Some? {
      MergeAgain(defaults.value, v);
    }
  }

  /** The defaults bring a mapping of contexts where the user's value says nothing about contexts. */
  predicate BringsContexts(defaults: Value, v: Value) {
    HasContexts(defaults) && v.Mapping? && CONTEXTS !in v.m
  }

  lemma GainedContexts(defaults: Value, v: Value)
    requires !HasContexts(v)
    ensures HasContexts(Merge(defaults, v)) <==> BringsContexts(defaults, v)
    ensures BringsContexts(defaults, v) ==> Merge(defaults, v).m[CONTEXTS] == defaults.m[CONTEXTS]
  {
  }

  /** Applying the defaults to a whole file twice is applying them once, except for a file that says
      nothing about contexts and gets some from defaults whose own contexts need defaults. */
  lemma AppliedAgain(parse: HexParser, networks: Networks, v: Value)
    ensures Applied(parse, networks, Applied(parse, networks, v)) == Applied(parse, networks, v)
            <==> var defaults := DefaultsOf(parse, networks, v);
                 defaults.Some? && BringsContexts(defaults.value, v) ==>
                   ContextsSettled(parse, networks, defaults.value)
  {
    var defaults := DefaultsOf(parse, networks, v);
    if HasContexts(v) {
      ContextsAgain(parse, networks, v);
    } else if defaults.None? {
      WithDefaultsAgain(parse, networks, v);
    } else {
      GainedContexts(defaults.value, v);
      var once := Merge(defaults.value, v);
      if HasContexts(once) {
        SettledExactly(parse, networks, once);
      } else {
        WithDefaultsAgain(parse, networks, v);
      }
    }
  }

  /** Every context already is what applying the defaults makes of it. */
  predicate ContextsSettled(parse: HexParser, networks: Networks, v: Value)
    requires HasContexts(v)
  {
    forall c | c in v.m[CONTEXTS].m :: WithDefaults(parse, networks, v.m[CONTEXTS].m[c]) == v.m[CONTEXTS].m[c]
  }

  lemma SettledExactly(parse: HexParser, networks: Networks, v: Value)
    requires HasContexts(v)
    ensures Applied(parse, networks, v) == v <==> ContextsSettled(parse, networks, v)
  {
    var contexts := v.m[CONTEXTS].m;
    var after := map c | c in contexts :: WithDefaults(parse, networks, contexts[c]);
    assert Applied(parse, networks, v).m[CONTEXTS] == Mapping(after);
    if ContextsSettled(parse, networks, v) {
      assert after == contexts;
      assert v.m[CONTEXTS := Mapping(after)] == v.m;
    } else {
      var c :| c in contexts && WithDefaults(parse, networks, contexts[c]) != contexts[c];
      assert after[c] != contexts[c];
    }
  }

  lemma ContextsAgain(parse: HexParser, networks: Networks, v: Value)
    requires HasContexts(v)
    ensures Applied(parse, networks, Applied(parse, networks, v)) == Applied(parse, networks, v)
  {
    var once := Applied(parse, networks, v);
    var contexts := v.m[CONTEXTS].m;
    forall c | c in once.m[CONTEXTS].m
      ensures WithDefaults(parse, networks, once.m[CONTEXTS].m[c]) == once.m[CONTEXTS].m[c]
    {
      WithDefaultsAgain(parse, networks, contexts[c]);
    }
    SettledExactly(parse, networks, once);
  }

  /** What the user set stays: every set value that is not a mapping is found under its path. */
  lemma UserSettingsWin(parse: HexParser, networks: Networks, v: Value, path: seq<Value>)
    requires Lookup(v, path).Some? && !Lookup(v, path).value.Mapping?
    ensures Lookup(WithDefaults(parse, networks, v), path) == Lookup(v, path)
  {
    var defaults := DefaultsOf(parse, networks, v);
    if defaults.Some? {
      MergeByPath(defaults.value, v, path);
    }
  }

  predicate NamesObject(parse: HexParser, v: Value, key: Value, id: bytes) {
    var setting := Lookup(v, [key]);
    setting.Some? && setting.value.String? && parse(setting.value.s) == Some(id)
  }

  /** The user's configuration names these contract objects. */
  predicate NamesContracts(parse: HexParser, v: Value, ids: ContractIds) {
    && NamesObject(parse, v, String("system_object"), ids.systemObject)
    && NamesObject(parse, v, String("staking_object"), ids.stakingObject)
  }

  lemma LookupOne(v: Value, key: Value)
    ensures Lookup(v, [key]) == if v.Mapping? && key in v.m then Some(v.m[key]) else None
  {
    var path := [key];
    assert path[1..] == [];
    assert v.Mapping? && key in v.m ==> Lookup(v.m[path[0]], path[1..]) == Some(v.m[key]);
  }

  lemma NamedContractsAreExtracted(parse: HexParser, v: Value, ids: ContractIds)
    ensures NamesContracts(parse, v, ids) <==> ExtractContractIds(parse, v) == Some(ids)
  {
    LookupOne(v, SYSTEM_OBJECT);
    LookupOne(v, STAKING_OBJECT);
  }

  /** What the user left out is the default of the network whose contracts the configuration names. */
  lemma DefaultsFillGaps(parse: HexParser, networks: Networks, v: Value, path: seq<Value>, ids: ContractIds)
    requires Lookup(v, path).None? && !Shadows(v, path) && NamesContracts(parse, v, ids)
    ensures var filled := Lookup(WithDefaults(parse, networks, v), path);
            && (Some(ids) == networks.mainnetIds && networks.mainnet.Some? ==>
                  filled == Lookup(networks.mainnet.value, path))
            && (Some(ids) == networks.testnetIds != networks.mainnetIds && networks.testnet.Some? ==>
                  filled == Lookup(networks.testnet.value, path))
            && (Some(ids) != networks.mainnetIds && Some(ids) != networks.testnetIds ==> filled == None)
  {
    NamedContractsAreExtracted(parse, v, ids);
    var defaults := DefaultsOf(parse, networks, v);
    if defaults.Some? {
      MergeByPath(defaults.value, v, path);
    }
  }

  /** A configuration of no known network stays as it is. */
  lemma UnknownNetworkUnchanged(parse: HexParser, networks: Networks, v: Value)
    requires forall ids | NamesContracts(parse, v, ids) ::
               Some(ids) != networks.mainnetIds && Some(ids) != networks.testnetIds
    ensures WithDefaults(parse, networks, v) == v
  {
    var ids := ExtractContractIds(parse, v);
    if ids.Some? {
      NamedContractsAreExtracted(parse, v, ids.value);
    }
  }

  /** In a file with contexts the same holds inside every context, and nothing outside them changes. */
  lemma ContextsApart(parse: HexParser, networks: Networks, v: Value, path: seq<Value>)
    requires HasContexts(v) && |path| >= 2
    ensures Lookup(Applied(parse, networks, v), path) ==
            if path[0] != String("contexts") then Lookup(v, path)
            else if path[1] in v.m[CONTEXTS].m then
              Lookup(WithDefaults(parse, networks, v.m[CONTEXTS].m[path[1]]), path[2..])
            else None
  {
    assert path[1..][1..] == path[2..];
  }

  /** Whether the user's file has a mapping of contexts is seen under its key. */
  lemma ContextsByPath(v: Value)
    ensures HasContexts(v) <==> var c := Lookup(v, [String("contexts")]); c.Some? && c.value.Mapping?
  {
    LookupOne(v, CONTEXTS);
  }

  /** In a file without contexts the user's settings win at the top level. */
  lemma FileSettingsWin(parse: HexParser, networks: Networks, v: Value, path: seq<Value>)
    requires !HasContexts(v) && Lookup(v, path).Some? && !Lookup(v, path).value.Mapping?
    ensures Lookup(Applied(parse, networks, v), path) == Lookup(v, path)
  {
    UserSettingsWin(parse, networks, v, path);
  }

  /** And what it leaves open is the default of the network whose contracts it names. */
  lemma FileDefaultsFillGaps(parse: HexParser, networks: Networks, v: Value, path: seq<Value>, ids: ContractIds)
    requires !HasContexts(v) && Lookup(v, path).None? && !Shadows(v, path) && NamesContracts(parse, v, ids)
    ensures var filled := Lookup(Applied(parse, networks, v), path);
            && (Some(ids) == networks.mainnetIds && networks.mainnet.Some? ==>
                  filled == Lookup(networks.mainnet.value, path))
            && (Some(ids) == networks.testnetIds != networks.mainnetIds && networks.testnet.Some? ==>
                  filled == Lookup(networks.testnet.value, path))
            && (Some(ids) != networks.mainnetIds && Some(ids) != networks.testnetIds ==> filled == None)
  {
    DefaultsFillGaps(parse, networks, v, path, ids);
  }

  /** The built-in configurations bring no contexts. */
  predicate NoDefaultContexts(networks: Networks) {
    && (networks.mainnet.Some? ==> Plain(networks.mainnet.value))
    && (networks.testnet.Some? ==> Plain(networks.testnet.value))
  }

  predicate Plain(v: Value) {
    v.Mapping? && CONTEXTS !in v.m
  }

  /** Then applying the defaults is idempotent on every file. */
  lemma AppliedIsIdempotent(parse: HexParser, networks: Networks, v: Value)
    requires NoDefaultContexts(networks)
    ensures Applied(parse, networks, Applied(parse, networks, v)) == Applied(parse, networks, v)
  {
    AppliedAgain(parse, networks, v);
  }
}
