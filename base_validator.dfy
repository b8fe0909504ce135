/** `BaseValidator` of `eden_subnet/base/base.py`: choosing the miners a
    validator can query, and scoring a miner from the chain's weights. The
    chain client's query results and the validator's own ss58 address are
    parameters. */
module BaseValidator {
  import opened Wrappers
  import opened Strings
  import opened IpRegex
  import opened BaseModule

  /** The per-miner `module_info` dict. Each key of the Python dict is a field
      that is `Some` when the key was set. */
  datatype ModuleInfo = ModuleInfo(
    netuid: Option<int>,
    ss58Address: Option<seq<string>>,
    host: Option<string>,
    port: Option<string>)

  const EmptyInfo := ModuleInfo(None, None, None, None)

  /** A dict's items: no id occurs twice. */
  ghost predicate DistinctIds(listing: seq<(int, string)>) {
    forall j, k :: 0 <= j < k < |listing| ==> listing[j].0 != listing[k].0
  }

  /** The loop skips the master (id 0) and the validator itself. */
  predicate Queryable(item: (int, string), ownKey: string) {
    item.0 != 0 && item.1 != ownKey
  }

  /** The entry the loop builds for a queryable id: `netuid` and the
      `[ip, port]` list when the id's address parsed, nothing otherwise. */
  function MinerEntry(id: int, ipPort: map<int, seq<string>>): (r: ModuleInfo)
    ensures r.netuid.Some? <==> r.ss58Address.Some?
    ensures r.netuid.Some? ==> r.netuid.value == id && id in ipPort && ipPort[id] != [] && r.ss58Address.value == ipPort[id]
    ensures id in ipPort && ipPort[id] != [] ==> r.netuid.Some?
    ensures r.host.None? && r.port.None?
  {
    if id in ipPort && |ipPort[id]| > 0 then ModuleInfo(Some(id), Some(ipPort[id]), None, None)
    else EmptyInfo
  }

  /** No element of a value `get_ip_port` produces is the string `":"`, so the
      `host`/`port` branch of `get_queryable_miners` is never taken. */
  lemma NoColonElement(modulesAddresses: map<int, string>, id: int)
    requires id in GetIpPort(modulesAddresses)
    ensures ":" !in GetIpPort(modulesAddresses)[id]
  {
    GetIpPortShape(modulesAddresses, id);
    var parts := GetIpPort(modulesAddresses)[id];
    assert ":"[0] == ':';
    assert ":" != parts[0] by { assert ":"[0] in ":"; }
    assert ":" != parts[1] by { assert !IsDigit(":"[0]); }
  }

  /** An entry has `netuid` and `ss58_address` exactly when the id's address
      contains a match; `ss58_address` is then its `[ip, port]` pair; `host`
      and `port` are never set. */
  lemma MinerEntryParsed(modulesAddresses: map<int, string>, id: int)
    ensures var info := MinerEntry(id, GetIpPort(modulesAddresses));
      && (info.netuid.Some? <==> id in modulesAddresses && ContainsAddress(modulesAddresses[id]))
      && (info.ss58Address.Some? <==> info.netuid.Some?)
      && (info.netuid.Some? ==> info.netuid.value == id && info.ss58Address.value == GetIpPort(modulesAddresses)[id])
      && (info.ss58Address.Some? ==> |info.ss58Address.value| == 2)
      && info.host.None? && info.port.None?
  {
    if id in GetIpPort(modulesAddresses) {
      GetIpPortShape(modulesAddresses, id);
    }
  }

  /** `get_queryable_miners`: walks the key listing in order, skips the master
      and the validator's own key, and records every other id's entry. Looking
      up an id that has no address raises `KeyError`. */
  method GetQueryableMiners(moduleAddresses: map<int, string>, moduleKeys: seq<(int, string)>, ownKey: string)
    returns (r: Result<map<int, ModuleInfo>, Error>)
    requires |moduleKeys| > 0
    requires DistinctIds(moduleKeys)
    ensures r.Failure? <==>
      exists k :: 0 <= k < |moduleKeys| && Queryable(moduleKeys[k], ownKey) && moduleKeys[k].0 !in moduleAddresses
    ensures r.Failure? ==>
      exists k :: 0 <= k < |moduleKeys| && Queryable(moduleKeys[k], ownKey) && moduleKeys[k].0 !in moduleAddresses
        && r.error == KeyError(moduleKeys[k].0)
        && forall j :: 0 <= j < k && Queryable(moduleKeys[j], ownKey) ==> moduleKeys[j].0 in moduleAddresses
    ensures r.Success? ==>
      forall id :: id in r.value <==> exists k :: 0 <= k < |moduleKeys| && moduleKeys[k].0 == id && Queryable(moduleKeys[k], ownKey)
    ensures r.Success? ==>
      forall id :: id in r.value ==> r.value[id] == MinerEntry(id, GetIpPort(moduleAddresses))
    ensures r.Success? ==> 0 !in r.value
    ensures r.Success? ==>
      forall k :: 0 <= k < |moduleKeys| && moduleKeys[k].1 == ownKey ==> moduleKeys[k].0 !in r.value
  {
    var moduleDict: map<int, ModuleInfo> := map[];
    var modulesFilteredAddress := GetIpPort(moduleAddresses);
    for i := 0 to |moduleKeys|
      invariant forall j :: 0 <= j < i && Queryable(moduleKeys[j], ownKey) ==> moduleKeys[j].0 in moduleAddresses
      invariant forall id :: id in moduleDict <==>
        exists k :: 0 <= k < i && moduleKeys[k].0 == id && Queryable(moduleKeys[k], ownKey)
      invariant forall id :: id in moduleDict ==> moduleDict[id] == MinerEntry(id, modulesFilteredAddress)
    {
      var (moduleId, ss58Address) := moduleKeys[i];
      var moduleInfo := EmptyInfo;
      if moduleId == 0 {
        continue;
      }
      if ss58Address == ownKey {
        continue;
      }
      var ss58Addr := Get(modulesFilteredAddress, moduleId);
      if ss58Addr.Some? && |ss58Addr.value| > 0 {
        moduleInfo := moduleInfo.(netuid := Some(moduleId), ss58Address := Some(ss58Addr.value));
      }
      if moduleId !in moduleAddresses {
        return Failure(KeyError(moduleId));
      }
      var moduleHostAddress := Get(modulesFilteredAddress, moduleId);
      if moduleHostAddress.Some? && |moduleHostAddress.value| > 0 {
        NoColonElement(moduleAddresses, moduleId);
        if ":" in moduleHostAddress.value {
          assert false;
        }
      }
      moduleDict := moduleDict[moduleId := moduleInfo];
    }
    return Success(moduleDict);
  }

  /** The `{"weight": ...}` dict of a scored miner. The weight is whatever
      the weights map holds; it is only copied. */
  datatype Weight<W> = Weight(weight: W)

  /** `score_miner`: a miner whose ss58 address is not a key of the weights
      map raises `RuntimeError`; otherwise the result maps the miner's netuid,
      and nothing else, to its weight. */
  method ScoreMiner<W>(netuid: int, ss58Address: string, weightsDict: map<string, W>)
    returns (r: Result<map<int, Weight<W>>, Error>)
    ensures r.Failure? <==> ss58Address !in weightsDict
    ensures r.Failure? ==>
      r.error == RuntimeError("validator key " + ss58Address + " is not registered in subnet")
    ensures r.Success? ==> r.value.Keys == {netuid} && r.value[netuid].weight == weightsDict[ss58Address]
  {
    if ss58Address !in weightsDict {
      return Failure(RuntimeError("validator key " + ss58Address + " is not registered in subnet"));
    }
    var modulesInfo: map<int, Weight<W>> := map[];
    var weights := weightsDict[ss58Address];
    if netuid in modulesInfo {
      assert false;
    } else {
      modulesInfo := modulesInfo[netuid := Weight(weights)];
    }
    return Success(modulesInfo);
  }
}
