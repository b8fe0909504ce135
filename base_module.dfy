/** `BaseModule` of `eden_subnet/base/base.py`: the static helpers that turn
    the chain's module-address strings into `[ip, port]` pairs and look up a
    subnet by name. The chain client's query results are parameters. */
module BaseModule {
  import opened Wrappers
  import opened Strings
  import opened IpRegex

  /** The Python exceptions the modelled code raises. */
  datatype Error =
    | ValueError(message: string)
    | RuntimeError(message: string)
    | KeyError(key: int)

  /** `extract_address`: `re.search(IP_REGEX, string)`. It finds a match exactly
      when some substring is an address; the match is the leftmost one, and
      the longest at its start, and the matched text is itself an address. */
  function ExtractAddress(s: string): (r: Option<Span>)
    ensures r.None? <==> !ContainsAddress(s)
    ensures r.Some? ==> r.value.start <= r.value.end <= |s| && IsAddress(Group(s, r.value))
    ensures r.Some? ==> forall k, j :: k < r.value.start ==> !AddressIn(s, k, j)
    ensures r.Some? ==> forall j :: r.value.end < j ==> !AddressIn(s, r.value.start, j)
  {
    var r := Search(s);
    if r.Some? then AddressShift(s, r.value.start, r.value.end); r else r
  }

  /** `get_ip_port`: every module id whose address contains a match, mapped to
      the matched text split at `":"`. The first comprehension keeps every id
      with its (possibly absent) match; the second drops the absent ones. An
      id is kept exactly when it is in the input and its address contains a
      match, so ids without one are dropped and no new id appears. */
  function GetIpPort(modulesAddresses: map<int, string>): (r: map<int, seq<string>>)
    ensures forall id :: id in r <==>
      id in modulesAddresses && ContainsAddress(modulesAddresses[id])
  {
    var filteredAddr := map id | id in modulesAddresses :: ExtractAddress(modulesAddresses[id]);
    map id | id in filteredAddr && filteredAddr[id].Some? ::
      Split(Group(modulesAddresses[id], filteredAddr[id].value), ':')
  }

  /** Every value `get_ip_port` produces is `[ip, port]`: an IP (four dotted
      octets, no colon) and a non-empty digit string, which re-join with `":"`
      to the text the pattern matched in that id's address. */
  lemma GetIpPortShape(modulesAddresses: map<int, string>, id: int)
    requires id in GetIpPort(modulesAddresses)
    ensures var parts := GetIpPort(modulesAddresses)[id];
      var m := ExtractAddress(modulesAddresses[id]);
      && m.Some?
      && |parts| == 2
      && IsIp(parts[0]) && ':' !in parts[0]
      && IsPort(parts[1])
      && parts[0] + ":" + parts[1] == Group(modulesAddresses[id], m.value)
  {
    var m := ExtractAddress(modulesAddresses[id]);
    AddressSplits(Group(modulesAddresses[id], m.value));
  }

  /** An id whose address is already a well-formed `ip:port` is kept, and
      its value is the whole address split at `":"`. */
  lemma GetIpPortWhole(modulesAddresses: map<int, string>, id: int)
    requires id in modulesAddresses && IsAddress(modulesAddresses[id])
    ensures id in GetIpPort(modulesAddresses)
    ensures GetIpPort(modulesAddresses)[id] == Split(modulesAddresses[id], ':')
  {
    var s := modulesAddresses[id];
    SearchWhole(s);
    assert s[0..|s|] == s;
  }

  /** When every address is already a well-formed `ip:port`, every id is kept
      and its two pieces re-join to the original address. */
  lemma GetIpPortWellFormed(modulesAddresses: map<int, string>)
    requires forall id :: id in modulesAddresses ==> IsAddress(modulesAddresses[id])
    ensures GetIpPort(modulesAddresses).Keys == modulesAddresses.Keys
    ensures forall id :: id in modulesAddresses ==>
      var parts := GetIpPort(modulesAddresses)[id];
      |parts| == 2 && parts[0] + ":" + parts[1] == modulesAddresses[id]
  {
    forall id | id in modulesAddresses
      ensures id in GetIpPort(modulesAddresses)
      ensures var parts := GetIpPort(modulesAddresses)[id];
        |parts| == 2 && parts[0] + ":" + parts[1] == modulesAddresses[id]
    {
      GetIpPortWhole(modulesAddresses, id);
      AddressSplits(modulesAddresses[id]);
    }
  }

  /** An address written as `ip + ":" + port` comes back as `[ip, port]`. */
  lemma GetIpPortJoined(modulesAddresses: map<int, string>, id: int, ip: string, port: string)
    requires IsIp(ip) && IsPort(port)
    requires id in modulesAddresses && modulesAddresses[id] == ip + ":" + port
    ensures id in GetIpPort(modulesAddresses)
    ensures GetIpPort(modulesAddresses)[id] == [ip, port]
  {
    JoinedIsAddress(ip, port);
    GetIpPortWhole(modulesAddresses, id);
    IpHasNoColon(ip);
    PortHasNoColon(port);
    SplitTwo(ip, port, ':');
  }

  /** The first entry of the docstring's example. */
  lemma ExampleFirst(addrs: map<int, string>)
    requires addrs.Keys == {1, 2} && addrs[1] == "192.168.0.1:8080" && addrs[2] == "10.0.0.1:9090"
    ensures 1 in GetIpPort(addrs) && GetIpPort(addrs)[1] == ["192.168.0.1", "8080"]
  {
    assert DotCuts("192.168.0.1", 0, 3, 7, 9, 11);
    GetIpPortJoined(addrs, 1, "192.168.0.1", "8080");
  }

  /** The second entry of the docstring's example. */
  lemma ExampleSecond(addrs: map<int, string>)
    requires addrs.Keys == {1, 2} && addrs[1] == "192.168.0.1:8080" && addrs[2] == "10.0.0.1:9090"
    ensures 2 in GetIpPort(addrs) && GetIpPort(addrs)[2] == ["10.0.0.1", "9090"]
  {
    assert DotCuts("10.0.0.1", 0, 2, 4, 6, 8);
    GetIpPortJoined(addrs, 2, "10.0.0.1", "9090");
  }

  /** The docstring's example of `get_ip_port`. The map is a parameter so
      that the verifier does not try to evaluate the search on literals. */
  lemma GetIpPortExample(addrs: map<int, string>)
    requires addrs.Keys == {1, 2} && addrs[1] == "192.168.0.1:8080" && addrs[2] == "10.0.0.1:9090"
    ensures GetIpPort(addrs).Keys == {1, 2}
    ensures GetIpPort(addrs)[1] == ["192.168.0.1", "8080"]
    ensures GetIpPort(addrs)[2] == ["10.0.0.1", "9090"]
  {
    ExampleFirst(addrs);
    ExampleSecond(addrs);
  }

  /** `get_netuid`: walks the subnet-name listing in its order and returns the
      first netuid whose name is `subnetName`; `ValueError` when none is. */
  method GetNetuid(subnets: seq<(int, string)>, subnetName: string := "mosaic") returns (r: Result<int, Error>)
    ensures r.Success? ==>
      exists k :: 0 <= k < |subnets| && subnets[k] == (r.value, subnetName)
        && forall j :: 0 <= j < k ==> subnets[j].1 != subnetName
    ensures r.Failure? ==>
      && (forall k :: 0 <= k < |subnets| ==> subnets[k].1 != subnetName)
      && r.error == ValueError("Subnet " + subnetName + " not found")
  {
    var i := 0;
    while i < |subnets|
      invariant 0 <= i <= |subnets|
      invariant forall j :: 0 <= j < i ==> subnets[j].1 != subnetName
    {
      var (netuid, name) := subnets[i];
      if name == subnetName {
        return Success(netuid);
      }
      i := i + 1;
    }
    return Failure(ValueError("Subnet " + subnetName + " not found"));
  }
}
