# eden-subnet base module: address parsing and miner selection

This project models the self-contained logic of `eden_subnet/base/base.py`, the
base class of an eden-subnet validator. The validator talks to the chain
through the `communex` client and to miners over HTTP. Around those calls sits
a small amount of its own logic, which is what is modelled and proved here:

- `IP_REGEX` and `BaseModule.extract_address`. The pattern
  `\d{1,3}\.\d{1,3}\.\d{1,3}\.\d{1,3}:\d+` is found with a leftmost
  `re.search`. It is modelled as a total matcher that reads one maximal digit
  run per group (`IpRegex.MatchEnd`) and a search over start positions
  (`IpRegex.Search`), both stated against a declarative description of the
  pattern (`IpRegex.AddressIn`). `MatchEnd` is proved sound and complete: at
  a start it reads an occurrence, and the longest one there, because `\d+` is
  greedy. `Search` is proved to return the leftmost match, longest at its
  start, and nothing exactly when no substring matches.
- `BaseModule.get_ip_port`. A map from module id to address becomes a map from
  module id to the matched text split at `":"`. Python's `str.split` is
  `Strings.Split`, proved inverse to `Strings.Join`.
- `BaseModule.get_netuid`. It searches the subnet-name listing, in the
  listing's order, for the first name that matches.
- `BaseValidator.get_queryable_miners`. It loops over the module-key listing,
  skips id 0 and the validator's own key, and builds one `module_info` record
  per remaining id.
- `BaseValidator.score_miner`. It looks the miner up in the weights map.

Every query to the chain client is a parameter. A Python `dict` whose order
is never read becomes a `map`. The weights the chain reports are only copied,
so their type is a type parameter. A `dict` whose iteration order matters becomes a `seq`
of `(id, value)` pairs in insertion order. Raised exceptions are
`Failure(ValueError(..))`, `Failure(RuntimeError(..))` or
`Failure(KeyError(..))` of a `Result`.

Files: `wrappers.dfy` (Option, Result, `dict.get`), `strings.dfy` (digits,
`str.split`, `str.join`), `ip_regex.dfy` (the pattern and the search),
`base_module.dfy` (`BaseModule`), `base_validator.dfy` (`BaseValidator`).

Two quirks of the source are modelled as written and proved:

- In `get_queryable_miners`, the `host`/`port` branch tests whether the string
  `":"` is an element of the `[ip, port]` list. Neither element can be `":"`.
  So no record ever gains `host` or `port` (`BaseValidator.NoColonElement`,
  used in the loop).
- In `score_miner`, `modules_info` starts empty. So the branch that adds to an
  existing weight is never taken.

## Model

| member | source | states |
|---|---|---|
| `Strings.Split` | eden_subnet/base/base.py:121 | `str.split(sep)` gives at least one piece, no piece contains `sep`, and joining the pieces with `sep` gives back the string |
| `Strings.SplitJoin` | eden_subnet/base/base.py:121 | splitting the join of separator-free pieces returns exactly those pieces, so `Split` is the only such cut |
| `Strings.SplitTwo` | eden_subnet/base/base.py:121 | `a + ":" + b` with colon-free `a` and `b` splits into exactly `[a, b]` |
| `Wrappers.Get` | eden_subnet/base/base.py:205 | `dict.get` returns the value exactly when the key is present, and `None` otherwise |
| `IpRegex.MatchEndSound` | eden_subnet/base/base.py:17 | what the matcher reads at a start position is an occurrence of the pattern, and its port is followed by a non-digit or by the end of the string |
| `IpRegex.MatchEndComplete` | eden_subnet/base/base.py:17 | every occurrence of the pattern at a start position is found by the matcher, which ends no earlier |
| `IpRegex.SearchFromStart` | eden_subnet/base/base.py:69-73 | the search returns nothing exactly when no substring matches; otherwise it returns the leftmost start with a match, and the longest match there |
| `IpRegex.SearchFrom` | eden_subnet/base/base.py:69-73 | the start-by-start scan of `re.search`: a span it returns starts at or after the scan's start, lies inside the string and is an occurrence of the pattern (leftmost and longest from position 0 by `SearchFromStart`) |
| `IpRegex.Search` | eden_subnet/base/base.py:17 | `re.search(IP_REGEX, s)`: `None` exactly when no substring matches; otherwise the span of the leftmost match, longest at that start |
| `IpRegex.Group` | eden_subnet/base/base.py:121 | `x.group(0)`: the matched text, as long as the span, and the string is exactly the text before the span, the matched text and the text after it |
| `IpRegex.IpHasNoColon` | eden_subnet/base/base.py:17 | text matched by the four dotted octets contains no `:` |
| `IpRegex.AddressSplits` | eden_subnet/base/base.py:121 | a matched address splits at `":"` into exactly two pieces: an IP of four 1-3 digit octets with no `:`, and a non-empty digit string; the two re-join with `":"` to the address |
| `IpRegex.JoinedIsAddress` | eden_subnet/base/base.py:17 | an IP and a port joined with `":"` form a match of the whole pattern |
| `IpRegex.SearchWhole` | eden_subnet/base/base.py:112-114 | a string that is already a well-formed `ip:port` is matched whole |
| `BaseModule.ExtractAddress` | eden_subnet/base/base.py:69-73 | `extract_address` returns a match exactly when the string contains an occurrence of the pattern; the match is the leftmost occurrence and the longest at its start, and the matched text is itself an address |
| `BaseModule.GetIpPort` | eden_subnet/base/base.py:116-125 | `get_ip_port`: maps each module id to its address's matched text split at `":"`; an id is kept exactly when it is in the input and its address contains a match, so the others are dropped and no new id appears (the values are described by `GetIpPortShape`) |
| `BaseModule.GetIpPortShape` | eden_subnet/base/base.py:116-125 | every value is `[ip, port]`: four dotted 1-3 digit octets with no `:`, and a non-empty digit string; joined with `":"` they give back the text the pattern matched in that id's address |
| `BaseModule.GetIpPortWhole` | eden_subnet/base/base.py:116-125 | an id whose address is a well-formed `ip:port` is kept, and its value is the whole address split at `":"` |
| `BaseModule.GetIpPortWellFormed` | eden_subnet/base/base.py:112-114 | when every address is a well-formed `ip:port`, every id is kept and its two pieces re-join to the original address |
| `BaseModule.GetIpPortJoined` | eden_subnet/base/base.py:112-114 | an address written as `ip + ":" + port` comes back as exactly `[ip, port]` |
| `BaseModule.GetIpPortExample` | eden_subnet/base/base.py:112-114 | the docstring example: `{1: "192.168.0.1:8080", 2: "10.0.0.1:9090"}` gives `{1: ["192.168.0.1", "8080"], 2: ["10.0.0.1", "9090"]}` |
| `BaseModule.GetNetuid` | eden_subnet/base/base.py:90-95 | returns the netuid of the first entry in listing order whose name equals the subnet name; raises `ValueError("Subnet <name> not found")` exactly when no name matches |
| `BaseValidator.NoColonElement` | eden_subnet/base/base.py:209-213 | no element of a `get_ip_port` value is the string `":"`, so the `host`/`port` branch is dead |
| `BaseValidator.MinerEntry` | eden_subnet/base/base.py:200-214 | the `module_info` record built for one queryable id: `netuid` and `ss58_address` are set together, exactly when the filtered addresses hold a non-empty entry for the id (both directions), and then hold the id and that entry; `host` and `port` are never set (the branch that sets them is unreachable, by `NoColonElement`) |
| `BaseValidator.MinerEntryParsed` | eden_subnet/base/base.py:205-213 | a record has `netuid` and `ss58_address` exactly when the id's address contains a match; `ss58_address` is then the two-element `[ip, port]` list; `host` and `port` are never set |
| `BaseValidator.GetQueryableMiners` | eden_subnet/base/base.py:199-215 | raises `KeyError` for the first non-skipped id that has no address, and only then; otherwise the result's ids are exactly the listed ids other than 0 and other than those with the validator's own key, each with its parsed-or-empty record |
| `BaseValidator.ScoreMiner` | eden_subnet/base/base.py:238-249 | raises `RuntimeError` exactly when the miner's ss58 address is not a key of the weights map; otherwise returns a map with the single key `netuid`, whose value carries `weights[ss58_address]` |

## Left out

- The `communex` client: `query_map_subnet_names`, `query_map_address`, `query_map_key`, `query_map_weights` and the module-level client construction (base.py:18). These are calls into an SDK that is not part of this model. Their results are parameters.
- `get_miner_generation` (base.py:141-178): HTTP requests through `requests.post` and a chain query per miner, whose effect is defined by the network.
- `dynamic_import` (base.py:60-66): runtime module loading through `importlib`.
- Logging (`loguru`), the pydantic models and their `Config`, `BaseModule.__init__` (it builds a local dict and discards it), `BaseValidator.__init__`, `Message` and `validate_input` (it only raises `NotImplementedError`).
- GetQueryableMiners: the `try`/`except RuntimeError` wrapper is left out. No modelled step raises `RuntimeError` there.
- GetQueryableMiners: requires a non-empty key listing. With an empty one the source reads an unbound `modules_keys` and raises `NameError`.
- GetQueryableMiners: requires distinct ids in the key listing, because it stands for the items of a dict.
- GetQueryableMiners: the body of the `host`/`port` branch is not modelled. It would index the list by `module_id`, split the element and unpack it. The branch is proved unreachable instead.
- ScoreMiner: the body of the accumulate branch (`+= weights`) is not modelled. The branch is proved unreachable.
- ScoreMiner: takes the miner's netuid and ss58 address as two parameters, in the shape its docstring describes. The records built by `get_queryable_miners` hold a list under `ss58_address`. Passing such a record would make the dict lookup raise `TypeError` (unhashable list). That path is not modelled.
- The dicts `get_ip_port` and `get_queryable_miners` build and return (`ip_port`, base.py:120, and `module_dict`, base.py:214) are `map`s, so their insertion order is not kept. No modelled code reads that order.
- Python's `\d` also accepts non-ASCII Unicode digits. This model accepts only ASCII `'0'..'9'`.
- Only the one pattern `IP_REGEX` is modelled, not a general regular-expression engine.
