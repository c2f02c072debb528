# whois_lookup: the CIDR-keyed netname cache, in Dafny

`whois_lookup.py` resolves IP addresses to organisation names. It keeps a
memo cache: a Python dictionary from CIDR block to organisation name. The
cache is filled at start-up from the rows of `whois_cache.csv`.
`get_netname(ip)` scans the dictionary in insertion order and returns the
name of the first block that contains the address. When no block does, it
asks the registry once over RDAP. It takes the network-level `cidr`, or
`asn_cidr` when that is falsy. It takes the network-level `name`, or
`asn_description` when that is falsy. It stores `cidr -> name` in the
dictionary, appends the row `[cidr, name]` to the CSV file and returns the
name.

The project has four modules:

- `IpNet` (`ip_net.dfy`): parsed addresses (`Address`: a version and a value
  below 2^32 or 2^128) and strict networks (`Network`: a version, a network
  number with no host bits set, and a prefix length). `Contains` is the
  containment test of `ipaddress`. The versions must match, and the address
  masked with the netmask must equal the network address (section 3.1 of
  RFC 4632, section 2.3 of RFC 4291). The mask is written arithmetically:
  the value rounded down to a multiple of the block size.
- `RdapRecord` (`rdap_record.dfy`): the four fields of an RDAP result the
  script reads, and the two `or` choices of lines 23-24.
- `WhoisCache` (`whois_cache.dfy`): the dictionary as a sequence of entries
  with unique keys, in iteration order. `Put` is `cache[k] = v`: an existing
  key keeps its place and a new key goes last. `LoadRows` is the load loop
  as a function. `FirstContaining` is the scan as a function. The class
  `NetnameCache` holds the dictionary (`entries`), the rows of the CSV file
  (`store`) and a ghost log of the registry lookups made (`rdapQueries`).
  Its constructor `Load` runs the load loop. `Scan` runs the search loop.
  `GetNetname` is `get_netname`.
- `Options` (`options.dfy`): `Option`, standing for a value or Python's `None`.

The registry is not called. `GetNetname` receives the record the registry
answers for the queried address (`rdap`) and reads it only on a miss.

A name is `Option<string>` in memory. When neither name field is truthy,
the script stores `asn_description` as it is, which may be `None`.
`csv.writer` writes `None` as an empty field. So a restart reads that name
back as `""`. `NetnameCache.Valid()` states the link between memory and
file: reloading the store gives the cache back with every name as written
(`LoadRows(store) == Persisted(entries)`). `GetNetname` keeps this on
both paths.

The model follows the code. The code does not split comma-separated CIDR
fields. It does not discard `0.0.0.0/0`. It has no legacy-WHOIS fallback
and no error log. It writes no header row. It does not check that the
returned block contains the queried address. The tie-break is first match
in insertion order, not longest prefix. Duplicate keys on load keep the
last row's value at the first row's position. None of the missing
behaviours is modelled.

## Model

| member | source | states |
|---|---|---|
| `IpNet.Masked` | whois_lookup.py:19 | the masked value is the largest multiple of the block size not above the address: masking clears exactly the host bits |
| `IpNet.Contains` | whois_lookup.py:19 | `ip in network`: same version, and the address masked to the block size equals the network address; so a contained address lies in [network, network + block size) (the converse is `ContainsIffInRange`) |
| `IpNet.ContainsIffInRange` | whois_lookup.py:19 | `ip in network` holds exactly when the versions match and the address lies in [network, network + 2^hostbits) |
| `IpNet.WholeSpaceContainsAll` | whois_lookup.py:19 | a /0 block contains every address of its version; nothing filters it, so it matches every later query of that version that reaches it |
| `IpNet.HostRouteContainsOnlyItself` | whois_lookup.py:19 | a full-length prefix (/32, /128) contains its own address and no other |
| `RdapRecord.ChooseCidr` | whois_lookup.py:23 | the stored key is the network-level cidr when present, else `asn_cidr`; a key exists iff either field is present |
| `RdapRecord.ChooseName` | whois_lookup.py:24 | the stored name is the network-level name when truthy, else `asn_description` unchanged; the result is truthy iff either field is |
| `WhoisCache.Put` | whois_lookup.py:25 | dict assignment: an existing key keeps its position with the new value, a new key is appended, every other key keeps its value, keys stay unique |
| `WhoisCache.FirstContaining` | whois_lookup.py:18-20 | the index found is of an entry containing the address with none before it; `None` exactly when no entry contains it |
| `WhoisCache.LoadRows` | whois_lookup.py:11-14 | the cache built by the load loop has unique keys |
| `WhoisCache.LoadLastRowWins` | whois_lookup.py:13-14 | after loading, each key maps to the name of its last row; a key with no row is absent |
| `WhoisCache.LoadKeys` | whois_lookup.py:13-14 | the loaded cache's keys are exactly the keys of the rows |
| `WhoisCache.LoadFirstOccurrenceOrder` | whois_lookup.py:13-14 | loaded keys iterate in the order of their first rows: a precedes b in the cache iff a's first row precedes b's first row |
| `WhoisCache.CsvCell` | whois_lookup.py:26-27 | the CSV field written for a name is the name itself, or "" for `None` |
| `WhoisCache.Persisted` | whois_lookup.py:26-27 | defines the cache a restart would read from the written rows: same keys in the same order, each name as written. It is only the target; the claim that the file really reads back as this is `NetnameCache.Valid()` (`LoadRows(store) == Persisted(entries)`), established by `Load` and kept by `GetNetname` through `PersistedLoad` and `PersistedPut` |
| `WhoisCache.PersistedPut` | whois_lookup.py:25-28 | storing a pair and then persisting equals persisting and then storing the pair as written: the dict update and the row append agree |
| `WhoisCache.PersistedLoad` | whois_lookup.py:11-14 | a cache loaded from the file is unchanged by persisting it: a restart reproduces it |
| `WhoisCache.FirstContainingPersisted` | whois_lookup.py:18-20 | after a restart every address hits the same entry as before it |
| `WhoisCache.MissThenHit` | whois_lookup.py:18-25 | if the block recorded on a miss contains the address, the address now hits that new entry, which is the last one and carries the returned name |
| `WhoisCache.MissOutsideStaysMiss` | whois_lookup.py:22-29 | if the block recorded on a miss does not contain the address, the address still misses afterwards: no containment check was made |
| `WhoisCache.NetnameCache.Load` | whois_lookup.py:11-14 | the load loop yields `LoadRows(rows)`, the store is the rows, no lookup has been made, and memory and file agree |
| `WhoisCache.NetnameCache.Scan` | whois_lookup.py:18-20 | the search loop returns the first entry, in iteration order, whose block contains the address, or `None` when none does |
| `WhoisCache.NetnameCache.GetNetname` | whois_lookup.py:16-29 | hit: the first containing entry's name, nothing changes, no lookup. Miss: one lookup, the chosen cidr maps to the chosen name via `Put`, exactly one row `[cidr, name]` is appended, that name is returned even if the block does not contain the address, and when it does the address now hits |

## Left out

- The registry call `IPWhois(ip).lookup_rdap()` (whois_lookup.py:22) is the `rdap` parameter: its answer for the queried address. Exceptions it raises, which end the run, are not modelled.
- CSV reading and writing, quoting, opening, flushing and the durability of the file (whois_lookup.py:12-14, 26-28). The file is the `store` sequence of rows; a missing file is the empty sequence. A row with fewer than two fields, on which the load raises, cannot be represented.
- Parsing of address and CIDR strings by `ipaddress` (whois_lookup.py:17, 19). Keys are parsed strict networks, not strings. Two spellings of one network, such as a compressed and an expanded IPv6 form, are two keys in the script and one key here. A cidr string that does not parse strictly makes the script raise at the next scan that reaches it. Such a string cannot be represented. This covers a comma-separated list of blocks and a block with host bits set.
- The bitwise AND with the netmask is written as rounding down to a multiple of the block size. No bit-vector form is given.
- NetnameCache.GetNetname: on a miss it requires that the record has a network-level cidr or an `asn_cidr`. When both are missing, the script stores `None` as a key and returns the name, and its next scan that reaches that key raises. That path is excluded, not modelled.
- The command-line driver (whois_lookup.py:31-35): choosing the argument file or standard input, `line.strip()` and `print` are input/output framing.
- `rdapQueries` is a ghost log that counts registry lookups; the script keeps no such list.
