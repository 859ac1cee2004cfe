# Skylift roster tooling, modelled in Dafny

Skylift replays a set of Wi-Fi access points by broadcasting their beacons. The beacon
firmware runs from a roster of networks, prepared by Python tooling. This project models
that tooling and proves its behaviour:

- `src/models/network.py`: the roster models. A `Network` carries a BSSID, channel,
  RSSI and opaque position data. `Networks` holds the roster with its `wifi` and `bt`
  lists. The model covers the clamp of a channel into 2.4 GHz range (`ChannelAs2pt4`)
  and the BSSID as a C array initializer (`BssidAsHexListIno`). It also covers the
  post-construction normalisation (`Networks.ModelPostInit`) and the filter-and-truncate
  query (`Networks.GetNetworks`, built on `Query`).
- `extras/wigle_to_skylift.py`: turns a WiGLE search response into roster files. The
  model covers the signed distance rule, the RSSI estimate from distance, the
  conversion loop, the sort by distance and the loop that cuts the sorted roster into
  files of at most `nets_per_of` networks.

Files:

- `wrappers.dfy` (module `Wrappers`): `Option` and `Result`. They stand for Python's
  `None` and for a raised error.
- `py_strings.dfy` (module `PyStrings`): Python's `str.split` with a one-character
  separator and `str.join`, with both round trips proved.
- `stable_sort.dfy` (module `StableSort`): Python's stable sort by key. It is proved
  ordered, a permutation of its input and stable, and it leaves an already sorted list
  unchanged.
- `network.dfy` (module `NetworkModels`): `network.py`.
- `wigle_to_skylift.dfy` (module `WigleToSkylift`): `wigle_to_skylift.py`.

Python semantics made explicit:

- Truthiness. A `min_rssi`, `max_rssi` or `max_networks` argument that is `None` or `0`
  is unset (`Truthy`). A list is true when it is non-empty.
- Slicing. `filtered[:k]` with a negative `k` drops `|k|` networks from the end
  (`SliceTo`).
- `get_networks` with a `device_type` other than `'wifi'` or `'bt'` raises
  `UnboundLocalError`, because `nets` is never bound. This is the `Failure(UnboundNets)`
  result.
- `sorted(..., reverse=True)` is stable. It equals a stable ascending sort on `-rssi`.

## Model

| member | source | states |
|---|---|---|
| `NetworkModels.ChannelAs2pt4` | src/models/network.py:29-30 | the result lies in 0..11, equals the channel when that is already in range, and is the in-range value nearest to the channel |
| `NetworkModels.BssidAsHexListIno` | src/models/network.py:25-27 | the result is wrapped in `{` and `}` |
| `NetworkModels.HexListRoundTrip` | src/models/network.py:25-27 | for a BSSID without ',', reading the initializer back gives exactly the ':'-separated parts in order, one entry per part; joining them with ':' gives the BSSID again |
| `NetworkModels.SixOctetMac` | src/models/network.py:25-27 | a MAC written as six two-digit hex octets joined by ':' gives exactly those six entries |
| `NetworkModels.Prefixed` | src/models/network.py:26 | `[f'0x{x}' for x in parts]` has one entry per part, the i-th being the prefix followed by the i-th part |
| `NetworkModels.BaseName` | src/models/network.py:59 | `path.split('/')[-1]` has no '/', is a suffix of the path, and is the whole path or directly follows a '/' |
| `NetworkModels.SortByRssi` | src/models/network.py:66-67 | the result is ordered by non-increasing RSSI and is a permutation of the input |
| `NetworkModels.SortByRssiStable` | src/models/network.py:66-67 | networks of equal RSSI keep their relative order |
| `NetworkModels.SortByRssiOfSorted` | src/models/network.py:66-67 | a list already ordered strongest-first is returned unchanged |
| `NetworkModels.Networks.ModelPostInit` | src/models/network.py:56-71 | `filename` becomes the last '/' component of `meta.filepath` only when `filename` is empty and the path is non-empty, otherwise it is kept. `wifi` becomes the sorted `networks` only when `wifi` is empty and `networks` is not, otherwise the sorted old `wifi`. `bt` is sorted. Both lists are permutations of what was sorted and strongest-first, `n_wifi`/`n_bt` are their lengths, and `meta` and `networks` are unchanged |
| `NetworkModels.Networks.ModelPostInitTwice` | src/models/network.py:56-71 | running the normalisation twice leaves `filename`, `wifi`, `bt` and the counts exactly as one run leaves them |
| `NetworkModels.ChosenWifi` | src/models/network.py:62-63 | the old `wifi` is kept when it is non-empty; an empty `wifi` is replaced by `networks` |
| `NetworkModels.MinRssi` | src/models/network.py:83-84 | `min(rssis)` is a lower bound of every RSSI and is one of them |
| `NetworkModels.MaxRssi` | src/models/network.py:83-85 | `max(rssis)` is an upper bound of every RSSI and is one of them |
| `NetworkModels.FilterRssi` | src/models/network.py:88 | the filtered list is an order-preserving subsequence of the input. It keeps every in-bounds network as often as it occurs in the input and no out-of-bounds network |
| `NetworkModels.SliceTo` | src/models/network.py:89 | `s[:stop]` is a prefix of `s` of length min(stop, len) for a non-negative stop and max(0, len + stop) for a negative one |
| `NetworkModels.Query` | src/models/network.py:80-89 | an empty list gives `[]`. Otherwise every RSSI lies between the effective bounds (each unset bound defaults to the list's own min/max). The result is a prefix of the in-bounds networks, of length min(k, count) for the effective limit k >= 0 (unset means the list length) and max(0, count + k) for k < 0, so it is fully determined; it is an order-preserving subsequence of the list |
| `NetworkModels.NoBoundsReturnsAll` | src/models/network.py:84-89 | with every bound and the limit None or 0 the whole list comes back unchanged |
| `NetworkModels.FalsyArgumentsAreUnset` | src/models/network.py:84-86 | for each of `min_rssi`, `max_rssi` and `max_networks`, passing 0 gives the same result as passing None |
| `NetworkModels.ZeroLimitKeepsEveryMatch` | src/models/network.py:86-89 | with `max_networks=0` the result is the whole filtered list: every in-bounds network, none dropped |
| `NetworkModels.NegativeLimitDropsTail` | src/models/network.py:86-89 | a negative limit `k` drops `abs(k)` networks from the end of the filtered list |
| `NetworkModels.Networks.GetNetworks` | src/models/network.py:73-89 | an error exactly when `device_type` is neither 'wifi' nor 'bt'. For 'wifi' the query runs on `wifi`, or on `networks` when `wifi` is empty; for 'bt' it runs on `bt` |
| `PyStrings.Split` | src/models/network.py:26 | `split` gives one part more than there are separators, and no part holds the separator |
| `PyStrings.Join` | src/models/network.py:26 | `sep.join([])` is empty; a join starts with its first part, followed by the separator when there is more than one part |
| `PyStrings.JoinLength` | src/models/network.py:26 | a join is as long as its parts together plus one separator per gap |
| `PyStrings.JoinSplit` | src/models/network.py:26 | joining the parts of a split with the separator gives the string back |
| `PyStrings.SplitJoin` | src/models/network.py:26 | splitting the join of a non-empty list of separator-free parts gives the parts back (an empty list does not come back: `"".split(sep)` is `[""]`) |
| `PyStrings.LastPart` | src/models/network.py:59 | the last part of a split is a separator-free suffix that is the whole string or follows a separator |
| `StableSort.SortBySorted` | extras/wigle_to_skylift.py:106 | a stable sort by key gives a list ordered by the key that is a permutation of the input |
| `StableSort.SortByStable` | extras/wigle_to_skylift.py:106 | elements with equal keys keep their relative order |
| `WigleToSkylift.GetGeoDistance` | extras/wigle_to_skylift.py:21-24 | the result's magnitude is the geodesic distance. A non-zero distance is negative exactly when p2 is south of p1 or east of it |
| `WigleToSkylift.CalcGeoRssi` | extras/wigle_to_skylift.py:26-41 | the result is one of -90, -80, -75, -65, -55, -50 |
| `WigleToSkylift.CalcGeoRssiMonotone` | extras/wigle_to_skylift.py:29-40 | a greater distance never gives a stronger RSSI |
| `WigleToSkylift.CalcGeoRssiThresholds` | extras/wigle_to_skylift.py:29-40 | the thresholds are strict: exactly 1000 m gives -80 and exactly 50 m gives -50 |
| `WigleToSkylift.ConvertNetwork` | extras/wigle_to_skylift.py:82-101 | fields are copied. `distance_x`, `distance_xy` and `distance_y` have as magnitudes the geodesic distances from the target to the point on its parallel at the network's longitude, to the network itself, and to the point on its meridian at the network's latitude. A non-zero `distance_xy` is negative exactly when the network is south or east of the target, `distance_x` exactly when east, `distance_y` exactly when south. `rssi` is `calc_geo_rssi` of the network's distance to the target |
| `WigleToSkylift.ConvertResults` | extras/wigle_to_skylift.py:80-103 | one converted network per result, in response order |
| `WigleToSkylift.SortByDistance` | extras/wigle_to_skylift.py:106 | the networks are ordered by non-decreasing absolute `distance_xy` and are a permutation of the converted list |
| `WigleToSkylift.NetsToDo` | extras/wigle_to_skylift.py:126-129 | a file takes at most `nets_per_of` networks and at most what is left, and exactly one of the two |
| `WigleToSkylift.NoProgressWithoutFileSize` | extras/wigle_to_skylift.py:126-129 | with `nets_per_of <= 0`, `nets_to_do <= 0`, so `c` never increases and the loop never ends |
| `WigleToSkylift.CeilDivIsCeiling` | extras/wigle_to_skylift.py:121-141 | the file count is ceil(n / `nets_per_of`) |
| `WigleToSkylift.WriteOutFiles` | extras/wigle_to_skylift.py:117-141 | the files, in order, concatenate to the sorted roster. They are numbered 1, 2, ... consecutively. Each holds 1 to `nets_per_of` networks, every file but the last exactly `nets_per_of`. There are ceil(n / `nets_per_of`) files, none for an empty roster |
| `WigleToSkylift.WigleToSkylift` | extras/wigle_to_skylift.py:80-141 | the concatenated files are the converted results sorted nearest first, a permutation of them. Files are numbered consecutively. Each holds 1 to `nets_per_of` networks, every file but the last exactly `nets_per_of`, and there are ceil(n / `nets_per_of`) of them |

## Left out

- The geodesic distance (`geopy.distance.geodesic`) is a foreign floating-point
  computation. It is a parameter: a function from two points to a non-negative real.
  Latitudes, longitudes and distances are exact reals, not floats.
- Command-line parsing, `float()`/`int()` conversions, the usage message and
  `sys.exit` in `main` (extras/wigle_to_skylift.py:44-59) are I/O. This includes the
  default of 20 networks per file: `WigleToSkylift` takes the count as given.
- File and directory handling is I/O: reading the response JSON, `shutil.rmtree`,
  `os.makedirs` and writing each file. Each file is an `OutFile` with its number; the
  name `skylift_<number>.json` is not rendered as a string.
- The meta block written into every file is left out. It is a constant dictionary plus
  today's date, a clock read.
- Pydantic field validation, aliases (`latitude`/`longitude`), `Config`, and whether
  the library invokes `model_post_init` at all are library behaviour. `Networks` is
  built by a constructor that stores the given fields; normalisation is an explicit
  call.
- `Network.ssid` and the distance fields are optional payload. `Meta.type` is named
  `kind`, because `type` is a Dafny keyword.
- WriteOutFiles: requires `nets_per_of > 0` unless the roster is empty. With no
  positive file size the source loop never terminates (see
  `NoProgressWithoutFileSize`).
- WigleToSkylift: carries the same requirement, for the same reason.
- The 802.11 beacon-frame builder and the channel-rotation scheduler of the firmware
  are not part of this model; their source is not among the files modelled.
