/**
 * The roster models of `src/models/network.py`: one scanned network, the metadata
 * block, and the roster with its post-construction normalisation and its
 * filter-and-truncate query.
 */
module NetworkModels {
  import opened Wrappers
  import opened PyStrings
  import StableSort

  /** One scanned network. Position and distances are payload the roster never computes on. */
  datatype Network = Network(
    bssid: string,
    channel: int,
    rssi: int,
    lat: real,
    lon: real,
    ssid: Option<string>,
    distanceX: Option<real>,
    distanceXY: Option<real>,
    distanceY: Option<real>,
    qos: Option<int>)

  /** The metadata block of a roster file; every field may be missing. */
  datatype Meta = Meta(
    comment: Option<string>,
    filepath: Option<string>,
    lat: Option<real>,
    lon: Option<real>,
    radius: Option<real>,
    run: Option<int>,
    since: Option<int>,
    kind: Option<string>)

  function Distance(a: int, b: int): nat
  {
    if a <= b then b - a else a - b
  }

  // ---------------------------------------------------------------------------
  // Network.channel_as_2pt4

  /** The channel clamped into the 2.4 GHz range 0..11: the in-range channel nearest to it. */
  function ChannelAs2pt4(n: Network): (ch: int)
    ensures 0 <= ch <= 11
    ensures 0 <= n.channel <= 11 ==> ch == n.channel
    ensures forall v :: 0 <= v <= 11 ==> Distance(ch, n.channel) <= Distance(v, n.channel)
  {
    var lower := if n.channel < 11 then n.channel else 11;
    if 0 < lower then lower else 0
  }

  // ---------------------------------------------------------------------------
  // Network.bssid_as_hex_list_ino

  /** `[pre + x for x in xs]`. */
  function Prefixed(pre: string, xs: seq<string>): (ys: seq<string>)
    ensures |ys| == |xs|
    ensures forall i :: 0 <= i < |xs| ==> ys[i] == pre + xs[i]
  {
    if xs == [] then [] else [pre + xs[0]] + Prefixed(pre, xs[1..])
  }

  /**
   * The BSSID as a C array initializer for the firmware sketch: every ':'-separated
   * part of the BSSID prefixed with "0x", joined by ", " and wrapped in braces.
   */
  function BssidAsHexListIno(n: Network): (r: string)
    ensures |r| >= 2 && r[0] == '{' && r[|r| - 1] == '}'
  {
    "{" + Join(", ", Prefixed("0x", Split(n.bssid, ':'))) + "}"
  }

  /** `s` without the leading `pre`, if it starts with `pre`. */
  function StripPrefix(pre: string, s: string): Option<string>
  {
    if pre <= s then Some(s[|pre|..]) else None
  }

  /** Every element of `xs` without the leading `pre`, if every one starts with it. */
  function StripPrefixes(pre: string, xs: seq<string>): Option<seq<string>>
  {
    if xs == [] then Some([])
    else
      var head := StripPrefix(pre, xs[0]);
      var rest := StripPrefixes(pre, xs[1..]);
      if head.Some? && rest.Some? then Some([head.value] + rest.value) else None
  }

  /**
   * Reads a C array initializer of the shape `{0xA, 0xB, ...}` back into the texts
   * after each "0x"; the inverse of BssidAsHexListIno.
   */
  function ParseHexListIno(r: string): Option<seq<string>>
  {
    if |r| < 2 || r[0] != '{' || r[|r| - 1] != '}' then None
    else
      var items := Split(r[1..|r| - 1], ',');
      match (StripPrefixes("0x", items[..1]), StripPrefixes(" 0x", items[1..]))
      case (Some(first), Some(rest)) => Some(first + rest)
      case _ => None
  }

  lemma {:induction false} StripPrefixesPrefixed(pre: string, xs: seq<string>)
    ensures StripPrefixes(pre, Prefixed(pre, xs)) == Some(xs)
  {
    if xs != [] {
      var ys := Prefixed(pre, xs);
      assert ys == [pre + xs[0]] + Prefixed(pre, xs[1..]);
      assert ys[1..] == Prefixed(pre, xs[1..]);
      StripPrefixesPrefixed(pre, xs[1..]);
      assert (pre + xs[0])[|pre|..] == xs[0];
      assert xs == [xs[0]] + xs[1..];
    }
  }

  /** A ", " join is a "," join whose later items carry a leading space. */
  lemma {:induction false} CommaSpaceJoin(es: seq<string>)
    requires es != []
    ensures " " + Join(", ", es) == Join(",", Prefixed(" ", es))
  {
    if |es| > 1 {
      CommaSpaceJoin(es[1..]);
      var ps := Prefixed(" ", es);
      assert ps[1..] == Prefixed(" ", es[1..]);
      assert " " + (es[0] + ", " + Join(", ", es[1..]))
          == (" " + es[0]) + "," + (" " + Join(", ", es[1..]));
    }
  }

  /** The entries of the initializer, written as a "," join whose later items carry " 0x". */
  function CommaItems(parts: seq<string>): seq<string>
    requires parts != []
  {
    ["0x" + parts[0]] + Prefixed(" 0x", parts[1..])
  }

  lemma EntriesAsCommaJoin(parts: seq<string>)
    requires parts != []
    ensures Join(", ", Prefixed("0x", parts)) == Join(",", CommaItems(parts))
  {
    var es := Prefixed("0x", parts);
    var items := CommaItems(parts);
    if |es| > 1 {
      CommaSpaceJoin(es[1..]);
      assert es[1..] == Prefixed("0x", parts[1..]);
      forall i | 0 <= i < |es| - 1
        ensures Prefixed(" ", es[1..])[i] == Prefixed(" 0x", parts[1..])[i]
      {
        assert " " + ("0x" + parts[1..][i]) == " 0x" + parts[1..][i];
      }
      assert Prefixed(" ", es[1..]) == Prefixed(" 0x", parts[1..]);
      assert Join(", ", es) == es[0] + "," + (" " + Join(", ", es[1..]));
      assert items[1..] == Prefixed(" 0x", parts[1..]);
      assert Join(",", items) == items[0] + "," + Join(",", items[1..]);
    }
  }

  lemma CommaItemsSplit(parts: seq<string>)
    requires parts != []
    requires forall i :: 0 <= i < |parts| ==> ',' !in parts[i]
    ensures Split(Join(",", CommaItems(parts)), ',') == CommaItems(parts)
  {
    var items := CommaItems(parts);
    forall i | 0 <= i < |items|
      ensures ',' !in items[i]
    {
      assert items[i] == (if i == 0 then "0x" else " 0x") + parts[i];
    }
    SplitJoin(items, ',');
  }

  lemma CommaItemsStrip(parts: seq<string>)
    requires parts != []
    ensures StripPrefixes("0x", CommaItems(parts)[..1]) == Some(parts[..1])
    ensures StripPrefixes(" 0x", CommaItems(parts)[1..]) == Some(parts[1..])
  {
    var items := CommaItems(parts);
    StripPrefixesPrefixed("0x", parts[..1]);
    StripPrefixesPrefixed(" 0x", parts[1..]);
    assert items[..1] == Prefixed("0x", parts[..1]);
    assert items[1..] == Prefixed(" 0x", parts[1..]);
  }

  /** Entries of a BSSID with no ',' in it are read back exactly. */
  lemma HexListRoundTrip(n: Network)
    requires ',' !in n.bssid
    ensures ParseHexListIno(BssidAsHexListIno(n)) == Some(Split(n.bssid, ':'))
    ensures Join(":", Split(n.bssid, ':')) == n.bssid
    ensures |Split(n.bssid, ':')| == Occurrences(n.bssid, ':') + 1
  {
    var parts := Split(n.bssid, ':');
    JoinSplit(n.bssid, ':');
    var r := BssidAsHexListIno(n);
    var inner := Join(", ", Prefixed("0x", parts));
    assert r[1..|r| - 1] == inner;
    EntriesAsCommaJoin(parts);
    SplitKeepsOut(n.bssid, ':', ',');
    CommaItemsSplit(parts);
    var items := Split(r[1..|r| - 1], ',');
    assert items == CommaItems(parts);
    CommaItemsStrip(parts);
    assert parts[..1] + parts[1..] == parts;
  }

  /** A hexadecimal octet as it is written in a MAC address, two hex digits. */
  predicate IsHexOctet(s: string)
  {
    |s| == 2 && IsHexDigit(s[0]) && IsHexDigit(s[1])
  }

  predicate IsHexDigit(c: char)
  {
    '0' <= c <= '9' || 'a' <= c <= 'f' || 'A' <= c <= 'F'
  }

  /** A MAC written as six hex octets separated by ':' gives exactly these six entries. */
  lemma SixOctetMac(n: Network, octets: seq<string>)
    requires |octets| == 6 && forall i :: 0 <= i < 6 ==> IsHexOctet(octets[i])
    requires n.bssid == Join(":", octets)
    ensures ParseHexListIno(BssidAsHexListIno(n)) == Some(octets)
  {
    forall i | 0 <= i < 6
      ensures ':' !in octets[i]
    {
      assert IsHexOctet(octets[i]);
      assert octets[i] == [octets[i][0], octets[i][1]];
    }
    SplitJoin(octets, ':');
    NoCommaInJoin(octets);
    HexListRoundTrip(n);
  }

  lemma {:induction false} NoCommaInJoin(octets: seq<string>)
    requires forall i :: 0 <= i < |octets| ==> IsHexOctet(octets[i])
    ensures ',' !in Join(":", octets)
  {
    if octets != [] {
      assert IsHexOctet(octets[0]);
      assert octets[0] == [octets[0][0], octets[0][1]];
      if |octets| > 1 {
        NoCommaInJoin(octets[1..]);
        assert Join(":", octets) == octets[0] + ":" + Join(":", octets[1..]);
      }
    }
  }

  // ---------------------------------------------------------------------------
  // Networks.model_post_init

  /** The last '/'-separated component of a path: Python's `path.split('/')[-1]`. */
  function BaseName(path: string): (name: string)
    ensures '/' !in name
    ensures |name| <= |path| && path[|path| - |name|..] == name
    ensures |name| < |path| ==> path[|path| - |name| - 1] == '/'
  {
    LastPart(path, '/');
    Last(Split(path, '/'))
  }

  /** Sort key for "strongest signal first": ascending in `-rssi`. */
  function StrongestFirst(n: Network): real
  {
    -(n.rssi as real)
  }

  ghost predicate RssiDescending(s: seq<Network>)
  {
    forall i, j :: 0 <= i < j < |s| ==> s[i].rssi >= s[j].rssi
  }

  /**
   * `sorted(s, key=lambda x: x.rssi, reverse=True)`: strongest first, a permutation of
   * `s`; Python's sort is stable also when reversed, so equal RSSIs keep their order.
   */
  function SortByRssi(s: seq<Network>): (r: seq<Network>)
    ensures RssiDescending(r)
    ensures multiset(r) == multiset(s)
  {
    StableSort.SortBySorted(s, StrongestFirst);
    var r := StableSort.SortBy(s, StrongestFirst);
    assert forall i, j :: 0 <= i < j < |r| ==> StrongestFirst(r[i]) <= StrongestFirst(r[j]);
    r
  }

  /** The networks of `s` with RSSI `v`, in their order in `s`. */
  function WithRssi(s: seq<Network>, v: int): seq<Network>
  {
    StableSort.WithKey(s, StrongestFirst, -(v as real))
  }

  /** Equal RSSIs keep their relative order. */
  lemma SortByRssiStable(s: seq<Network>, v: int)
    ensures WithRssi(SortByRssi(s), v) == WithRssi(s, v)
  {
    StableSort.SortByStable(s, StrongestFirst, -(v as real));
  }

  /** A list already strongest-first is left as it is, so normalising twice changes nothing. */
  lemma SortByRssiOfSorted(s: seq<Network>)
    requires RssiDescending(s)
    ensures SortByRssi(s) == s
  {
    assert StableSort.SortedBy(s, StrongestFirst);
    StableSort.SortBySortedIsIdentity(s, StrongestFirst);
  }

  /** The list `model_post_init` sorts into `wifi`: `networks` only when `wifi` is empty. */
  function ChosenWifi(networks: seq<Network>, wifi: seq<Network>): (r: seq<Network>)
    ensures wifi != [] ==> r == wifi
    ensures wifi == [] ==> r == networks
  {
    if networks != [] && wifi == [] then networks else wifi
  }

  /** Whether `model_post_init` derives the file name: no name yet, and a non-empty path. */
  predicate TakesNameFromMeta(filename: string, meta: Option<Meta>)
  {
    filename == "" && meta.Some? && meta.value.filepath.Some? && meta.value.filepath.value != ""
  }

  // ---------------------------------------------------------------------------
  // Networks.get_networks

  /** Python truthiness of an optional integer argument: None and 0 are both false. */
  predicate Truthy(o: Option<int>)
  {
    o.Some? && o.value != 0
  }

  /** `o if o else d`. */
  function OrDefault(o: Option<int>, d: int): int
  {
    if Truthy(o) then o.value else d
  }

  function MinRssi(nets: seq<Network>): (m: int)
    requires nets != []
    ensures forall i :: 0 <= i < |nets| ==> m <= nets[i].rssi
    ensures exists i :: 0 <= i < |nets| && m == nets[i].rssi
  {
    if |nets| == 1 then nets[0].rssi
    else
      var m := MinRssi(nets[1..]);
      assert forall i :: 1 <= i < |nets| ==> nets[i] == nets[1..][i - 1];
      if nets[0].rssi <= m then nets[0].rssi else m
  }

  function MaxRssi(nets: seq<Network>): (m: int)
    requires nets != []
    ensures forall i :: 0 <= i < |nets| ==> nets[i].rssi <= m
    ensures exists i :: 0 <= i < |nets| && m == nets[i].rssi
  {
    if |nets| == 1 then nets[0].rssi
    else
      var m := MaxRssi(nets[1..]);
      assert forall i :: 1 <= i < |nets| ==> nets[i] == nets[1..][i - 1];
      if m <= nets[0].rssi then nets[0].rssi else m
  }

  /** `a` is `b` with some elements left out, the rest in their order. */
  ghost predicate IsSubsequence<T>(a: seq<T>, b: seq<T>)
  {
    a == [] || (b != [] && ((a[0] == b[0] && IsSubsequence(a[1..], b[1..])) || IsSubsequence(a, b[1..])))
  }

  lemma {:induction false} PrefixIsSubsequence<T>(a: seq<T>, b: seq<T>, k: nat)
    requires IsSubsequence(a, b) && k <= |a|
    ensures IsSubsequence(a[..k], b)
  {
    if k > 0 {
      if a[0] == b[0] && IsSubsequence(a[1..], b[1..]) {
        PrefixIsSubsequence(a[1..], b[1..], k - 1);
        assert a[..k][1..] == a[1..][..k - 1];
      } else {
        PrefixIsSubsequence(a, b[1..], k);
      }
    }
  }

  /** `[x for x in nets if lo <= x.rssi <= hi]`. */
  function FilterRssi(nets: seq<Network>, lo: int, hi: int): (r: seq<Network>)
    ensures IsSubsequence(r, nets)
    ensures |r| <= |nets|
    ensures forall x :: x in r <==> x in nets && lo <= x.rssi <= hi
    ensures forall x :: multiset(r)[x] == if lo <= x.rssi <= hi then multiset(nets)[x] else 0
  {
    if nets == [] then []
    else
      var rest := FilterRssi(nets[1..], lo, hi);
      assert nets == [nets[0]] + nets[1..];
      if lo <= nets[0].rssi <= hi then
        assert ([nets[0]] + rest)[1..] == rest;
        [nets[0]] + rest
      else rest
  }

  /** Python's `s[:stop]`: a negative `stop` counts from the end. */
  function SliceTo<T>(s: seq<T>, stop: int): (r: seq<T>)
    ensures r <= s
    ensures 0 <= stop ==> |r| == (if stop < |s| then stop else |s|)
    ensures stop < 0 ==> |r| == (if |s| + stop < 0 then 0 else |s| + stop)
  {
    var end := if stop < 0 then |s| + stop else stop;
    if end < 0 then [] else if end < |s| then s[..end] else s
  }

  /** The networks `get_networks` would return from the list `nets` it picked. */
  function Query(nets: seq<Network>, minRssi: Option<int>, maxRssi: Option<int>,
                 maxNetworks: Option<int>): (r: seq<Network>)
    ensures nets == [] ==> r == []
    ensures IsSubsequence(r, nets)
    ensures nets != [] ==>
      var lo := OrDefault(minRssi, MinRssi(nets));
      var hi := OrDefault(maxRssi, MaxRssi(nets));
      && (forall i :: 0 <= i < |r| ==> lo <= r[i].rssi <= hi)
      && r <= FilterRssi(nets, lo, hi)
    ensures nets != [] ==>
      var f := FilterRssi(nets, OrDefault(minRssi, MinRssi(nets)), OrDefault(maxRssi, MaxRssi(nets)));
      var k := OrDefault(maxNetworks, |nets|);
      |r| == if k < 0 then (if |f| + k < 0 then 0 else |f| + k) else if k < |f| then k else |f|
    ensures Truthy(maxNetworks) && maxNetworks.value > 0 ==> |r| <= maxNetworks.value
  {
    if nets == [] then []
    else
      var lo := OrDefault(minRssi, MinRssi(nets));
      var hi := OrDefault(maxRssi, MaxRssi(nets));
      var k := OrDefault(maxNetworks, |nets|);
      SlicedFilter(nets, lo, hi, k);
      SliceTo(FilterRssi(nets, lo, hi), k)
  }

  /** What `filtered_nets[:k]` keeps of `nets`. */
  lemma SlicedFilter(nets: seq<Network>, lo: int, hi: int, k: int)
    ensures var f := FilterRssi(nets, lo, hi);
      var r := SliceTo(f, k);
      && IsSubsequence(r, nets)
      && (forall i :: 0 <= i < |r| ==> lo <= r[i].rssi <= hi)
      && r <= f
      && |r| == if k < 0 then (if |f| + k < 0 then 0 else |f| + k) else if k < |f| then k else |f|
  {
    var f := FilterRssi(nets, lo, hi);
    var r := SliceTo(f, k);
    assert r == f[..|r|];
    PrefixIsSubsequence(f, nets, |r|);
    forall i | 0 <= i < |r|
      ensures lo <= r[i].rssi <= hi
    {
      assert r[i] == f[i] && f[i] in f;
    }
  }

  /** With every bound and the limit None or 0, the whole list comes back unchanged. */
  lemma NoBoundsReturnsAll(nets: seq<Network>, minRssi: Option<int>, maxRssi: Option<int>,
                           maxNetworks: Option<int>)
    requires !Truthy(minRssi) && !Truthy(maxRssi) && !Truthy(maxNetworks)
    ensures Query(nets, minRssi, maxRssi, maxNetworks) == nets
  {
    if nets != [] {
      FilterInRange(nets, MinRssi(nets), MaxRssi(nets));
    }
  }

  lemma {:induction false} FilterInRange(nets: seq<Network>, lo: int, hi: int)
    requires forall i :: 0 <= i < |nets| ==> lo <= nets[i].rssi <= hi
    ensures FilterRssi(nets, lo, hi) == nets
  {
    if nets != [] {
      FilterInRange(nets[1..], lo, hi);
      assert nets == [nets[0]] + nets[1..];
    }
  }

  /** None and 0 are the same to every argument: each means "unset". */
  lemma FalsyArgumentsAreUnset(nets: seq<Network>, minRssi: Option<int>, maxRssi: Option<int>,
                               maxNetworks: Option<int>)
    ensures Query(nets, Some(0), maxRssi, maxNetworks) == Query(nets, None, maxRssi, maxNetworks)
    ensures Query(nets, minRssi, Some(0), maxNetworks) == Query(nets, minRssi, None, maxNetworks)
    ensures Query(nets, minRssi, maxRssi, Some(0)) == Query(nets, minRssi, maxRssi, None)
  {
  }

  /**
   * A limit of 0 is no limit: every network of `nets` within the bounds is returned,
   * where `max_networks=0` might have been expected to return none.
   */
  lemma ZeroLimitKeepsEveryMatch(nets: seq<Network>, minRssi: Option<int>, maxRssi: Option<int>)
    requires nets != []
    ensures Query(nets, minRssi, maxRssi, Some(0))
         == FilterRssi(nets, OrDefault(minRssi, MinRssi(nets)), OrDefault(maxRssi, MaxRssi(nets)))
  {
  }

  /** A negative limit drops that many networks from the end of the filtered list. */
  lemma NegativeLimitDropsTail(nets: seq<Network>, minRssi: Option<int>, maxRssi: Option<int>, k: int)
    requires nets != [] && k < 0
    ensures var f := FilterRssi(nets, OrDefault(minRssi, MinRssi(nets)), OrDefault(maxRssi, MaxRssi(nets)));
      Query(nets, minRssi, maxRssi, Some(k)) == f[..if |f| + k < 0 then 0 else |f| + k]
  {
  }

  /** `get_networks` with a `device_type` other than 'wifi' or 'bt': `nets` is never bound. */
  datatype QueryError = UnboundNets

  // ---------------------------------------------------------------------------
  // Networks

  class Networks {
    var meta: Option<Meta>
    var networks: seq<Network>
    var filename: string
    var nWifi: int
    var nBt: int
    var wifi: seq<Network>
    var bt: seq<Network>

    /** The field values as given; normalisation is `ModelPostInit`. */
    constructor (meta: Option<Meta>, networks: seq<Network>, filename: string,
                 nWifi: int, nBt: int, wifi: seq<Network>, bt: seq<Network>)
      ensures this.meta == meta && this.networks == networks && this.filename == filename
      ensures this.nWifi == nWifi && this.nBt == nBt && this.wifi == wifi && this.bt == bt
    {
      this.meta := meta;
      this.networks := networks;
      this.filename := filename;
      this.nWifi := nWifi;
      this.nBt := nBt;
      this.wifi := wifi;
      this.bt := bt;
    }

    /** What normalisation establishes: counts that match the lists, strongest first. */
    ghost predicate Normalised()
      reads this
    {
      nWifi == |wifi| && nBt == |bt| && RssiDescending(wifi) && RssiDescending(bt)
    }

    method ModelPostInit()
      modifies this
      ensures Normalised()
      ensures meta == old(meta) && networks == old(networks)
      ensures filename == if TakesNameFromMeta(old(filename), old(meta))
                          then BaseName(old(meta).value.filepath.value) else old(filename)
      ensures wifi == SortByRssi(ChosenWifi(old(networks), old(wifi)))
      ensures multiset(wifi) == multiset(ChosenWifi(old(networks), old(wifi)))
      ensures bt == SortByRssi(old(bt)) && multiset(bt) == multiset(old(bt))
    {
      if filename == "" && meta.Some? && meta.value.filepath.Some? && meta.value.filepath.value != "" {
        filename := BaseName(meta.value.filepath.value);
      }
      if networks != [] && wifi == [] {
        wifi := networks;
      }
      wifi := SortByRssi(wifi);
      bt := SortByRssi(bt);
      nWifi := |wifi|;
      nBt := |bt|;
    }

    /** Normalising twice ends in the state normalising once gives: the second run changes nothing. */
    method ModelPostInitTwice()
      modifies this
      ensures Normalised()
      ensures meta == old(meta) && networks == old(networks)
      ensures filename == if TakesNameFromMeta(old(filename), old(meta))
                          then BaseName(old(meta).value.filepath.value) else old(filename)
      ensures wifi == SortByRssi(ChosenWifi(old(networks), old(wifi)))
      ensures bt == SortByRssi(old(bt))
    {
      ModelPostInit();
      ghost var once := (filename, wifi, bt, nWifi, nBt);
      SortByRssiOfSorted(wifi);
      SortByRssiOfSorted(bt);
      ModelPostInit();
      assert (filename, wifi, bt, nWifi, nBt) == once;
    }

    /** `get_networks`: the networks of the chosen list within the RSSI bounds, at most the limit. */
    function GetNetworks(minRssi: Option<int>, maxRssi: Option<int>, maxNetworks: Option<int>,
                         deviceType: string): (r: Result<seq<Network>, QueryError>)
      reads this
      ensures r.Failure? <==> deviceType != "wifi" && deviceType != "bt"
      ensures deviceType == "wifi" ==>
        r == Success(Query(if wifi != [] then wifi else networks, minRssi, maxRssi, maxNetworks))
      ensures deviceType == "bt" ==> r == Success(Query(bt, minRssi, maxRssi, maxNetworks))
    {
      if deviceType == "wifi" then
        var nets := if wifi != [] then wifi else networks;
        Success(Query(nets, minRssi, maxRssi, maxNetworks))
      else if deviceType == "bt" then
        Success(Query(bt, minRssi, maxRssi, maxNetworks))
      else
        Failure(UnboundNets)
    }
  }
}
