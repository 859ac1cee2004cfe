/**
 * `extras/wigle_to_skylift.py`: converts the results of a WiGLE search into Skylift
 * roster files. Each result becomes a roster network whose distances and estimated
 * RSSI are derived from its position relative to the target point; the networks are
 * ordered by distance from the target and cut into consecutive files of at most
 * `nets_per_of` networks, one per ESP32 board.
 */
module WigleToSkylift {
  import StableSort

  /** A latitude/longitude pair in degrees. */
  datatype Point = Point(lat: real, lon: real)

  /** A geodesic distance in meters, as `geopy.distance.geodesic(p1, p2).m` gives it. */
  type Meters = r: real | r >= 0.0

  /** One result of a WiGLE search response: the fields the script reads. */
  datatype WigleResult = WigleResult(
    netid: string,
    channel: int,
    trilat: real,
    trilong: real,
    qos: int,
    ssid: string)

  /** One network of a Skylift roster file, as the script writes it. */
  datatype SlNetwork = SlNetwork(
    bssid: string,
    channel: int,
    distanceX: real,
    distanceXY: real,
    distanceY: real,
    lat: real,
    lon: real,
    qos: int,
    rssi: int,
    ssid: string)

  /** One output file `skylift_<number>.json` and the networks it holds. */
  datatype OutFile = OutFile(number: nat, networks: seq<SlNetwork>)

  function Abs(x: real): real
  {
    if x < 0.0 then -x else x
  }

  // ---------------------------------------------------------------------------
  // get_geo_distance and calc_geo_rssi

  /**
   * `get_geo_distance(p1, p2)` given the geodesic distance `meters` between them: the
   * distance, negated when `p2` lies south of `p1` or east of it.
   */
  function GetGeoDistance(p1: Point, p2: Point, meters: Meters): (d: real)
    ensures Abs(d) == meters
    ensures meters > 0.0 ==> (d < 0.0 <==> p2.lat < p1.lat || p2.lon > p1.lon)
  {
    var m: real := meters;
    if p2.lat < p1.lat || p2.lon > p1.lon then -m else m
  }

  /** The RSSI levels `calc_geo_rssi` can return, weakest first. */
  const RssiLevels: seq<int> := [-90, -80, -75, -65, -55, -50]

  /** `calc_geo_rssi` given the geodesic distance: a step function of the distance. */
  function CalcGeoRssi(m: Meters): (rssi: int)
    ensures rssi in RssiLevels
    ensures -90 <= rssi <= -50
  {
    if m > 1000.0 then -90
    else if m > 500.0 then -80
    else if m > 250.0 then -75
    else if m > 125.0 then -65
    else if m > 50.0 then -55
    else -50
  }

  /** A network further away is never estimated stronger. */
  lemma CalcGeoRssiMonotone(m1: Meters, m2: Meters)
    requires m1 <= m2
    ensures CalcGeoRssi(m2) <= CalcGeoRssi(m1)
  {
  }

  /** The thresholds are strict: a distance exactly on one falls in the nearer step. */
  lemma CalcGeoRssiThresholds()
    ensures CalcGeoRssi(1000.0) == -80 && CalcGeoRssi(500.0) == -75 && CalcGeoRssi(250.0) == -65
    ensures CalcGeoRssi(125.0) == -55 && CalcGeoRssi(50.0) == -50 && CalcGeoRssi(0.0) == -50
  {
  }

  // ---------------------------------------------------------------------------
  // Conversion of the WiGLE results

  /**
   * One WiGLE result as a roster network, relative to `target`; `geodesic` stands for
   * geopy's geodesic distance.
   */
  function ConvertNetwork(w: WigleResult, target: Point, geodesic: (Point, Point) -> Meters): (n: SlNetwork)
    ensures n.bssid == w.netid && n.channel == w.channel && n.qos == w.qos && n.ssid == w.ssid
    ensures n.lat == w.trilat && n.lon == w.trilong
    ensures Abs(n.distanceX) == geodesic(target, Point(target.lat, w.trilong))
    ensures Abs(n.distanceXY) == geodesic(target, Point(w.trilat, w.trilong))
    ensures Abs(n.distanceY) == geodesic(target, Point(w.trilat, target.lon))
    ensures geodesic(target, Point(w.trilat, w.trilong)) > 0.0 ==>
      (n.distanceXY < 0.0 <==> w.trilat < target.lat || w.trilong > target.lon)
    // the x distance reaches the point on the target's parallel at the network's longitude:
    // its sign says east or west only
    ensures geodesic(target, Point(target.lat, w.trilong)) > 0.0 ==>
      (n.distanceX < 0.0 <==> w.trilong > target.lon)
    // the y distance reaches the point on the target's meridian at the network's latitude:
    // its sign says north or south only
    ensures geodesic(target, Point(w.trilat, target.lon)) > 0.0 ==>
      (n.distanceY < 0.0 <==> w.trilat < target.lat)
    ensures n.rssi == CalcGeoRssi(geodesic(Point(w.trilat, w.trilong), target))
    ensures n.rssi in RssiLevels
  {
    var pNetwork := Point(w.trilat, w.trilong);
    SlNetwork(
      w.netid,
      w.channel,
      GetGeoDistance(target, Point(target.lat, w.trilong), geodesic(target, Point(target.lat, w.trilong))),
      GetGeoDistance(target, pNetwork, geodesic(target, pNetwork)),
      GetGeoDistance(target, Point(w.trilat, target.lon), geodesic(target, Point(w.trilat, target.lon))),
      w.trilat,
      w.trilong,
      w.qos,
      CalcGeoRssi(geodesic(pNetwork, target)),
      w.ssid)
  }

  /** Every result converted, in the order of the response. */
  function Converted(results: seq<WigleResult>, target: Point, geodesic: (Point, Point) -> Meters): (sl: seq<SlNetwork>)
    ensures |sl| == |results|
    ensures forall i :: 0 <= i < |results| ==> sl[i] == ConvertNetwork(results[i], target, geodesic)
  {
    if results == [] then []
    else [ConvertNetwork(results[0], target, geodesic)] + Converted(results[1..], target, geodesic)
  }

  /** The loop that appends one converted network per result to `sl_networks`. */
  method ConvertResults(results: seq<WigleResult>, target: Point, geodesic: (Point, Point) -> Meters)
    returns (slNetworks: seq<SlNetwork>)
    ensures |slNetworks| == |results|
    ensures forall i :: 0 <= i < |results| ==> slNetworks[i] == ConvertNetwork(results[i], target, geodesic)
  {
    slNetworks := [];
    for i := 0 to |results|
      invariant |slNetworks| == i
      invariant forall k :: 0 <= k < i ==> slNetworks[k] == ConvertNetwork(results[k], target, geodesic)
    {
      slNetworks := slNetworks + [ConvertNetwork(results[i], target, geodesic)];
    }
  }

  // ---------------------------------------------------------------------------
  // Ordering by distance

  /** Sort key of the roster: distance from the target, whatever its sign. */
  function ByDistance(n: SlNetwork): real
  {
    Abs(n.distanceXY)
  }

  /** `sl_networks.sort(key=lambda n: abs(n["distance_xy"]))`: nearest first, a permutation. */
  function SortByDistance(sl: seq<SlNetwork>): (r: seq<SlNetwork>)
    ensures forall i, j :: 0 <= i < j < |r| ==> Abs(r[i].distanceXY) <= Abs(r[j].distanceXY)
    ensures multiset(r) == multiset(sl)
  {
    StableSort.SortBySorted(sl, ByDistance);
    StableSort.SortBy(sl, ByDistance)
  }

  // ---------------------------------------------------------------------------
  // Cutting the roster into files

  /** `nets_to_do`: what is left, or a full file when at least that much is left. */
  function NetsToDo(nNets: int, c: int, netsPerOf: int): (k: int)
    ensures k <= netsPerOf && k <= nNets - c
    ensures k == netsPerOf || k == nNets - c
  {
    if nNets - c < netsPerOf then nNets - c else netsPerOf
  }

  /** With no positive file size the loop never advances, which is why that is excluded. */
  lemma NoProgressWithoutFileSize(nNets: int, c: int, netsPerOf: int)
    requires netsPerOf <= 0 && c < nNets
    ensures NetsToDo(nNets, c, netsPerOf) <= 0
  {
  }

  /** The networks of all files, in file order. */
  function Flatten(files: seq<OutFile>): seq<SlNetwork>
  {
    if files == [] then [] else Flatten(files[..|files| - 1]) + files[|files| - 1].networks
  }

  /** Number of files of at most `k` networks that `n` networks fill: one per started `k`. */
  function CeilDiv(n: nat, k: nat): nat
    requires k > 0
  {
    if n == 0 then 0 else 1 + CeilDiv(if n < k then 0 else n - k, k)
  }

  lemma {:induction false} MulAtLeast(a: nat, k: int)
    requires a >= 1 && k > 0
    ensures a * k >= k
  {
    if a > 1 {
      MulAtLeast(a - 1, k);
      assert a * k == (a - 1) * k + k;
    }
  }

  lemma DivUnique(x: int, k: int, q: int)
    requires k > 0 && q * k <= x < q * k + k
    ensures x / k == q
  {
    var q', r := x / k, x % k;
    assert x == q' * k + r && 0 <= r < k;
    if q' < q {
      MulAtLeast(q - q', k);
    } else if q' > q {
      MulAtLeast(q' - q, k);
    }
  }

  lemma DivShift(x: nat, k: int)
    requires k > 0
    ensures (x + k) / k == x / k + 1
  {
    var q, r := x / k, x % k;
    assert x == q * k + r && 0 <= r < k;
    assert (q + 1) * k == q * k + k;
    DivUnique(x + k, k, q + 1);
  }

  /** CeilDiv is the ceiling of n / k. */
  lemma {:induction false} CeilDivIsCeiling(n: nat, k: nat)
    requires k > 0
    ensures CeilDiv(n, k) == (n + k - 1) / k
  {
    if n == 0 {
      DivUnique(k - 1, k, 0);
    } else if n < k {
      DivUnique(n + k - 1, k, 1);
    } else {
      CeilDivIsCeiling(n - k, k);
      DivShift(n - 1, k);
    }
  }

  /**
   * The `while` loop of `main` that writes `skylift_1.json`, `skylift_2.json`, ...: each
   * file takes the next `nets_per_of` networks, the last one what is left.
   */
  method WriteOutFiles(slNetworks: seq<SlNetwork>, netsPerOf: int) returns (files: seq<OutFile>)
    requires netsPerOf > 0 || slNetworks == []
    ensures Flatten(files) == slNetworks
    ensures forall j :: 0 <= j < |files| ==> files[j].number == j + 1
    ensures forall j :: 0 <= j < |files| ==> 1 <= |files[j].networks| <= netsPerOf
    ensures forall j :: 0 <= j < |files| - 1 ==> |files[j].networks| == netsPerOf
    ensures |files| == if slNetworks == [] then 0 else CeilDiv(|slNetworks|, netsPerOf)
  {
    var nNets := |slNetworks|;
    var i := 0;
    var c := 0;
    files := [];
    while c < nNets
      invariant 0 <= c <= nNets && i == |files|
      invariant Flatten(files) == slNetworks[..c]
      invariant forall j :: 0 <= j < i ==> files[j].number == j + 1
      invariant forall j :: 0 <= j < i ==> 1 <= |files[j].networks| <= netsPerOf
      invariant forall j :: 0 <= j < i ==> |files[j].networks| == netsPerOf || (j == i - 1 && c == nNets)
      invariant nNets > 0 ==> i + CeilDiv(nNets - c, netsPerOf) == CeilDiv(nNets, netsPerOf)
      decreases nNets - c
    {
      if nNets - c == 0 {
        // `main` returns here; the loop guard makes it unreachable
        assert false;
      }
      var netsToDo := NetsToDo(nNets, c, netsPerOf);
      var file := OutFile(i + 1, slNetworks[c..c + netsToDo]);
      assert (files + [file])[..|files|] == files;
      assert slNetworks[..c + netsToDo] == slNetworks[..c] + file.networks;
      files := files + [file];
      c := c + netsToDo;
      i := i + 1;
    }
    assert slNetworks[..c] == slNetworks;
  }

  /**
   * The part of `main` after loading the response: convert every result, order the
   * networks by distance and cut them into files.
   */
  method WigleToSkylift(results: seq<WigleResult>, target: Point, netsPerOf: int,
                        geodesic: (Point, Point) -> Meters)
    returns (files: seq<OutFile>)
    requires netsPerOf > 0 || results == []
    ensures Flatten(files) == SortByDistance(Converted(results, target, geodesic))
    ensures multiset(Flatten(files)) == multiset(Converted(results, target, geodesic))
    ensures forall i, j :: 0 <= i < j < |Flatten(files)| ==>
      Abs(Flatten(files)[i].distanceXY) <= Abs(Flatten(files)[j].distanceXY)
    ensures forall j :: 0 <= j < |files| ==> files[j].number == j + 1
    ensures forall j :: 0 <= j < |files| ==> 1 <= |files[j].networks| <= netsPerOf
    ensures forall j :: 0 <= j < |files| - 1 ==> |files[j].networks| == netsPerOf
    ensures |files| == if results == [] then 0 else CeilDiv(|results|, netsPerOf)
  {
    var slNetworks := ConvertResults(results, target, geodesic);
    assert slNetworks == Converted(results, target, geodesic);
    slNetworks := SortByDistance(slNetworks);
    files := WriteOutFiles(slNetworks, netsPerOf);
  }
}
