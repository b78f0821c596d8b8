/** `conduit_lengths` from `openpnm/utils/misc.py`: each throat's
    pore-to-pore span split into the part owned by its first pore, the throat
    length, and the part owned by its second pore.  Distances are a given
    function on 3-vectors; arithmetic is over `real`. */
module Conduits {
  import opened Wrappers
  import opened Vectors

  /** The value a negative remainder is replaced by (`2e-9`). */
  const LengthFloor: real := 0.000000002

  /** A centroid row: three numbers, or a row holding a NaN. */
  datatype Row = Known(v: Vec3) | NotANumber

  /** The network properties the computation reads; a property that may be
      missing is an `Option`. */
  datatype Network = Network(
    conns: seq<(nat, nat)>,               // throat.conns
    coords: seq<Vec3>,                    // pore.coords
    throatLength: seq<real>,              // throat.length
    poreDiameter: Option<seq<real>>,      // pore.diameter
    poreCentroid: Option<seq<Row>>,       // pore.centroid
    throatCentroid: Option<seq<Row>>)     // throat.centroid

  /** The (pore 1, throat, pore 2) lengths of one conduit. */
  datatype Conduit = Conduit(pore1: real, throat: real, pore2: real)

  /** A network whose arrays have the shapes the computation indexes with. */
  predicate Valid(net: Network)
  {
    |net.throatLength| == |net.conns|
    && (forall t :: 0 <= t < |net.conns| ==> net.conns[t].0 < |net.coords| && net.conns[t].1 < |net.coords|)
    && (net.poreCentroid.Some? ==>
          forall t :: 0 <= t < |net.conns| ==>
            net.conns[t].0 < |net.poreCentroid.value| && net.conns[t].1 < |net.poreCentroid.value|)
    && (net.throatCentroid.Some? ==> |net.throatCentroid.value| == |net.conns|)
  }

  // ---------------------------------------------------------------------
  // Pore mode

  /** `lengths[lengths < 0.0] = 2e-9`, one entry. */
  function Clamp(x: real): (r: real)
    ensures r >= 0.0
    ensures x >= 0.0 ==> r == x
    ensures x < 0.0 ==> r == LengthFloor
  {
    if x < 0.0 then LengthFloor else x
  }

  /** Pore-to-pore distance minus the throat length, per throat. */
  function Gaps(net: Network, dist: (Vec3, Vec3) -> real): (r: seq<real>)
    requires Valid(net)
    ensures |r| == |net.conns|
  {
    seq(|net.conns|, t requires 0 <= t < |net.conns| =>
      dist(net.coords[net.conns[t].0], net.coords[net.conns[t].1]) - net.throatLength[t])
  }

  function Clamped(s: seq<real>): (r: seq<real>)
    ensures |r| == |s|
  {
    seq(|s|, i requires 0 <= i < |s| => Clamp(s[i]))
  }

  /** Every index `pdia[Ps[:, 0]]` and `pdia[Ps[:, 1]]` needs exists. */
  predicate DiametersIndexable(net: Network)
  {
    net.poreDiameter.Some?
    && forall t :: 0 <= t < |net.conns| ==>
         net.conns[t].0 < |net.poreDiameter.value| && net.conns[t].1 < |net.poreDiameter.value|
  }

  /** Where the division is carried out, no throat's two diameters sum to zero. */
  predicate NonZeroSums(net: Network)
  {
    DiametersIndexable(net) ==>
      forall t :: 0 <= t < |net.conns| ==>
        net.poreDiameter.value[net.conns[t].0] + net.poreDiameter.value[net.conns[t].1] != 0.0
  }

  /** `pdia[Ps[:, 0]] / (pdia[Ps[:, 0]] + pdia[Ps[:, 1]])`; `None` where the
      expression raises (an index outside `pdia`), which the bare `except`
      turns into the scalar 0.5. */
  function Fractions(net: Network): (r: Option<seq<real>>)
    requires NonZeroSums(net)
    ensures r.Some? <==> DiametersIndexable(net)
    ensures r.Some? ==> |r.value| == |net.conns|
  {
    if DiametersIndexable(net) then
      var pd := net.poreDiameter.value;
      Some(seq(|net.conns|, t requires 0 <= t < |net.conns| =>
        pd[net.conns[t].0] / (pd[net.conns[t].0] + pd[net.conns[t].1])))
    else None
  }

  /** The fraction each throat's remainder is split by. */
  function FractionOf(net: Network, t: nat): real
    requires NonZeroSums(net) && t < |net.conns|
  {
    match Fractions(net)
    case Some(fs) => fs[t]
    case None => 0.5
  }

  /** The pore-mode conduit of every throat. */
  function PoreRows(net: Network, dist: (Vec3, Vec3) -> real): (r: seq<Conduit>)
    requires Valid(net) && NonZeroSums(net)
    ensures |r| == |net.conns|
  {
    var rest := Clamped(Gaps(net, dist));
    seq(|net.conns|, t requires 0 <= t < |net.conns| =>
      Conduit(rest[t] * FractionOf(net, t), net.throatLength[t], rest[t] * (1.0 - FractionOf(net, t))))
  }

  // ---------------------------------------------------------------------
  // Centroid mode

  /** Both centroid arrays are present and neither holds a NaN. */
  predicate CentroidsUsable(net: Network)
  {
    net.poreCentroid.Some? && net.throatCentroid.Some?
    && (forall i :: 0 <= i < |net.poreCentroid.value| ==> net.poreCentroid.value[i].Known?)
    && (forall i :: 0 <= i < |net.throatCentroid.value| ==> net.throatCentroid.value[i].Known?)
  }

  /** Distance from each end pore's centroid to the throat centroid, minus
      half the throat length. */
  function CentroidRows(net: Network, dist: (Vec3, Vec3) -> real): (r: seq<Conduit>)
    requires Valid(net) && CentroidsUsable(net)
    ensures |r| == |net.conns|
  {
    var pc, tc := net.poreCentroid.value, net.throatCentroid.value;
    seq(|net.conns|, t requires 0 <= t < |net.conns| =>
      Conduit(dist(pc[net.conns[t].0].v, tc[t].v) - net.throatLength[t] / 2.0,
              net.throatLength[t],
              dist(pc[net.conns[t].1].v, tc[t].v) - net.throatLength[t] / 2.0))
  }

  // ---------------------------------------------------------------------
  // Selecting the requested throats

  /** A NumPy index into an axis of length `n`: negative indices count from
      the end; anything outside `-n .. n-1` raises. */
  function Resolve(n: nat, i: int): (r: Option<nat>)
    ensures r.Some? <==> -(n as int) <= i < n
    ensures r.Some? ==> r.value < n && (r.value as int == i || r.value as int == i + n)
  {
    if 0 <= i < n then Some(i as nat)
    else if -(n as int) <= i < 0 then Some((i + n) as nat)
    else None
  }

  /** `rows[throats]`: row `k` of the result is the row `throats[k]` names. */
  function Select(rows: seq<Conduit>, ts: seq<int>): (r: Result<seq<Conduit>>)
    ensures r.Err? <==> exists k :: 0 <= k < |ts| && Resolve(|rows|, ts[k]).None?
    ensures r.Err? ==> r.error == IndexError
    ensures r.Ok? ==> |r.value| == |ts|
    ensures r.Ok? ==> forall k :: 0 <= k < |ts| ==> r.value[k] == rows[Resolve(|rows|, ts[k]).value]
  {
    if ts == [] then Ok([])
    else
      var init := ts[..|ts| - 1];
      match Select(rows, init)
      case Err(e) => Err(e)
      case Ok(front) =>
        match Resolve(|rows|, ts[|ts| - 1])
        case None => Err(IndexError)
        case Some(i) => Ok(front + [rows[i]])
  }

  /** Definition of `network.throats()`, the indices `0 .. n-1`.  Its
      `ensures` only spells out the comprehension, for use by callers. */
  function AllThroats(n: nat): (r: seq<int>)
    ensures |r| == n && forall k :: 0 <= k < n ==> r[k] == k
  {
    seq(n, k requires 0 <= k < n => k)
  }

  function Requested(net: Network, throats: Option<seq<int>>): seq<int>
  {
    match throats
    case None => AllThroats(|net.conns|)
    case Some(ts) => ts
  }

  // ---------------------------------------------------------------------
  // The whole computation

  /** The pore-mode block runs: the mode is `'pore'`, or `'centroid'` without
      usable centroids. */
  predicate PoreModeRuns(net: Network, mode: string)
  {
    mode == "pore" || (mode == "centroid" && !CentroidsUsable(net))
  }

  /** The result of `conduit_lengths(network, throats, mode)`, or the error it raises. */
  function ConduitLengthsOf(net: Network, throats: Option<seq<int>>, mode: string,
                            dist: (Vec3, Vec3) -> real): Result<seq<Conduit>>
    requires Valid(net) && (PoreModeRuns(net, mode) ==> NonZeroSums(net))
  {
    if net.poreDiameter.None? then Err(KeyError)
    else if mode == "centroid" && CentroidsUsable(net) then
      Select(CentroidRows(net, dist), Requested(net, throats))
    else if mode == "centroid" || mode == "pore" then
      Select(PoreRows(net, dist), Requested(net, throats))
    else Err(UnboundLocal)
  }

  /** `conduit_lengths`: `pore.diameter` is read first; centroid mode falls
      back to pore mode when a centroid array is missing or holds a NaN; pore
      mode clamps the remainders in place and splits them by the diameter
      fraction, or evenly when the fraction cannot be computed; any other
      mode leaves the half-lengths unassigned. */
  method ConduitLengths(net: Network, throats: Option<seq<int>>, mode: string,
                        dist: (Vec3, Vec3) -> real) returns (r: Result<seq<Conduit>>)
    requires Valid(net) && (PoreModeRuns(net, mode) ==> NonZeroSums(net))
    ensures r == ConduitLengthsOf(net, throats, mode, dist)
  {
    var n := |net.conns|;
    var ts := if throats.None? then AllThroats(n) else throats.value;
    if net.poreDiameter.None? {
      return Err(KeyError);
    }
    var m := mode;
    var plen1: seq<real>, plen2: seq<real>;
    var bound := false;
    ghost var expected: seq<Conduit>;
    if m == "centroid" {
      if net.poreCentroid.None? || net.throatCentroid.None? {
        m := "pore";
      } else if !CentroidsUsable(net) {
        m := "pore";
      } else {
        var rows := CentroidRows(net, dist);
        plen1 := seq(n, t requires 0 <= t < n => rows[t].pore1);
        plen2 := seq(n, t requires 0 <= t < n => rows[t].pore2);
        bound := true;
        expected := rows;
      }
    }
    if m == "pore" {
      plen1, plen2 := PoreHalves(net, dist);
      bound := true;
      expected := PoreRows(net, dist);
    }
    if !bound {
      return Err(UnboundLocal);
    }
    var rows := seq(n, t requires 0 <= t < n => Conduit(plen1[t], net.throatLength[t], plen2[t]));
    assert rows == expected;
    r := Select(rows, ts);
  }

  /** The pore-mode block: distances less throat lengths, clamped in place,
      then split by the diameter fractions or evenly. */
  method PoreHalves(net: Network, dist: (Vec3, Vec3) -> real) returns (plen1: seq<real>, plen2: seq<real>)
    requires Valid(net) && NonZeroSums(net)
    ensures |plen1| == |net.conns| && |plen2| == |net.conns|
    ensures forall t :: 0 <= t < |net.conns| ==>
              PoreRows(net, dist)[t] == Conduit(plen1[t], net.throatLength[t], plen2[t])
  {
    var n := |net.conns|;
    var gaps := Gaps(net, dist);
    var lengths := new real[n];
    for t := 0 to n
      invariant forall j :: 0 <= j < t ==> lengths[j] == gaps[j]
    {
      lengths[t] := dist(net.coords[net.conns[t].0], net.coords[net.conns[t].1]) - net.throatLength[t];
    }
    for t := 0 to n
      invariant forall j :: 0 <= j < t ==> lengths[j] == Clamp(gaps[j])
      invariant forall j :: t <= j < n ==> lengths[j] == gaps[j]
    {
      if lengths[t] < 0.0 {
        lengths[t] := LengthFloor;
      }
    }
    var rest := lengths[..];
    assert rest == Clamped(gaps);
    var fractions := Fractions(net);
    var f := if fractions.Some? then fractions.value else seq(n, _ => 0.5);
    assert forall t :: 0 <= t < n ==> f[t] == FractionOf(net, t);
    plen1 := seq(n, t requires 0 <= t < n => rest[t] * f[t]);
    plen2 := seq(n, t requires 0 <= t < n => rest[t] * (1.0 - f[t]));
  }

  // ---------------------------------------------------------------------
  // Properties

  /** In pore mode the two pore parts add up to the clamped remainder. */
  lemma PorePartsAdd(net: Network, dist: (Vec3, Vec3) -> real, t: nat)
    requires Valid(net) && NonZeroSums(net) && t < |net.conns|
    ensures PoreRows(net, dist)[t].pore1 + PoreRows(net, dist)[t].pore2 == Clamped(Gaps(net, dist))[t]
    ensures Clamped(Gaps(net, dist))[t] >= 0.0
  {
    var rest := Clamped(Gaps(net, dist))[t];
    var f := FractionOf(net, t);
    assert rest * f + rest * (1.0 - f) == rest;
  }

  /** When the fractions cannot be computed the remainder is split evenly. */
  lemma FallbackSplitsEvenly(net: Network, dist: (Vec3, Vec3) -> real, t: nat)
    requires Valid(net) && NonZeroSums(net) && t < |net.conns|
    requires !DiametersIndexable(net)
    ensures PoreRows(net, dist)[t].pore1 == PoreRows(net, dist)[t].pore2
    ensures PoreRows(net, dist)[t].pore1 == Clamped(Gaps(net, dist))[t] / 2.0
  {
  }

  /** When the pores are at least a throat length apart, the three parts
      exactly cover the pore-to-pore distance. */
  lemma PoreConduitSpansDistance(net: Network, dist: (Vec3, Vec3) -> real, t: nat)
    requires Valid(net) && NonZeroSums(net) && t < |net.conns|
    requires dist(net.coords[net.conns[t].0], net.coords[net.conns[t].1]) >= net.throatLength[t]
    ensures PoreRows(net, dist)[t].pore1 + PoreRows(net, dist)[t].throat + PoreRows(net, dist)[t].pore2
            == dist(net.coords[net.conns[t].0], net.coords[net.conns[t].1])
  {
    PorePartsAdd(net, dist, t);
  }

  /** With non-negative diameters both pore parts are non-negative and each
      is at most the remainder. */
  lemma PorePartsBounded(net: Network, dist: (Vec3, Vec3) -> real, t: nat)
    requires Valid(net) && NonZeroSums(net) && t < |net.conns|
    requires net.poreDiameter.Some? && forall i :: 0 <= i < |net.poreDiameter.value| ==> net.poreDiameter.value[i] >= 0.0
    ensures 0.0 <= PoreRows(net, dist)[t].pore1 <= Clamped(Gaps(net, dist))[t]
    ensures 0.0 <= PoreRows(net, dist)[t].pore2 <= Clamped(Gaps(net, dist))[t]
  {
    var rest := Clamped(Gaps(net, dist))[t];
    var f := FractionOf(net, t);
    if DiametersIndexable(net) {
      var pd := net.poreDiameter.value;
      var a, b := pd[net.conns[t].0], pd[net.conns[t].1];
      assert f == a / (a + b);
      FractionInUnit(a, b);
    }
    assert 0.0 <= f <= 1.0;
    ScaleBounded(rest, f);
    ScaleBounded(rest, 1.0 - f);
  }

  lemma FractionInUnit(a: real, b: real)
    requires a >= 0.0 && b >= 0.0 && a + b != 0.0
    ensures 0.0 <= a / (a + b) <= 1.0
  {
    assert (a / (a + b)) * (a + b) == a;
  }

  lemma ScaleBounded(x: real, f: real)
    requires x >= 0.0 && 0.0 <= f <= 1.0
    ensures 0.0 <= x * f <= x
  {
    assert x * f <= x * 1.0;
  }

  /** Centroid mode without usable centroids gives exactly the pore-mode result. */
  lemma CentroidFallsBackToPore(net: Network, throats: Option<seq<int>>, dist: (Vec3, Vec3) -> real)
    requires Valid(net) && NonZeroSums(net)
    requires !CentroidsUsable(net)
    ensures ConduitLengthsOf(net, throats, "centroid", dist) == ConduitLengthsOf(net, throats, "pore", dist)
  {
  }

  /** Row `k` of the result belongs to throat `throats[k]`, and its middle
      column is that throat's length. */
  lemma RowsFollowThroats(net: Network, throats: Option<seq<int>>, mode: string, dist: (Vec3, Vec3) -> real)
    requires Valid(net) && (PoreModeRuns(net, mode) ==> NonZeroSums(net))
    requires ConduitLengthsOf(net, throats, mode, dist).Ok?
    ensures |ConduitLengthsOf(net, throats, mode, dist).value| == |Requested(net, throats)|
    ensures forall k :: 0 <= k < |Requested(net, throats)| ==>
              Resolve(|net.conns|, Requested(net, throats)[k]).Some? &&
              ConduitLengthsOf(net, throats, mode, dist).value[k].throat
                == net.throatLength[Resolve(|net.conns|, Requested(net, throats)[k]).value]
  {
    if mode == "centroid" && CentroidsUsable(net) {
      assert |CentroidRows(net, dist)| == |net.conns|;
    } else {
      assert |PoreRows(net, dist)| == |net.conns|;
    }
  }

  /** Selecting every index in order gives the rows themselves. */
  lemma SelectEvery(rows: seq<Conduit>)
    ensures Select(rows, AllThroats(|rows|)) == Ok(rows)
  {
    var ts := AllThroats(|rows|);
    assert forall k :: 0 <= k < |ts| ==> Resolve(|rows|, ts[k]) == Some(k);
    var r := Select(rows, ts);
    assert r.Ok?;
    assert r.value == rows;
  }

  /** Without `throats` every throat is reported, in order. */
  lemma DefaultIsEveryThroat(net: Network, mode: string, dist: (Vec3, Vec3) -> real)
    requires Valid(net) && (PoreModeRuns(net, mode) ==> NonZeroSums(net))
    requires net.poreDiameter.Some? && (mode == "pore" || mode == "centroid")
    ensures ConduitLengthsOf(net, None, mode, dist)
            == Ok(if mode == "centroid" && CentroidsUsable(net) then CentroidRows(net, dist) else PoreRows(net, dist))
  {
    if mode == "centroid" && CentroidsUsable(net) {
      SelectEvery(CentroidRows(net, dist));
    } else {
      SelectEvery(PoreRows(net, dist));
    }
  }

  /** A mode other than `'pore'` and `'centroid'` raises. */
  lemma OtherModeRaises(net: Network, throats: Option<seq<int>>, mode: string, dist: (Vec3, Vec3) -> real)
    requires Valid(net)
    requires net.poreDiameter.Some? && mode != "pore" && mode != "centroid"
    ensures ConduitLengthsOf(net, throats, mode, dist) == Err(UnboundLocal)
  {
  }

  // ---------------------------------------------------------------------
  // A missing `pore.diameter`

  /** As written, `pore.diameter` is read before the `try`, so a network
      without it raises in every mode instead of being split evenly. */
  lemma MissingDiameterRaises(net: Network, throats: Option<seq<int>>, mode: string, dist: (Vec3, Vec3) -> real)
    requires Valid(net)
    requires net.poreDiameter.None?
    ensures ConduitLengthsOf(net, throats, mode, dist) == Err(KeyError)
  {
  }

  /** The computation with the diameter read inside the `try`: a missing
      diameter array is one more way for the fractions to fail. */
  function IntendedConduitLengths(net: Network, throats: Option<seq<int>>, mode: string,
                                  dist: (Vec3, Vec3) -> real): Result<seq<Conduit>>
    requires Valid(net) && (PoreModeRuns(net, mode) ==> NonZeroSums(net))
  {
    if mode == "centroid" && CentroidsUsable(net) then
      Select(CentroidRows(net, dist), Requested(net, throats))
    else if mode == "centroid" || mode == "pore" then
      Select(PoreRows(net, dist), Requested(net, throats))
    else Err(UnboundLocal)
  }

  /** Without `pore.diameter` the corrected computation splits every
      remainder evenly, and with it it agrees with the code as written. */
  lemma IntendedSplitsEvenlyWithoutDiameter(net: Network, mode: string, dist: (Vec3, Vec3) -> real)
    requires Valid(net)
    requires net.poreDiameter.None?
    requires PoreModeRuns(net, mode)
    ensures IntendedConduitLengths(net, None, mode, dist).Ok?
    ensures forall t :: 0 <= t < |net.conns| ==>
              IntendedConduitLengths(net, None, mode, dist).value[t].pore1
                == IntendedConduitLengths(net, None, mode, dist).value[t].pore2
  {
    var rows := PoreRows(net, dist);
    SelectEvery(rows);
    forall t | 0 <= t < |net.conns| ensures rows[t].pore1 == rows[t].pore2 {
      FallbackSplitsEvenly(net, dist, t);
    }
  }

  lemma IntendedAgreesWithDiameter(net: Network, throats: Option<seq<int>>, mode: string, dist: (Vec3, Vec3) -> real)
    requires Valid(net) && (PoreModeRuns(net, mode) ==> NonZeroSums(net))
    requires net.poreDiameter.Some?
    ensures IntendedConduitLengths(net, throats, mode, dist) == ConduitLengthsOf(net, throats, mode, dist)
  {
  }
}
