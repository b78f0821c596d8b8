/** The `voronoi` pore-centroid model: each geometry pore's centroid is the
    column-wise mean of the non-zero centroids of the throats around it that
    the same geometry owns.

    The network and geometry calls it makes are given as tables:
    `map_pores` as a sequence of `Link`s, `find_neighbor_throats` as an
    adjacency list indexed by network pore, and `map_throats` as a partial
    map from network throat id to geometry-local throat id. */
module PoreCentroid {
  import opened Vectors

  /** One entry of a pore mapping: the geometry-local pore `source` and the
      network pore `target` it stands for. */
  datatype Link = Link(source: nat, target: nat)

  /** Every throat the geometry owns has a row in the geometry's centroid array. */
  predicate MapsInto(throatMap: map<nat, nat>, rows: nat)
  {
    forall t :: t in throatMap ==> throatMap[t] < rows
  }

  /** `map_throats(target=geometry, throats=ts)['target']`: the local ids of
      the throats of `ts` that the geometry owns, in the order of `ts`;
      throats it does not own are dropped without an error. */
  function MapThroats(ts: seq<nat>, throatMap: map<nat, nat>): (r: seq<nat>)
    ensures |r| <= |ts|
  {
    if ts == [] then []
    else (if ts[0] in throatMap then [throatMap[ts[0]]] else []) + MapThroats(ts[1..], throatMap)
  }

  /** Definition of NumPy's `verts[idx]`: the rows at the given indices.  Its
      `ensures` only spells out the comprehension, for use by callers. */
  function Gather(verts: seq<Vec3>, idx: seq<nat>): (r: seq<Vec3>)
    requires forall k :: 0 <= k < |idx| ==> idx[k] < |verts|
    ensures |r| == |idx| && forall k :: 0 <= k < |idx| ==> r[k] == verts[idx[k]]
  {
    seq(|idx|, k requires 0 <= k < |idx| => verts[idx[k]])
  }

  /** `rows[~all(rows == 0, axis=1)]`: the rows that are not the zero vector. */
  function NonZero(rows: seq<Vec3>): (r: seq<Vec3>)
    ensures |r| <= |rows|
    ensures forall k :: 0 <= k < |r| ==> r[k] != Zero
  {
    if rows == [] then []
    else (if rows[0] != Zero then [rows[0]] else []) + NonZero(rows[1..])
  }

  /** The centroid rows that take part in the mean for a pore with incident throats `ts`. */
  function Contributions(ts: seq<nat>, throatMap: map<nat, nat>, verts: seq<Vec3>): seq<Vec3>
    requires MapsInto(throatMap, |verts|)
  {
    MapThroatsInto(ts, throatMap, |verts|);
    NonZero(Gather(verts, MapThroats(ts, throatMap)))
  }

  /** Throat `t` adds a row to the mean: the geometry owns it and its centroid is not zero. */
  predicate Contributes(t: nat, throatMap: map<nat, nat>, verts: seq<Vec3>)
    requires MapsInto(throatMap, |verts|)
  {
    t in throatMap && verts[throatMap[t]] != Zero
  }

  /** The value written for one pore: the mean of the contributing rows, or
      the zero vector the output starts with when there are none. */
  function PoreCentroid(ts: seq<nat>, throatMap: map<nat, nat>, verts: seq<Vec3>): Vec3
    requires MapsInto(throatMap, |verts|)
  {
    var rows := Contributions(ts, throatMap, verts);
    if |rows| > 0 then Mean(rows) else Zero
  }

  /** `voronoi(network, geometry)`: one row per geometry pore, zero-filled,
      then for each mapped pore the mean of its contributing throat centroids. */
  method Voronoi(numPores: nat, poreMap: seq<Link>, neighbors: seq<seq<nat>>,
                 throatMap: map<nat, nat>, verts: seq<Vec3>)
    returns (value: seq<Vec3>)
    requires forall i :: 0 <= i < |poreMap| ==>
               poreMap[i].source < numPores && poreMap[i].target < |neighbors|
    requires forall i, j :: 0 <= i < j < |poreMap| ==> poreMap[i].source != poreMap[j].source
    requires MapsInto(throatMap, |verts|)
    ensures |value| == numPores
    ensures forall i :: 0 <= i < |poreMap| ==>
              value[poreMap[i].source] == PoreCentroid(neighbors[poreMap[i].target], throatMap, verts)
    ensures forall p :: 0 <= p < numPores && (forall i :: 0 <= i < |poreMap| ==> poreMap[i].source != p) ==>
              value[p] == Zero
  {
    var a := new Vec3[numPores](_ => Zero);
    for i := 0 to |poreMap|
      invariant forall k :: 0 <= k < i ==>
                  a[poreMap[k].source] == PoreCentroid(neighbors[poreMap[k].target], throatMap, verts)
      invariant forall p :: 0 <= p < numPores && (forall k :: 0 <= k < i ==> poreMap[k].source != p) ==>
                  a[p] == Zero
    {
      var geomPore := poreMap[i].source;
      var netThroats := neighbors[poreMap[i].target];
      MapThroatsInto(netThroats, throatMap, |verts|);
      var geomThroats := MapThroats(netThroats, throatMap);
      var rows := NonZero(Gather(verts, geomThroats));
      if |rows| > 0 {
        a[geomPore] := Mean(rows);
      }
    }
    value := a[..];
  }

  // ---------------------------------------------------------------------
  // Properties of the per-pore value

  lemma {:induction false} MapThroatsInto(ts: seq<nat>, throatMap: map<nat, nat>, rows: nat)
    requires MapsInto(throatMap, rows)
    ensures forall k :: 0 <= k < |MapThroats(ts, throatMap)| ==> MapThroats(ts, throatMap)[k] < rows
    decreases |ts|
  {
    if ts != [] {
      MapThroatsInto(ts[1..], throatMap, rows);
    }
  }

  lemma {:induction false} MapThroatsAppend(a: seq<nat>, b: seq<nat>, throatMap: map<nat, nat>)
    ensures MapThroats(a + b, throatMap) == MapThroats(a, throatMap) + MapThroats(b, throatMap)
    decreases |a|
  {
    if a == [] {
      assert a + b == b;
    } else {
      assert (a + b)[1..] == a[1..] + b;
      MapThroatsAppend(a[1..], b, throatMap);
    }
  }

  lemma {:induction false} NonZeroAppend(a: seq<Vec3>, b: seq<Vec3>)
    ensures NonZero(a + b) == NonZero(a) + NonZero(b)
    decreases |a|
  {
    if a == [] {
      assert a + b == b;
    } else {
      assert (a + b)[1..] == a[1..] + b;
      NonZeroAppend(a[1..], b);
    }
  }

  /** The contributions of a concatenation are the concatenated contributions. */
  lemma ContributionsAppend(a: seq<nat>, b: seq<nat>, throatMap: map<nat, nat>, verts: seq<Vec3>)
    requires MapsInto(throatMap, |verts|)
    ensures Contributions(a + b, throatMap, verts)
            == Contributions(a, throatMap, verts) + Contributions(b, throatMap, verts)
  {
    MapThroatsAppend(a, b, throatMap);
    MapThroatsInto(a, throatMap, |verts|);
    MapThroatsInto(b, throatMap, |verts|);
    var ia, ib := MapThroats(a, throatMap), MapThroats(b, throatMap);
    assert Gather(verts, ia + ib) == Gather(verts, ia) + Gather(verts, ib);
    NonZeroAppend(Gather(verts, ia), Gather(verts, ib));
  }

  /** A single throat contributes its centroid row exactly when it is owned
      by the geometry and its row is not zero. */
  lemma ContributionsOne(t: nat, throatMap: map<nat, nat>, verts: seq<Vec3>)
    requires MapsInto(throatMap, |verts|)
    ensures Contributions([t], throatMap, verts)
            == if Contributes(t, throatMap, verts) then [verts[throatMap[t]]] else []
  {
    assert [t][1..] == [];
    if t in throatMap {
      assert NonZero([verts[throatMap[t]]])[..] == (if verts[throatMap[t]] != Zero then [verts[throatMap[t]]] else []) by {
        assert [verts[throatMap[t]]][1..] == [];
      }
    }
  }

  /** Throats that the geometry does not own, and throats whose centroid
      row is all zero, change nothing: wherever they stand among the
      incident throats, the pore's value is the same without them. */
  lemma NonContributingIgnored(a: seq<nat>, extra: seq<nat>, b: seq<nat>,
                               throatMap: map<nat, nat>, verts: seq<Vec3>)
    requires MapsInto(throatMap, |verts|)
    requires forall k :: 0 <= k < |extra| ==> !Contributes(extra[k], throatMap, verts)
    ensures PoreCentroid(a + extra + b, throatMap, verts) == PoreCentroid(a + b, throatMap, verts)
  {
    NoContributions(extra, throatMap, verts);
    ContributionsAppend(a + extra, b, throatMap, verts);
    ContributionsAppend(a, extra, throatMap, verts);
    ContributionsAppend(a, b, throatMap, verts);
    assert Contributions(a, throatMap, verts) + [] == Contributions(a, throatMap, verts);
  }

  /** With no owned, non-zero incident centroid, nothing contributes. */
  lemma {:induction false} NoContributions(ts: seq<nat>, throatMap: map<nat, nat>, verts: seq<Vec3>)
    requires MapsInto(throatMap, |verts|)
    requires forall k :: 0 <= k < |ts| ==> !Contributes(ts[k], throatMap, verts)
    ensures Contributions(ts, throatMap, verts) == []
    decreases |ts|
  {
    if ts != [] {
      assert ts == [ts[0]] + ts[1..];
      ContributionsAppend([ts[0]], ts[1..], throatMap, verts);
      ContributionsOne(ts[0], throatMap, verts);
      NoContributions(ts[1..], throatMap, verts);
    }
  }

  /** A pore with no incident throat, or whose owned incident throats all
      have zero centroids, keeps the zero vector. */
  lemma ZeroWithoutContributions(ts: seq<nat>, throatMap: map<nat, nat>, verts: seq<Vec3>)
    requires MapsInto(throatMap, |verts|)
    requires forall k :: 0 <= k < |ts| ==> ts[k] !in throatMap || verts[throatMap[ts[k]]] == Zero
    ensures PoreCentroid(ts, throatMap, verts) == Zero
  {
    NoContributions(ts, throatMap, verts);
  }

  /** With exactly one contributing centroid `v`, the pore's value is `v`. */
  lemma SingleContribution(ts: seq<nat>, throatMap: map<nat, nat>, verts: seq<Vec3>, v: Vec3)
    requires MapsInto(throatMap, |verts|)
    requires Contributions(ts, throatMap, verts) == [v]
    ensures PoreCentroid(ts, throatMap, verts) == v
  {
    MeanSingleton(v);
  }

  /** Every contributing row is the centroid of an incident, owned throat
      whose row is not zero, and each such throat contributes one. */
  lemma {:induction false} ContributionsFrom(ts: seq<nat>, throatMap: map<nat, nat>, verts: seq<Vec3>)
    requires MapsInto(throatMap, |verts|)
    ensures forall r :: r in Contributions(ts, throatMap, verts) <==>
              exists k :: 0 <= k < |ts| && Contributes(ts[k], throatMap, verts) && r == verts[throatMap[ts[k]]]
    decreases |ts|
  {
    if ts != [] {
      assert ts == [ts[0]] + ts[1..];
      ContributionsAppend([ts[0]], ts[1..], throatMap, verts);
      ContributionsOne(ts[0], throatMap, verts);
      ContributionsFrom(ts[1..], throatMap, verts);
      forall r | exists k :: 0 <= k < |ts| && Contributes(ts[k], throatMap, verts) && r == verts[throatMap[ts[k]]]
        ensures r in Contributions(ts, throatMap, verts)
      {
        var k :| 0 <= k < |ts| && Contributes(ts[k], throatMap, verts) && r == verts[throatMap[ts[k]]];
        if k > 0 {
          assert ts[1..][k - 1] == ts[k];
        }
      }
    }
  }

  /** Each component of a pore's value lies between the minimum and the
      maximum of that component over the contributing throat centroids. */
  lemma CentroidBounds(ts: seq<nat>, throatMap: map<nat, nat>, verts: seq<Vec3>, c: nat, lo: real, hi: real)
    requires MapsInto(throatMap, |verts|) && c < 3
    requires exists k :: 0 <= k < |ts| && Contributes(ts[k], throatMap, verts)
    requires forall k :: 0 <= k < |ts| && Contributes(ts[k], throatMap, verts) ==>
               lo <= Component(verts[throatMap[ts[k]]], c) <= hi
    ensures lo <= Component(PoreCentroid(ts, throatMap, verts), c) <= hi
  {
    ContributionsFrom(ts, throatMap, verts);
    var rows := Contributions(ts, throatMap, verts);
    var k :| 0 <= k < |ts| && Contributes(ts[k], throatMap, verts);
    assert verts[throatMap[ts[k]]] in rows;
    forall i | 0 <= i < |rows|
      ensures lo <= Component(rows[i], c) <= hi
    {
      assert rows[i] in rows;
    }
    MeanBounds(rows, c, lo, hi);
  }

  /** Permuting the incident throats permutes the contributing rows. */
  lemma {:induction false} ContributionsPermutation(ts: seq<nat>, us: seq<nat>, throatMap: map<nat, nat>, verts: seq<Vec3>)
    requires MapsInto(throatMap, |verts|)
    requires multiset(ts) == multiset(us)
    ensures multiset(Contributions(ts, throatMap, verts)) == multiset(Contributions(us, throatMap, verts))
    decreases |ts|
  {
    if ts == [] {
      assert |us| == |multiset(us)| == 0;
    } else {
      var t := ts[0];
      assert t in multiset(us);
      var k :| 0 <= k < |us| && us[k] == t;
      var us' := us[..k] + us[k + 1..];
      assert us == us[..k] + [t] + us[k + 1..];
      assert ts == [t] + ts[1..];
      assert multiset(ts[1..]) == multiset(ts) - multiset{t};
      assert multiset(us') == multiset(us) - multiset{t};
      ContributionsPermutation(ts[1..], us', throatMap, verts);
      ContributionsAppend([t], ts[1..], throatMap, verts);
      ContributionsAppend(us[..k] + [t], us[k + 1..], throatMap, verts);
      ContributionsAppend(us[..k], [t], throatMap, verts);
      ContributionsAppend(us[..k], us[k + 1..], throatMap, verts);
    }
  }

  /** The order of the incident throats does not change a pore's value. */
  lemma CentroidPermutation(ts: seq<nat>, us: seq<nat>, throatMap: map<nat, nat>, verts: seq<Vec3>)
    requires MapsInto(throatMap, |verts|)
    requires multiset(ts) == multiset(us)
    ensures PoreCentroid(ts, throatMap, verts) == PoreCentroid(us, throatMap, verts)
  {
    ContributionsPermutation(ts, us, throatMap, verts);
    var r, s := Contributions(ts, throatMap, verts), Contributions(us, throatMap, verts);
    assert |r| == |multiset(r)| == |multiset(s)| == |s|;
    if |r| > 0 {
      MeanPermutation(r, s);
    }
  }
}
