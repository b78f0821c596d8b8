# OpenPNM utility helpers and geometric reducers, in Dafny

This project models two parts of OpenPNM, a pore-network modelling package in which a porous medium is a graph of pores joined by throats.

The first part is the general helpers in `openpnm/utils/misc.py`:

- `unique_list` drops repeated 1-, 2- or 3-D points and keeps first occurrences.
- `flat_list` flattens nested lists.
- `NestedDict` is a dictionary that stores a key `"a/b"` under a child dictionary `"a"`. It has `__setitem__`, `__missing__`, `unravel`, `keys(dicts, values)` and `to_dict`.
- `sanitize_dict` converts a nested dictionary to plain dicts.
- `SettingsDict` answers a missing key with `None`.
- `HealthDict` has a `health` property.
- `conduit_lengths` splits each throat's pore-to-pore distance into a first-pore part, the throat length and a second-pore part.

The second part is the `voronoi` pore-centroid model in `OpenPNM/Geometry/models/pore_centroid.py`. It sets each geometry pore's centroid to the mean of the non-zero centroids of the incident throats that the geometry owns.

Modules:

- `Wrappers`: `Option`, and `Result` over the Python exceptions the code raises.
- `Vectors`: 3-vectors, column sums and means.
- `Collections`: `unique_list` and `flat_list`.
- `NestedDicts`: the `NestedDict` class and `sanitize_dict`.
  - A dict is an insertion-ordered sequence of items.
  - A value is a `Node` (anything with `keys`) or a `Leaf`.
- `Settings`: `SettingsDict` and `HealthDict` as classes over a key order and a map.
- `Conduits`: `conduit_lengths`.
  - `dist` is a given distance function.
  - `KeyError` for a missing `pore.diameter`, `UnboundLocalError` for an unknown mode and `IndexError` for a bad `throats` index are `Err` results. The errors NumPy raises for arrays of inconsistent shape are excluded by `Conduits.Valid` (see Left out).
- `PoreCentroid`: `voronoi` over three given tables: the pore map, the neighbour-throat lists and the throat map.

Each imperative routine is a method whose contract ties its result to a specification function. Lemmas prove the properties of those functions.

Where the code and its evident intent differ, the model follows the code:

- The 0.5 fallback at `openpnm/utils/misc.py:397-398` evidently means a network without `pore.diameter` is split evenly. The code reads `pore.diameter` before the `try` and raises `KeyError` (see Findings).
- The clamp at `openpnm/utils/misc.py:390` replaces only negative remainders with `2e-9`, so a zero remainder stays zero (`Conduits.Clamp`). The lines that would keep pore parts away from zero, after the comment at line 394, are commented out and are not modelled.

## Model

| member | source | states |
|---|---|---|
| Collections.Rectangular | openpnm/utils/misc.py:236 | reference definition of the input `shape(input_list)[1]` accepts: every point has as many coordinates as the first (ragged input is `UniqueList`'s `IndexError`) |
| Collections.Dim | openpnm/utils/misc.py:236 | reference definition of `dim`, the coordinate count of the first point (zero for empty input, where line 235 skips the loop) |
| Collections.Same | openpnm/utils/misc.py:239-247 | reference definition of the inner test: two points match exactly when `dim` is 1, 2 or 3 and their first `dim` coordinates agree (`SameByCoordinates` spells out the per-dimension comparisons) |
| Collections.Duplicated | openpnm/utils/misc.py:238-248 | reference definition of `match` after the inner loop: some kept point matches (`KeptMatchesPrefix` relates it to the earlier inputs) |
| Collections.UniqueList | openpnm/utils/misc.py:230-251 | points of different lengths raise `IndexError` at `shape(input_list)[1]`, and only they do; otherwise the output is the first-occurrence filter of the input; every output point is an input point; no two output points agree on their first `dim` coordinates; every input point agrees with some output point (dim 1-3); with any other dim nothing matches and the output is the input; empty input gives empty output |
| Collections.FirstOccurrences | openpnm/utils/misc.py:234-251 | reference definition of the kept points in input order, never longer than the input |
| Collections.FirstOccurrencesFromInput | openpnm/utils/misc.py:248-249 | every kept point comes from the input |
| Collections.FirstOccurrencesCover | openpnm/utils/misc.py:236-249 | for 1 to 3 coordinates every input point is matched by a kept point |
| Collections.FirstOccurrencesDistinct | openpnm/utils/misc.py:238-249 | no two kept points match |
| Collections.KeptMatchesPrefix | openpnm/utils/misc.py:238-247 | testing against the kept points decides the same as testing against every earlier input point |
| Collections.FirstOccurrencesOtherDim | openpnm/utils/misc.py:239-247 | with a coordinate count other than 1, 2 or 3 every point is kept |
| Collections.SameByCoordinates | openpnm/utils/misc.py:239-247 | the per-dimension coordinate comparisons are equality of the first `dim` coordinates |
| Collections.FlatList | openpnm/utils/misc.py:254-264 | the result holds no list, and a non-list `x` gives `[x]` |
| Collections.FlatItems | openpnm/utils/misc.py:262 | the comprehension over a list's elements holds no list |
| Collections.FlatOfFlat | openpnm/utils/misc.py:261-262 | a list without nested lists flattens to itself |
| Collections.FlatListIdempotent | openpnm/utils/misc.py:260-264 | flattening a flattened list changes nothing |
| Collections.FlatListLength | openpnm/utils/misc.py:260-264 | the result has exactly one entry per non-list value in `x` |
| Collections.FlatItemsLength | openpnm/utils/misc.py:262 | the same count over the elements of a list |
| Collections.FlatItemsAppend | openpnm/utils/misc.py:262 | flattening distributes over concatenation |
| NestedDicts.KeyList | openpnm/utils/misc.py:146 | definition of `dict.keys()`: the keys of a dict in insertion order, one per item (the `ensures` spells out the comprehension) |
| NestedDicts.Get | openpnm/utils/misc.py:119-121 | a plain `dict` read: nothing is found exactly when the key is absent |
| NestedDicts.GetFirst | openpnm/utils/misc.py:119-121 | the value read is that of the first item holding the key |
| NestedDicts.Put | openpnm/utils/misc.py:123 | plain `dict.__setitem__` (no contract of its own: `PutFacts`, `PutItems` and `PutPrepend` state its properties) |
| NestedDicts.Pop | openpnm/utils/misc.py:131 | `dict.pop` (no contract of its own: `PopFacts` and `PopRemoves` state its properties) |
| NestedDicts.PutFacts | openpnm/utils/misc.py:123 | plain `dict.__setitem__`: the key's value is replaced in place or the key is appended, the key then reads the new value, and every other key reads as before |
| NestedDicts.PopFacts | openpnm/utils/misc.py:131 | `dict.pop` raises `KeyError` exactly when the key is absent, and otherwise gives the value the key reads |
| NestedDicts.PopRemoves | openpnm/utils/misc.py:131 | `dict.pop` takes out the first item holding the key and leaves the others in order |
| NestedDicts.GetPrepend | openpnm/utils/misc.py:119-121 | a read is unaffected by earlier items with other keys |
| NestedDicts.PutPrepend | openpnm/utils/misc.py:123 | a plain write is unaffected by earlier items with other keys |
| NestedDicts.Split | openpnm/utils/misc.py:117 | `split(delimiter, 1)`: no split exactly when the key has no delimiter; otherwise head + delimiter + rest is the key and the head has no delimiter |
| NestedDicts.Segments | openpnm/utils/misc.py:117-121 | the path a delimited key names starts with its head |
| NestedDicts.Blocked | openpnm/utils/misc.py:118-121 | reference definition of the error condition of `__setitem__`: some proper prefix of the key's path holds a non-dictionary value (`InsertFailsIffBlocked` ties it to `Insert`) |
| NestedDicts.Insert | openpnm/utils/misc.py:116-123 | after `d[key] = v`, following the key's path reaches `v`; the head key is appended only when absent; every other top-level key is unchanged; the only error is writing through a non-dictionary value |
| NestedDicts.InsertFailsIffBlocked | openpnm/utils/misc.py:118-121 | `__setitem__` raises exactly when some proper prefix of the path holds a non-dictionary value |
| NestedDicts.InsertFrame | openpnm/utils/misc.py:116-123 | every path unrelated to the key's path, including the siblings under each intermediate node, keeps its value |
| NestedDicts.InsertIdempotent | openpnm/utils/misc.py:116-123 | writing the same value twice is the same as writing it once |
| NestedDicts.InsertPrepend | openpnm/utils/misc.py:116-123 | a write is unaffected by earlier items whose keys it does not touch |
| NestedDicts.DistinctKeys | openpnm/utils/misc.py:108 | a dict's keys are distinct |
| NestedDicts.WellFormed | openpnm/utils/misc.py:108 | every dict in the tree has distinct keys |
| NestedDicts.PutItems | openpnm/utils/misc.py:123 | every item after `d[k] = v` is the new item or the item that was in that place |
| NestedDicts.PutKeepsWellFormed | openpnm/utils/misc.py:123 | a plain write keeps the keys distinct at every level |
| NestedDicts.GetWellFormed | openpnm/utils/misc.py:119-121 | the value read from a well-formed dict is well formed |
| NestedDicts.InsertKeepsWellFormed | openpnm/utils/misc.py:116-123 | `__setitem__` keeps the keys distinct at every level |
| NestedDicts.PopKeepsWellFormed | openpnm/utils/misc.py:131 | `pop` keeps the rest well formed and gives a well-formed value |
| NestedDicts.RemoveKeepsWellFormed | openpnm/utils/misc.py:131 | removing one item keeps a dict well formed |
| NestedDicts.Unravel | openpnm/utils/misc.py:129-131 | reference definition of `unravel` over a snapshot of the keys: each key is popped and assigned again, stopping at the first raise (properties in `UnravelSplit`, `UnravelIsAssignAll`, `UnravelKeepsWellFormed`) |
| NestedDicts.UnravelKeepsWellFormed | openpnm/utils/misc.py:129-131 | `unravel` leaves a well-formed dict well formed, whether or not it runs to the end |
| NestedDicts.UnravelSplit | openpnm/utils/misc.py:129-131 | part way through the loop, the state is the unprocessed items followed by the result of assigning the processed ones in turn |
| NestedDicts.AssignAll | openpnm/utils/misc.py:116-123 | reference definition of assigning items in order through `__setitem__`, stopping at the first raise (compared with `Unravel` in `UnravelIsAssignAll`, `HeadClashBreaksUnravel`, `WriteThroughLeafRaises`) |
| NestedDicts.UnravelIsAssignAll | openpnm/utils/misc.py:110-114 | building from a mapping equals assigning its items in order through `__setitem__` (and fails exactly when that fails), provided no key is the head of an earlier key; without that condition the equivalence is false (`HeadClashBreaksUnravel`) |
| NestedDicts.HeadClashBreaksUnravel | openpnm/utils/misc.py:110-131 | for `{"a/b": 1, "a": 2}` assigning in turn succeeds but `unravel` raises |
| NestedDicts.WriteThroughLeafRaises | openpnm/utils/misc.py:110-131 | for `{"a": 1, "a/b": 2}` construction raises, as assigning in turn does |
| NestedDicts.Selected | openpnm/utils/misc.py:149-154 | reference definition of the per-item test: a dictionary value is reported when `dicts` is set, any other value when `values` is set (`SelectKeysMembers` states the filter by it) |
| NestedDicts.SelectKeys | openpnm/utils/misc.py:145-155 | the filtered key list is never longer than the dict |
| NestedDicts.SelectKeysMembers | openpnm/utils/misc.py:147-154 | a key is reported exactly when its value is a dictionary and `dicts` is set, or a non-dictionary and `values` is set |
| NestedDicts.SelectAllKeys | openpnm/utils/misc.py:145-155 | with both flags every key is reported, in insertion order |
| NestedDicts.SelectNone | openpnm/utils/misc.py:145-155 | with neither flag no key is reported |
| NestedDicts.SelectKeysPartition | openpnm/utils/misc.py:148-154 | the dictionary keys and the value keys together are all the keys, each once |
| NestedDicts.PlainOf | openpnm/utils/misc.py:133-143 | reference definition of `to_dict` and `sanitize_dict` for one value: a dictionary becomes a plain dict of its converted items, any other value is kept (its partners are `PlainRoundTrip`, `PlainAtOf`, `PlainDepthOf`, `PlainGetOf`, `PlainKeysOf`) |
| NestedDicts.PlainItemsOf | openpnm/utils/misc.py:267-280 | reference definition of the conversion of one level: each key in order with its converted value (partners `PlainItemsRoundTrip`, `PlainMaxDepthOf`) |
| NestedDicts.PlainGetOf | openpnm/utils/misc.py:137-142 | looking up a key in the converted dict gives the converted value |
| NestedDicts.PlainAtOf | openpnm/utils/misc.py:133-143 | the converted tree has the same keys at every level and the same leaf values on every path |
| NestedDicts.PlainKeysOf | openpnm/utils/misc.py:136-142 | the top-level keys of the conversion are the dict's keys in order |
| NestedDicts.PlainRoundTrip | openpnm/utils/misc.py:133-143 | converting back recovers the nested dictionary |
| NestedDicts.PlainItemsRoundTrip | openpnm/utils/misc.py:267-280 | the round trip for the items of one level |
| NestedDicts.PlainDepthOf | openpnm/utils/misc.py:133-143 | the conversion keeps the nesting depth |
| NestedDicts.PlainMaxDepthOf | openpnm/utils/misc.py:267-280 | the depth for the items of one level |
| NestedDicts.SanitizeDict | openpnm/utils/misc.py:267-280 | the loop builds the plain conversion of every key in order, recursing into nested dictionaries |
| NestedDicts.NestedDict.constructor | openpnm/utils/misc.py:110-114 | the new dict holds what `Unravel` makes of the copied mapping, and `built` is false exactly when `unravel` raised, in which case Python returns no object; the dict is well formed |
| NestedDicts.NestedDict.RunUnravel | openpnm/utils/misc.py:129-131 | the loop over the snapshot of the keys ends in the state `Unravel` gives and reports whether it ran to the end, keeping the dict well formed; `built` is left as it was |
| NestedDicts.NestedDict.SetItem | openpnm/utils/misc.py:116-123 | the dict becomes the result of `Insert`, and stays well formed; on an error the items are unchanged; `built` is unchanged in either case |
| NestedDicts.NestedDict.GetItem | openpnm/utils/misc.py:125-127 | a present key gives its value and changes nothing; a missing key stores an empty dictionary at its path and returns it; a missing key holding the delimiter recurses without end; `built` is unchanged |
| NestedDicts.NestedDict.GetItemCorrected | openpnm/utils/misc.py:125-127 | `__missing__` returning the dictionary it stored: the result is what is now found at the key's path; `built` is unchanged |
| NestedDicts.MissingDelimitedKeyRecurses | openpnm/utils/misc.py:125-127 | after `__missing__` stores a delimited key, the exact key is still absent and storing it again changes nothing, so each re-entry sees the same state |
| NestedDicts.NestedDict.Keys | openpnm/utils/misc.py:145-155 | the loop returns the filtered keys: all keys in order with both flags, none with neither, and exactly the keys of the selected kinds |
| NestedDicts.NestedDict.ToDict | openpnm/utils/misc.py:133-143 | the result is the plain conversion of the dict |
| Settings.SettingsDict.constructor | openpnm/utils/misc.py:63-66 | `SettingsDict(*args, **kwargs)` holds the given pairs assigned in turn: each key where it first appears, with the value of its last pair |
| Settings.KeyOrder | openpnm/utils/misc.py:66 | reference definition of the key order `dict(pairs)` gives |
| Settings.TableOf | openpnm/utils/misc.py:66 | reference definition of the values `dict(pairs)` gives |
| Settings.KeyOrderMembers | openpnm/utils/misc.py:66 | the keys listed are exactly the keys stored, which are exactly the keys of the pairs |
| Settings.TableOfLast | openpnm/utils/misc.py:66 | each key holds the value of its last pair |
| Settings.KeyOrderDistinct | openpnm/utils/misc.py:66 | with no key repeated the keys keep the order of the pairs |
| Settings.SettingsDict.Set | openpnm/utils/misc.py:104 | assignment replaces the value or appends the key, keeping the key order duplicate-free and in step with the map |
| Settings.SettingsDict.GetItem | openpnm/utils/misc.py:103-105 | a present key gives its value and changes nothing; a missing key gives `None` and is inserted last with `None` |
| Settings.Healthy | openpnm/utils/misc.py:183 | reference definition of a healthy value: `value == []` holds exactly for the empty list (`HealthDict.Health` states the flag by it) |
| Settings.HealthDict.constructor | openpnm/utils/misc.py:177-178 | the dict holds the given entries in the given order |
| Settings.HealthDict.Health | openpnm/utils/misc.py:180-187 | the loop's flag is true exactly when every value is an empty list |
| Conduits.Requested | openpnm/utils/misc.py:366-367 | reference definition of the throat list: the given one, or every throat when `throats` is `None` (`DefaultIsEveryThroat`, `RowsFollowThroats`) |
| Conduits.Clamp | openpnm/utils/misc.py:390 | a clamped remainder is non-negative; a negative one becomes `2e-9`; zero and positive ones are unchanged |
| Conduits.Clamped | openpnm/utils/misc.py:390 | `lengths[lengths < 0.0] = 2e-9` over the whole array: one clamped remainder per throat, each by `Clamp` |
| Conduits.Gaps | openpnm/utils/misc.py:386-389 | one pore-to-pore distance minus throat length per throat |
| Conduits.Fractions | openpnm/utils/misc.py:392-398 | the diameter fractions exist exactly when every needed diameter index exists, with one fraction per throat |
| Conduits.FractionOf | openpnm/utils/misc.py:393-398 | reference definition of the multiplier of one throat: its diameter fraction, or 0.5 when the fractions raise (`PorePartsAdd`, `FallbackSplitsEvenly`, `PorePartsBounded`) |
| Conduits.PoreRows | openpnm/utils/misc.py:384-400 | one pore-mode conduit per throat |
| Conduits.CentroidsUsable | openpnm/utils/misc.py:372-383 | reference definition of when centroid mode computes its own rows: both centroid arrays exist (else `KeyError` falls back) and neither holds a NaN (else line 376 falls back) (`CentroidFallsBackToPore` states the fallback) |
| Conduits.CentroidRows | openpnm/utils/misc.py:377-381 | one centroid-mode conduit per throat |
| Conduits.Resolve | openpnm/utils/misc.py:402 | a NumPy index is valid exactly in `-n .. n-1`, and a negative one counts from the end |
| Conduits.Select | openpnm/utils/misc.py:402 | `[throats]` raises `IndexError` exactly when some index is invalid; otherwise row `k` is the row `throats[k]` names |
| Conduits.AllThroats | openpnm/utils/misc.py:366-367 | definition of `network.throats()`: the default throat list is `0 .. n-1` (the `ensures` spells out the comprehension) |
| Conduits.PoreModeRuns | openpnm/utils/misc.py:371-384 | the pore-mode block, and with it the diameter division, runs |
| Conduits.ConduitLengthsOf | openpnm/utils/misc.py:359-402 | reference definition of `conduit_lengths`, including each error (properties in the lemmas below) |
| Conduits.ConduitLengths | openpnm/utils/misc.py:359-402 | the method returns exactly `ConduitLengthsOf`, including each error; non-zero diameter sums are required only when the pore-mode division runs |
| Conduits.PoreHalves | openpnm/utils/misc.py:384-400 | the in-place clamp loop and the split produce the pore-mode rows |
| Conduits.PorePartsAdd | openpnm/utils/misc.py:388-400 | the two pore parts add up to the clamped remainder, which is non-negative |
| Conduits.FallbackSplitsEvenly | openpnm/utils/misc.py:397-400 | when the fractions fail, both pore parts are half the remainder |
| Conduits.PoreConduitSpansDistance | openpnm/utils/misc.py:388-402 | when the pores are at least a throat length apart, the three parts sum to the pore-to-pore distance |
| Conduits.PorePartsBounded | openpnm/utils/misc.py:393-400 | with non-negative diameters each pore part lies between zero and the remainder |
| Conduits.CentroidFallsBackToPore | openpnm/utils/misc.py:371-383 | centroid mode with a missing or NaN-holding centroid array gives exactly the pore-mode result |
| Conduits.RowsFollowThroats | openpnm/utils/misc.py:402 | the result has one row per requested throat, and its middle column is that throat's length |
| Conduits.DefaultIsEveryThroat | openpnm/utils/misc.py:366-367 | without `throats` every throat's row is returned, in order |
| Conduits.OtherModeRaises | openpnm/utils/misc.py:371-402 | a mode other than `'pore'` and `'centroid'` leaves the half-lengths unbound and raises |
| Conduits.MissingDiameterRaises | openpnm/utils/misc.py:369 | without `pore.diameter` every mode raises `KeyError` |
| Conduits.IntendedConduitLengths | openpnm/utils/misc.py:369-400 | reference definition of the corrected computation, with `pore.diameter` read inside the `try` |
| Conduits.IntendedSplitsEvenlyWithoutDiameter | openpnm/utils/misc.py:392-400 | with the diameter read inside the `try`, a network without diameters splits every remainder evenly |
| Conduits.IntendedAgreesWithDiameter | openpnm/utils/misc.py:369-400 | with diameters present the corrected computation equals the code as written |
| Vectors.Sum | OpenPNM/Geometry/models/pore_centroid.py:29 | reference definition of the column sum (properties in `SumAppend`, `SumPermutation`, `SumBounds`) |
| Vectors.Mean | OpenPNM/Geometry/models/pore_centroid.py:29 | `mean(verts, axis=0)`: the column sum divided by the row count (properties in `MeanPermutation`, `MeanSingleton`, `MeanBounds`) |
| Vectors.SumAppend | OpenPNM/Geometry/models/pore_centroid.py:29 | the column sum of a concatenation is the sum of the sums |
| Vectors.SumPermutation | OpenPNM/Geometry/models/pore_centroid.py:29 | the column sum does not depend on row order |
| Vectors.MeanPermutation | OpenPNM/Geometry/models/pore_centroid.py:29 | the column mean does not depend on row order |
| Vectors.MeanSingleton | OpenPNM/Geometry/models/pore_centroid.py:29 | the mean of one row is that row |
| Vectors.SumBounds | OpenPNM/Geometry/models/pore_centroid.py:29 | component bounds on the rows scale to bounds on the sum |
| Vectors.MeanBounds | OpenPNM/Geometry/models/pore_centroid.py:29 | each component of the mean lies between any bounds of that component over the rows |
| PoreCentroid.MapThroats | OpenPNM/Geometry/models/pore_centroid.py:22-24 | the throats the geometry does not own are dropped, so the result is never longer |
| PoreCentroid.Gather | OpenPNM/Geometry/models/pore_centroid.py:25 | definition of the fancy indexing `verts[geom_throats]`: row `k` is the centroid of the `k`-th mapped throat (the `ensures` spells out the comprehension) |
| PoreCentroid.NonZero | OpenPNM/Geometry/models/pore_centroid.py:27 | no kept row is the zero vector |
| PoreCentroid.Contributions | OpenPNM/Geometry/models/pore_centroid.py:21-27 | reference definition of the rows one pore averages: owned incident throats, their centroids, zero rows dropped (`ContributionsFrom` states which rows these are) |
| PoreCentroid.PoreCentroid | OpenPNM/Geometry/models/pore_centroid.py:21-29 | reference definition of one pore's value: the mean of its contributions, or zero without any (`CentroidBounds`, `CentroidPermutation`, `SingleContribution`, `ZeroWithoutContributions`) |
| PoreCentroid.Voronoi | OpenPNM/Geometry/models/pore_centroid.py:10-31 | one row per geometry pore; each mapped pore gets the mean of its contributing centroids, or zero when there are none; every other row stays zero |
| PoreCentroid.MapThroatsInto | OpenPNM/Geometry/models/pore_centroid.py:22-25 | every mapped throat has a row in the centroid array |
| PoreCentroid.MapThroatsAppend | OpenPNM/Geometry/models/pore_centroid.py:22-24 | mapping distributes over concatenation |
| PoreCentroid.NonZeroAppend | OpenPNM/Geometry/models/pore_centroid.py:27 | the zero-row filter distributes over concatenation |
| PoreCentroid.ContributionsAppend | OpenPNM/Geometry/models/pore_centroid.py:21-27 | the contributing rows of concatenated throat lists are concatenated |
| PoreCentroid.ContributionsOne | OpenPNM/Geometry/models/pore_centroid.py:21-27 | a single throat contributes its row exactly when it is owned and its row is non-zero |
| PoreCentroid.NonContributingIgnored | OpenPNM/Geometry/models/pore_centroid.py:21-27 | unowned or zero-centroid incident throats do not change a pore's value |
| PoreCentroid.NoContributions | OpenPNM/Geometry/models/pore_centroid.py:21-27 | with no owned, non-zero neighbours nothing contributes |
| PoreCentroid.ZeroWithoutContributions | OpenPNM/Geometry/models/pore_centroid.py:27-29 | such a pore keeps the zero vector |
| PoreCentroid.SingleContribution | OpenPNM/Geometry/models/pore_centroid.py:28-29 | with exactly one contributing centroid `v` the pore's value is `v` |
| PoreCentroid.ContributionsFrom | OpenPNM/Geometry/models/pore_centroid.py:21-27 | a row contributes exactly when it belongs to an owned incident throat and is non-zero |
| PoreCentroid.CentroidBounds | OpenPNM/Geometry/models/pore_centroid.py:29 | each component of a pore's value lies between the bounds of that component over its contributing centroids |
| PoreCentroid.ContributionsPermutation | OpenPNM/Geometry/models/pore_centroid.py:21-27 | permuting the incident throats permutes the contributing rows |
| PoreCentroid.CentroidPermutation | OpenPNM/Geometry/models/pore_centroid.py:29 | permuting the incident throats does not change a pore's value |

## Left out

- Printing: `PrintableList`, `PrintableDict`, `NestedDict.__str__`. These only format text.
- `tic` and `toc`: global timer state and wall-clock I/O.
- `methods_to_table` and `models_to_table`: reflection and text formatting.
- Floating point: every quantity is an exact `real`.
  - `sqrt` and the Euclidean norm are the given function `dist`.
  - NaN is a tag on a centroid row.
  - Conduits.ConduitLengths requires non-zero diameter sums when the pore-mode block runs (`Conduits.PoreModeRuns`) and the division is reached. NumPy would give `inf` or NaN there, not raise.
- NestedDict children are values inside the parent, not separate objects. Aliasing between a child `NestedDict` and references held elsewhere is not modelled.
- A child that is a plain `dict` (not a `NestedDict`) would store a delimited key without splitting it. The model treats every value with `keys` as a splitting `NestedDict`. The whole tree also splits on the one `delimiter` of the top-level dict. In Python a child `NestedDict` built elsewhere with another delimiter, and stored as a value, splits the rest of the key on its own delimiter at `self[path[0]][path[1]] = value` (`openpnm/utils/misc.py:121`). Such mixed-delimiter trees are not modelled.
- NestedDicts.Insert: writing through a non-dictionary value raises `TypeError` in the model. In Python the exception depends on the value's type; for example a NumPy array raises `IndexError`.
- NestedDicts.NestedDict.constructor: the `delimiter` is a single character. A Python delimiter of several characters, and the empty delimiter, for which `split` raises `ValueError`, are not modelled. Keys are strings; other key types are not modelled. The constructor takes a well-formed mapping, as every Python mapping is.
- NestedDicts.NestedDict.ToDict: only `to_dict()` with no argument is modelled. An explicit `dct` at `openpnm/utils/misc.py:133-135` converts that dict instead, which is the conversion `NestedDicts.SanitizeDict` states for any nested dict.
- Settings.SettingsDict.constructor: the positional mapping or iterable and the keyword arguments arrive as one sequence of `(key, value)` pairs, positional ones first. The `TypeError` and `ValueError` that `dict` raises for malformed arguments are not modelled.
- Collections.UniqueList: ragged input raises `IndexError`, as older NumPy does when it builds a one-dimensional object array. Newer NumPy raises `ValueError` when it builds the array.
- `geometry.num_pores`, `geometry.map_pores`, `network.find_neighbor_throats` and `network.map_throats` are given as tables.
  - PoreCentroid.Voronoi requires the pore map's local ids to be distinct and in range, as a mapping returned by `map_pores` is.
- PoreCentroid.Voronoi: the `vertices` argument (default `'throat.centroid'`) and the lookup `geometry[vertices]` at `OpenPNM/Geometry/models/pore_centroid.py:25` are replaced by the given centroid rows `verts`. The `KeyError` that Python raises when the geometry has no such property is not modelled.
- The network record has no `network[...]` lookup for `throat.conns`, `pore.coords` and `throat.length`. They are present, and `Conduits.Valid` requires array shapes consistent with the throat connections. Absent or inconsistent arrays raise in NumPy and are not modelled. The centroid-shape conditions of `Conduits.Valid` bind in pore mode too, where the centroid arrays are never read.
- Boolean masks as `throats` are not modelled; only integer index lists are.
- Settings.HealthDict.Health: the test `self[item] != []` at `openpnm/utils/misc.py:183` is modelled on the `Value` tag, a list or something else. A NumPy array value, whose `!= []` is an element-wise array and not a boolean, is not modelled.
- `test/unit/Utilities/TopologyTest.py` exercises the topology editor (`trim_occluded_throats`, `Network.Cubic`), which is not part of this model.

## Findings

| source | as written | input that shows it | evidently intended | confidence | as-written member | corrected member |
|---|---|---|---|---|---|---|
| openpnm/utils/misc.py:369 | `pore.diameter` is read before the `try`, so the 0.5 fallback at lines 397-398 never covers a missing diameter and the call raises `KeyError` | a network without `pore.diameter`, mode `'pore'` | a network without diameters splits each remainder evenly | medium, not executed | Conduits.MissingDiameterRaises | Conduits.IntendedConduitLengths |
| openpnm/utils/misc.py:125-127 | `__missing__` stores the new dictionary through the splitting `__setitem__` and then reads `self[key]` with the exact key, which is still absent; so it re-enters itself on the same state until the recursion limit | `NestedDict()['a/b']` | return the empty dictionary just stored at the key's path | high, not executed | NestedDicts.MissingDelimitedKeyRecurses | NestedDicts.NestedDict.GetItemCorrected |

The corrected conduit computation is proved to split evenly without diameters in `Conduits.IntendedSplitsEvenlyWithoutDiameter`. It is proved to agree with the code whenever diameters exist in `Conduits.IntendedAgreesWithDiameter`. The corrected `__missing__` returns exactly the value found at the key's path, as its contract states.
