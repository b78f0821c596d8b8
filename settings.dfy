/** `SettingsDict` and `HealthDict` from `openpnm/utils/misc.py`: two dict
    subclasses, one that answers a missing key with `None`, one that reports
    whether every entry is an empty list. */
module Settings {
  import opened Wrappers

  /** A Python dict from string keys: its keys in insertion order and the
      value stored under each. */
  class SettingsDict<V> {
    var keys: seq<string>
    var table: map<string, Option<V>>

    ghost predicate Valid()
      reads this
    {
      (forall i, j :: 0 <= i < j < |keys| ==> keys[i] != keys[j])
      && (forall k :: k in table <==> k in keys)
    }

    /** `SettingsDict(*args, **kwargs)`: the `(key, value)` pairs `dict`
        receives, positional ones first, assigned in turn. */
    constructor (pairs: seq<(string, Option<V>)>)
      ensures Valid()
      ensures keys == KeyOrder(pairs) && table == TableOf(pairs)
    {
      keys := [];
      table := map[];
      new;
      for i := 0 to |pairs|
        invariant Valid()
        invariant keys == KeyOrder(pairs[..i]) && table == TableOf(pairs[..i])
      {
        assert pairs[..i + 1][..i] == pairs[..i];
        KeyOrderMembers(pairs[..i]);
        Set(pairs[i].0, pairs[i].1);
      }
      assert pairs[..|pairs|] == pairs;
    }

    /** `sd[key] = value` (`None` stands for Python's `None`). */
    method Set(key: string, value: Option<V>)
      requires Valid()
      modifies this
      ensures Valid()
      ensures table == old(table)[key := value]
      ensures keys == if key in old(table) then old(keys) else old(keys) + [key]
    {
      if key !in table {
        keys := keys + [key];
      }
      table := table[key := value];
    }

    /** `sd[key]`: a stored key gives its value; a missing key is stored with
        `None` by `__missing__`, which then returns it. */
    method GetItem(key: string) returns (r: Option<V>)
      requires Valid()
      modifies this
      ensures Valid()
      ensures key in old(table) ==> r == old(table)[key] && table == old(table) && keys == old(keys)
      ensures key !in old(table) ==> r == None && table == old(table)[key := None] && keys == old(keys) + [key]
      ensures key in table && table[key] == r
    {
      if key in table {
        r := table[key];
      } else {
        Set(key, None);
        r := table[key];
      }
    }
  }

  /** The keys of `dict(pairs)`: each key where it first appears. */
  function KeyOrder<V>(pairs: seq<(string, Option<V>)>): seq<string>
  {
    if pairs == [] then []
    else
      var ks := KeyOrder(pairs[..|pairs| - 1]);
      if pairs[|pairs| - 1].0 in ks then ks else ks + [pairs[|pairs| - 1].0]
  }

  /** The values of `dict(pairs)`: a later pair overwrites an earlier one. */
  function TableOf<V>(pairs: seq<(string, Option<V>)>): map<string, Option<V>>
  {
    if pairs == [] then map[]
    else TableOf(pairs[..|pairs| - 1])[pairs[|pairs| - 1].0 := pairs[|pairs| - 1].1]
  }

  /** The keys listed are exactly the keys given, and each is stored. */
  lemma {:induction false} KeyOrderMembers<V>(pairs: seq<(string, Option<V>)>)
    ensures forall k :: k in KeyOrder(pairs) <==> k in TableOf(pairs)
    ensures forall k :: k in TableOf(pairs) <==> exists i :: 0 <= i < |pairs| && pairs[i].0 == k
    decreases |pairs|
  {
    if pairs != [] {
      var init := pairs[..|pairs| - 1];
      KeyOrderMembers(init);
      assert forall i :: 0 <= i < |init| ==> init[i] == pairs[i];
    }
  }

  /** Each key holds the value of its last pair. */
  lemma {:induction false} TableOfLast<V>(pairs: seq<(string, Option<V>)>, i: nat)
    requires i < |pairs|
    requires forall j :: i < j < |pairs| ==> pairs[j].0 != pairs[i].0
    ensures pairs[i].0 in TableOf(pairs) && TableOf(pairs)[pairs[i].0] == pairs[i].1
    decreases |pairs|
  {
    if i < |pairs| - 1 {
      var init := pairs[..|pairs| - 1];
      assert forall j :: i < j < |init| ==> init[j] == pairs[j];
      TableOfLast(init, i);
    }
  }

  /** With no key repeated, the keys keep the order of the pairs. */
  lemma {:induction false} KeyOrderDistinct<V>(pairs: seq<(string, Option<V>)>)
    requires forall i, j :: 0 <= i < j < |pairs| ==> pairs[i].0 != pairs[j].0
    ensures |KeyOrder(pairs)| == |pairs|
    ensures forall i :: 0 <= i < |pairs| ==> KeyOrder(pairs)[i] == pairs[i].0
    decreases |pairs|
  {
    if pairs != [] {
      var init := pairs[..|pairs| - 1];
      KeyOrderDistinct(init);
      assert pairs[|pairs| - 1].0 !in KeyOrder(init) by {
        forall i | 0 <= i < |init| ensures KeyOrder(init)[i] != pairs[|pairs| - 1].0 {
          assert init[i] == pairs[i];
        }
      }
    }
  }

  /** A dict value as the health check sees it: a list, or anything else. */
  datatype Value<T> = List(elements: seq<T>) | Other(value: T)

  /** `value == []`: only the empty list is healthy. */
  predicate Healthy<T>(v: Value<T>)
  {
    v.List? && v.elements == []
  }

  class HealthDict<T> {
    var keys: seq<string>
    var table: map<string, Value<T>>

    ghost predicate Valid()
      reads this
    {
      (forall i, j :: 0 <= i < j < |keys| ==> keys[i] != keys[j])
      && (forall k :: k in table <==> k in keys)
    }

    constructor (entries: map<string, Value<T>>, order: seq<string>)
      requires forall i, j :: 0 <= i < j < |order| ==> order[i] != order[j]
      requires forall k :: k in entries <==> k in order
      ensures Valid() && keys == order && table == entries
    {
      keys := order;
      table := entries;
    }

    /** The `health` property: true exactly when every entry is an empty list. */
    method Health() returns (health: bool)
      requires Valid()
      ensures health <==> forall k :: k in table ==> Healthy(table[k])
    {
      health := true;
      for i := 0 to |keys|
        invariant health <==> forall j :: 0 <= j < i ==> Healthy(table[keys[j]])
      {
        if !Healthy(table[keys[i]]) {
          health := false;
        }
      }
      assert forall k :: k in table ==> exists j :: 0 <= j < |keys| && keys[j] == k;
    }
  }
}
