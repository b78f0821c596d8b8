/** `NestedDict` and `sanitize_dict` from `openpnm/utils/misc.py`.

    A Python dict keeps its keys in insertion order, so a dictionary is
    modelled as a sequence of `Item`s.  A stored value is either a `Node`
    (a nested dictionary) or a `Leaf` (anything without a `keys` method);
    the tag replaces the source's `hasattr(value, 'keys')` tests. */
module NestedDicts {
  import opened Wrappers

  datatype Entry<V> = Leaf(value: V) | Node(items: seq<Item<V>>)
  datatype Item<V> = Item(key: string, val: Entry<V>)

  // ---------------------------------------------------------------------
  // The dictionary operations the source inherits from `dict`

  /** Definition of `list(dict.keys(d))`: the keys in insertion order.  Its
      `ensures` only spells out the comprehension, for use by callers. */
  function KeyList<V>(items: seq<Item<V>>): (r: seq<string>)
    ensures |r| == |items| && forall i :: 0 <= i < |items| ==> r[i] == items[i].key
  {
    seq(|items|, i requires 0 <= i < |items| => items[i].key)
  }

  lemma KeyListCons<V>(x: Item<V>, s: seq<Item<V>>)
    ensures KeyList([x] + s) == [x.key] + KeyList(s)
  {
  }

  /** `d[k]` on a plain dict: the value of the item that holds `k`, if any. */
  function Get<V>(items: seq<Item<V>>, k: string): (r: Option<Entry<V>>)
    ensures r.None? <==> k !in KeyList(items)
    decreases |items|
  {
    if items == [] then None
    else
      assert items == [items[0]] + items[1..];
      KeyListCons(items[0], items[1..]);
      if items[0].key == k then Some(items[0].val) else Get(items[1..], k)
  }

  /** `d[k] = v` on a plain dict: overwrite in place, or append a new key. */
  function Put<V>(items: seq<Item<V>>, k: string, v: Entry<V>): seq<Item<V>>
    decreases |items|
  {
    if items == [] then [Item(k, v)]
    else if items[0].key == k then [Item(k, v)] + items[1..]
    else [items[0]] + Put(items[1..], k, v)
  }

  /** `d[k] = v` keeps the keys in order, appending `k` only when new, stores
      `v` under `k` and changes no other key. */
  lemma PutFacts<V>(items: seq<Item<V>>, k: string, v: Entry<V>)
    ensures KeyList(Put(items, k, v)) == if k in KeyList(items) then KeyList(items) else KeyList(items) + [k]
    ensures Get(Put(items, k, v), k) == Some(v)
    ensures forall k' :: k' != k ==> Get(Put(items, k, v), k') == Get(items, k')
  {
    PutKeys(items, k, v);
    PutReads(items, k, v);
  }

  lemma {:induction false} PutKeys<V>(items: seq<Item<V>>, k: string, v: Entry<V>)
    ensures KeyList(Put(items, k, v)) == if k in KeyList(items) then KeyList(items) else KeyList(items) + [k]
    decreases |items|
  {
    if items != [] {
      var x, s := items[0], items[1..];
      assert items == [x] + s;
      KeyListCons(x, s);
      if x.key == k {
        KeyListCons(Item(k, v), s);
      } else {
        PutKeys(s, k, v);
        KeyListCons(x, Put(s, k, v));
      }
    }
  }

  lemma {:induction false} PutReads<V>(items: seq<Item<V>>, k: string, v: Entry<V>)
    ensures Get(Put(items, k, v), k) == Some(v)
    ensures forall k' :: k' != k ==> Get(Put(items, k, v), k') == Get(items, k')
    decreases |items|
  {
    if items != [] {
      var x, s := items[0], items[1..];
      if x.key == k {
        assert ([Item(k, v)] + s)[0] == Item(k, v) && ([Item(k, v)] + s)[1..] == s;
      } else {
        PutReads(s, k, v);
        assert ([x] + Put(s, k, v))[0] == x && ([x] + Put(s, k, v))[1..] == Put(s, k, v);
      }
    }
  }

  lemma PutCons<V>(x: Item<V>, s: seq<Item<V>>, k: string, v: Entry<V>)
    requires x.key != k
    ensures Put([x] + s, k, v) == [x] + Put(s, k, v)
  {
    assert ([x] + s)[0] == x && ([x] + s)[1..] == s;
  }

  /** `d.pop(k)`: the value under `k` and the dictionary without it. */
  function Pop<V>(items: seq<Item<V>>, k: string): Result<(Entry<V>, seq<Item<V>>)>
    decreases |items|
  {
    if items == [] then Err(KeyError)
    else if items[0].key == k then Ok((items[0].val, items[1..]))
    else match Pop(items[1..], k)
         case Err(e) => Err(e)
         case Ok((v, rest)) => Ok((v, [items[0]] + rest))
  }

  /** `d.pop(k)` raises `KeyError` exactly when `k` is absent, and otherwise
      gives the value `d[k]` reads. */
  lemma {:induction false} PopFacts<V>(items: seq<Item<V>>, k: string)
    ensures Pop(items, k).Err? <==> k !in KeyList(items)
    ensures Pop(items, k).Err? ==> Pop(items, k).error == KeyError
    ensures Pop(items, k).Ok? ==> Get(items, k) == Some(Pop(items, k).value.0)
    decreases |items|
  {
    if items != [] {
      KeyListCons(items[0], items[1..]);
      assert items == [items[0]] + items[1..];
      PopFacts(items[1..], k);
    }
  }

  /** The value `d[k]` finds is that of the first item holding `k`. */
  lemma {:induction false} GetFirst<V>(items: seq<Item<V>>, k: string)
    ensures Get(items, k).Some? ==>
              exists i :: 0 <= i < |items| && items[i] == Item(k, Get(items, k).value)
                          && forall j :: 0 <= j < i ==> items[j].key != k
    decreases |items|
  {
    if items != [] && items[0].key != k && Get(items, k).Some? {
      GetFirst(items[1..], k);
      var i :| 0 <= i < |items[1..]| && items[1..][i] == Item(k, Get(items, k).value)
                && forall j :: 0 <= j < i ==> items[1..][j].key != k;
      assert items[i + 1] == items[1..][i];
      assert forall j :: 1 <= j < i + 1 ==> items[j] == items[1..][j - 1];
    }
  }

  /** `d.pop(k)` takes out the first item holding `k` and leaves the other
      items in their order. */
  lemma {:induction false} PopRemoves<V>(items: seq<Item<V>>, k: string, i: nat)
    requires i < |items| && items[i].key == k
    requires forall j :: 0 <= j < i ==> items[j].key != k
    ensures Pop(items, k) == Ok((items[i].val, items[..i] + items[i + 1..]))
    decreases i
  {
    if i == 0 {
      assert items[..0] + items[1..] == items[1..];
    } else {
      var x, s := items[0], items[1..];
      assert x.key != k;
      assert forall j :: 0 <= j < i - 1 ==> s[j] == items[j + 1];
      PopRemoves(s, k, i - 1);
      assert Pop(items, k) == Ok((s[i - 1].val, [x] + (s[..i - 1] + s[i..])));
      RemoveAfterHead(items, i);
    }
  }

  lemma RemoveAfterHead<V>(items: seq<Item<V>>, i: nat)
    requires 0 < i < |items|
    ensures items[..i] + items[i + 1..] == [items[0]] + (items[1..][..i - 1] + items[1..][i..])
  {
    assert items[..i] == [items[0]] + items[1..][..i - 1];
    assert items[i + 1..] == items[1..][i..];
  }

  // ---------------------------------------------------------------------
  // Delimited keys and paths

  /** `key.split(d, 1)`: the text before the first delimiter and the rest. */
  function Split(key: string, d: char): (r: Option<(string, string)>)
    ensures r.None? <==> d !in key
    ensures r.Some? ==> key == r.value.0 + [d] + r.value.1 && d !in r.value.0
  {
    if key == [] then None
    else if key[0] == d then Some(([], key[1..]))
    else match Split(key[1..], d)
         case None => None
         case Some((h, rest)) =>
           assert key == [key[0]] + key[1..];
           Some(([key[0]] + h, rest))
  }

  /** The first segment of a key: the top-level key that `d[key] = v` writes. */
  function Head(key: string, d: char): string
  {
    match Split(key, d)
    case None => key
    case Some((h, _)) => h
  }

  /** The full path a delimited key names: `key.split(d)`. */
  function Segments(key: string, d: char): (r: seq<string>)
    ensures |r| > 0 && r[0] == Head(key, d)
    decreases |key|
  {
    match Split(key, d)
    case None => [key]
    case Some((h, rest)) => [h] + Segments(rest, d)
  }

  predicate IsPrefix(p: seq<string>, q: seq<string>)
  {
    |p| <= |q| && q[..|p|] == p
  }

  /** Neither path lies on the other. */
  predicate Unrelated(p: seq<string>, q: seq<string>)
  {
    !IsPrefix(p, q) && !IsPrefix(q, p)
  }

  /** `e[path[0]][path[1]]...`: the value reached by chained subscripts. */
  function At<V>(e: Entry<V>, path: seq<string>): Option<Entry<V>>
    decreases |path|
  {
    if path == [] then Some(e)
    else match e
         case Leaf(_) => None
         case Node(items) =>
           match Get(items, path[0])
           case None => None
           case Some(child) => At(child, path[1..])
  }

  lemma AtEmpty<V>(path: seq<string>)
    requires path != []
    ensures At<V>(Node([]), path) == None
  {
  }

  // ---------------------------------------------------------------------
  // __setitem__

  /** `NestedDict.__setitem__(key, value)`: a key with a delimiter names a
      child dictionary, created empty and appended when absent, into which
      the rest of the key is written.  Writing through a stored value that
      is not a dictionary raises. */
  function Insert<V>(items: seq<Item<V>>, d: char, key: string, value: Entry<V>): (r: Result<seq<Item<V>>>)
    ensures r.Err? ==> r.error == TypeError
    ensures r.Ok? ==> At(Node(r.value), Segments(key, d)) == Some(value)
    ensures r.Ok? ==> KeyList(r.value) == if Head(key, d) in KeyList(items) then KeyList(items)
                                         else KeyList(items) + [Head(key, d)]
    ensures r.Ok? ==> forall k :: k != Head(key, d) ==> Get(r.value, k) == Get(items, k)
    decreases |key|
  {
    match Split(key, d)
    case None =>
      PutFacts(items, key, value);
      Ok(Put(items, key, value))
    case Some((head, rest)) =>
      var existing := Get(items, head);
      if existing.Some? && existing.value.Leaf? then Err(TypeError)
      else
        var sub := if existing.Some? then existing.value.items else [];
        match Insert(sub, d, rest, value)
        case Err(e) => Err(e)
        case Ok(sub') =>
          PutFacts(items, head, Node(sub'));
          Ok(Put(items, head, Node(sub')))
  }

  /** The write passes through a stored value that is not a dictionary. */
  predicate Blocked<V>(items: seq<Item<V>>, d: char, key: string)
    decreases |key|
  {
    match Split(key, d)
    case None => false
    case Some((head, rest)) =>
      match Get(items, head)
      case None => false
      case Some(Leaf(_)) => true
      case Some(Node(sub)) => Blocked(sub, d, rest)
  }

  /** `__setitem__` raises exactly when some proper prefix of the key's path
      holds a value that is not a dictionary; writing into an empty
      dictionary never raises. */
  lemma {:induction false} InsertFailsIffBlocked<V>(items: seq<Item<V>>, d: char, key: string, value: Entry<V>)
    ensures Insert(items, d, key, value).Err? <==> Blocked(items, d, key)
    decreases |key|
  {
    match Split(key, d)
    case None =>
    case Some((head, rest)) =>
      match Get(items, head)
      case None => InsertFailsIffBlocked([], d, rest, value);
      case Some(Leaf(_)) =>
      case Some(Node(sub)) => InsertFailsIffBlocked(sub, d, rest, value);
  }

  lemma PrefixCons(h: string, p: seq<string>, q: seq<string>)
    ensures IsPrefix([h] + p, [h] + q) <==> IsPrefix(p, q)
  {
    if IsPrefix(p, q) {
      assert ([h] + q)[..|[h] + p|] == [h] + q[..|p|];
    }
    if IsPrefix([h] + p, [h] + q) {
      assert q[..|p|] == ([h] + q)[..|[h] + p|][1..];
    }
  }

  /** `d[key] = v` leaves every path unrelated to the key's path as it was:
      siblings of each node along the path are untouched. */
  lemma {:induction false} InsertFrame<V>(items: seq<Item<V>>, d: char, key: string, value: Entry<V>, q: seq<string>)
    requires Insert(items, d, key, value).Ok?
    requires Unrelated(Segments(key, d), q)
    ensures At(Node(Insert(items, d, key, value).value), q) == At(Node(items), q)
    decreases |key|
  {
    var r := Insert(items, d, key, value).value;
    var segs := Segments(key, d);
    assert IsPrefix([], segs);
    var h := Head(key, d);
    if q[0] != h {
      assert Get(r, q[0]) == Get(items, q[0]);
    } else {
      var q' := q[1..];
      assert q == [h] + q';
      match Split(key, d)
      case None =>
      case Some((head, rest)) =>
        var sr := Segments(rest, d);
        assert segs == [h] + sr;
        PrefixCons(h, sr, q');
        PrefixCons(h, q', sr);
        var existing := Get(items, head);
        var sub := if existing.Some? then existing.value.items else [];
        InsertFrame(sub, d, rest, value, q');
        PutFacts(items, head, Node(Insert(sub, d, rest, value).value));
        if existing.None? {
          AtEmpty<V>(q');
        }
    }
  }

  lemma {:induction false} PutExisting<V>(items: seq<Item<V>>, k: string, v: Entry<V>)
    requires Get(items, k) == Some(v)
    ensures Put(items, k, v) == items
    decreases |items|
  {
    if items[0].key != k {
      PutExisting(items[1..], k, v);
    }
    assert items == [items[0]] + items[1..];
  }

  /** Writing the same value twice is writing it once. */
  lemma {:induction false} InsertIdempotent<V>(items: seq<Item<V>>, d: char, key: string, value: Entry<V>)
    requires Insert(items, d, key, value).Ok?
    ensures Insert(Insert(items, d, key, value).value, d, key, value) == Insert(items, d, key, value)
    decreases |key|
  {
    var r := Insert(items, d, key, value).value;
    match Split(key, d)
    case None =>
      PutFacts(items, key, value);
      PutExisting(r, key, value);
    case Some((head, rest)) =>
      var existing := Get(items, head);
      var sub := if existing.Some? then existing.value.items else [];
      var sub' := Insert(sub, d, rest, value).value;
      PutFacts(items, head, Node(sub'));
      assert Get(r, head) == Some(Node(sub'));
      InsertIdempotent(sub, d, rest, value);
      PutExisting(r, head, Node(sub'));
  }

  // ---------------------------------------------------------------------
  // Well-formed dictionaries

  /** No key appears twice among a dictionary's items, as in every Python dict. */
  predicate DistinctKeys<V>(items: seq<Item<V>>)
  {
    forall i, j :: 0 <= i < j < |items| ==> items[i].key != items[j].key
  }

  /** Every dictionary in the tree, at every level, has distinct keys. */
  predicate WellFormed<V>(e: Entry<V>)
    decreases e
  {
    match e
    case Leaf(_) => true
    case Node(items) => DistinctKeys(items) && forall i :: 0 <= i < |items| ==> WellFormed(items[i].val)
  }

  /** Every item of `d[k] = v` is the new item or the item that was there. */
  lemma {:induction false} PutItems<V>(items: seq<Item<V>>, k: string, v: Entry<V>)
    ensures forall i :: 0 <= i < |Put(items, k, v)| ==>
              Put(items, k, v)[i] == Item(k, v) || (i < |items| && Put(items, k, v)[i] == items[i])
    decreases |items|
  {
    if items != [] && items[0].key != k {
      var rest := Put(items[1..], k, v);
      PutItems(items[1..], k, v);
      assert forall i :: 1 <= i < |[items[0]] + rest| ==> ([items[0]] + rest)[i] == rest[i - 1];
    }
  }

  /** `d[k] = v` keeps a dictionary well formed when `v` is. */
  lemma PutKeepsWellFormed<V>(items: seq<Item<V>>, k: string, v: Entry<V>)
    requires WellFormed(Node(items)) && WellFormed(v)
    ensures WellFormed(Node(Put(items, k, v)))
  {
    var r := Put(items, k, v);
    PutFacts(items, k, v);
    PutItems(items, k, v);
    forall i, j | 0 <= i < j < |r| ensures r[i].key != r[j].key {
      assert r[i].key == KeyList(r)[i] && r[j].key == KeyList(r)[j];
      if k !in KeyList(items) && j == |items| {
        assert KeyList(r)[i] == KeyList(items)[i];
      } else {
        assert KeyList(r)[i] == KeyList(items)[i] == items[i].key;
        assert KeyList(r)[j] == KeyList(items)[j] == items[j].key;
      }
    }
  }

  /** The value a read finds in a well-formed dictionary is well formed. */
  lemma GetWellFormed<V>(items: seq<Item<V>>, k: string)
    requires WellFormed(Node(items)) && Get(items, k).Some?
    ensures WellFormed(Get(items, k).value)
  {
    GetFirst(items, k);
  }

  /** `__setitem__` keeps a dictionary well formed when the stored value is. */
  lemma {:induction false} InsertKeepsWellFormed<V>(items: seq<Item<V>>, d: char, key: string, value: Entry<V>)
    requires WellFormed(Node(items)) && WellFormed(value)
    requires Insert(items, d, key, value).Ok?
    ensures WellFormed(Node(Insert(items, d, key, value).value))
    decreases |key|
  {
    match Split(key, d)
    case None => PutKeepsWellFormed(items, key, value);
    case Some((head, rest)) =>
      var existing := Get(items, head);
      if existing.Some? {
        GetWellFormed(items, head);
      }
      var sub := if existing.Some? then existing.value.items else [];
      InsertKeepsWellFormed(sub, d, rest, value);
      PutKeepsWellFormed(items, head, Node(Insert(sub, d, rest, value).value));
  }

  /** `d.pop(k)` keeps a dictionary well formed and gives a well-formed value. */
  lemma PopKeepsWellFormed<V>(items: seq<Item<V>>, k: string)
    requires WellFormed(Node(items)) && Pop(items, k).Ok?
    ensures WellFormed(Pop(items, k).value.0) && WellFormed(Node(Pop(items, k).value.1))
  {
    PopFacts(items, k);
    GetFirst(items, k);
    var i :| 0 <= i < |items| && items[i] == Item(k, Get(items, k).value)
             && forall j :: 0 <= j < i ==> items[j].key != k;
    PopRemoves(items, k, i);
    RemoveKeepsWellFormed(items, i);
  }

  lemma RemoveKeepsWellFormed<V>(items: seq<Item<V>>, i: nat)
    requires WellFormed(Node(items)) && i < |items|
    ensures WellFormed(Node(items[..i] + items[i + 1..]))
  {
    var rest := items[..i] + items[i + 1..];
    forall j | 0 <= j < |rest| ensures rest[j] == items[if j < i then j else j + 1] {
      if j < i {
        assert rest[j] == items[..i][j];
      } else {
        assert rest[j] == items[i + 1..][j - i];
      }
    }
  }

  // ---------------------------------------------------------------------
  // __init__ and unravel

  /** The outcome of `unravel`: the dictionary left behind, and whether the
      loop ran to the end (`false` when a write raised). */
  datatype Run<V> = Run(items: seq<Item<V>>, ok: bool)

  /** `for item in keys: self[item] = self.pop(item)` over the snapshot `ks`. */
  function Unravel<V>(items: seq<Item<V>>, d: char, ks: seq<string>): Run<V>
    decreases |ks|
  {
    if ks == [] then Run(items, true)
    else match Pop(items, ks[0])
         case Err(_) => Run(items, false)
         case Ok((v, rest)) =>
           match Insert(rest, d, ks[0], v)
           case Err(_) => Run(rest, false)
           case Ok(next) => Unravel(next, d, ks[1..])
  }

  /** Reference definition: assign each item of `entries`, in order, through
      `__setitem__`, starting from `items`. */
  function AssignAll<V>(items: seq<Item<V>>, d: char, entries: seq<Item<V>>): Result<seq<Item<V>>>
    decreases |entries|
  {
    if entries == [] then Ok(items)
    else match Insert(items, d, entries[0].key, entries[0].val)
         case Err(e) => Err(e)
         case Ok(next) => AssignAll(next, d, entries[1..])
  }

  /** No key is the first segment of an earlier key. */
  predicate NoHeadClash<V>(m: seq<Item<V>>, d: char)
  {
    forall i, j :: 0 <= i < j < |m| ==> Head(m[i].key, d) != m[j].key
  }

  lemma {:induction false} GetPrepend<V>(b: seq<Item<V>>, a: seq<Item<V>>, k: string)
    requires k !in KeyList(b)
    ensures Get(b + a, k) == Get(a, k)
    decreases |b|
  {
    if b == [] {
      assert b + a == a;
    } else {
      assert KeyList(b)[0] == b[0].key;
      assert (b + a)[0] == b[0] && (b + a)[1..] == b[1..] + a;
      assert k !in KeyList(b[1..]) by {
        assert forall j :: 0 <= j < |b| - 1 ==> KeyList(b[1..])[j] == KeyList(b)[j + 1];
      }
      GetPrepend(b[1..], a, k);
    }
  }

  lemma {:induction false} PutPrepend<V>(b: seq<Item<V>>, a: seq<Item<V>>, k: string, v: Entry<V>)
    requires k !in KeyList(b)
    ensures Put(b + a, k, v) == b + Put(a, k, v)
    decreases |b|
  {
    if b == [] {
      assert b + a == a;
    } else {
      assert KeyList(b)[0] == b[0].key;
      assert (b + a)[0] == b[0] && (b + a)[1..] == b[1..] + a;
      assert k !in KeyList(b[1..]) by {
        assert forall j :: 0 <= j < |b| - 1 ==> KeyList(b[1..])[j] == KeyList(b)[j + 1];
      }
      var x, t := b[0], b[1..];
      assert b + a == [x] + (t + a);
      PutCons(x, t + a, k, v);
      PutPrepend(t, a, k, v);
      assert b + Put(a, k, v) == [x] + (t + Put(a, k, v));
    }
  }

  /** Writing below a prefix of items whose keys the write does not touch. */
  lemma InsertPrepend<V>(b: seq<Item<V>>, a: seq<Item<V>>, d: char, key: string, value: Entry<V>)
    requires Head(key, d) !in KeyList(b)
    ensures Insert(b + a, d, key, value)
            == match Insert(a, d, key, value) case Ok(s) => Ok(b + s) case Err(e) => Err(e)
  {
    match Split(key, d)
    case None => PutPrepend(b, a, key, value);
    case Some((head, rest)) =>
      GetPrepend(b, a, head);
      var existing := Get(a, head);
      if !(existing.Some? && existing.value.Leaf?) {
        var sub := if existing.Some? then existing.value.items else [];
        match Insert(sub, d, rest, value)
        case Err(_) =>
        case Ok(sub') => PutPrepend(b, a, head, Node(sub'));
      }
  }

  /** The loop state after `n` steps: the keys not yet processed, in their
      original order, followed by the result of assigning the processed ones. */
  lemma {:induction false} UnravelSplit<V>(u: seq<Item<V>>, r: seq<Item<V>>, d: char)
    requires NoHeadClash(u, d)
    ensures AssignAll(r, d, u).Ok? ==> Unravel(u + r, d, KeyList(u)) == Run(AssignAll(r, d, u).value, true)
    ensures AssignAll(r, d, u).Err? ==> !Unravel(u + r, d, KeyList(u)).ok
    decreases |u|
  {
    if u == [] {
      assert u + r == r;
    } else {
      var k := u[0].key;
      var us := u[1..];
      assert (u + r)[0] == u[0];
      assert Pop(u + r, k) == Ok((u[0].val, us + r)) by {
        assert (u + r)[1..] == us + r;
      }
      assert Head(k, d) !in KeyList(us) by {
        forall j | 0 <= j < |us| ensures KeyList(us)[j] != Head(k, d) {
          assert us[j] == u[j + 1];
        }
      }
      InsertPrepend(us, r, d, k, u[0].val);
      assert KeyList(u)[1..] == KeyList(us);
      assert NoHeadClash(us, d) by {
        forall i, j | 0 <= i < j < |us| ensures Head(us[i].key, d) != us[j].key {
          assert us[i] == u[i + 1] && us[j] == u[j + 1];
        }
      }
      match Insert(r, d, k, u[0].val)
      case Err(_) =>
      case Ok(next) => UnravelSplit(us, next, d);
    }
  }

  /** Constructing a `NestedDict` from a mapping gives the dictionary that
      assigning each of its items in turn through `__setitem__` gives, and
      fails exactly when that fails, provided no key is the first segment of
      an earlier key (for `{"a/b": 1, "a": ...}` the later plain `"a"` would
      be reinserted after `"a/b"` created it). */
  lemma UnravelIsAssignAll<V>(m: seq<Item<V>>, d: char)
    requires NoHeadClash(m, d)
    ensures AssignAll([], d, m).Ok? ==> Unravel(m, d, KeyList(m)) == Run(AssignAll([], d, m).value, true)
    ensures AssignAll([], d, m).Err? ==> !Unravel(m, d, KeyList(m)).ok
  {
    UnravelSplit(m, [], d);
    assert m + [] == m;
  }

  /** For `{"a": 1, "a/b": 2}` the write of `"a/b"` goes through the integer
      under `"a"`, so construction raises, as assigning in turn does. */
  lemma WriteThroughLeafRaises()
    ensures NoHeadClash([Item("a", Leaf(1)), Item("a/b", Leaf(2))], '/')
    ensures AssignAll([], '/', [Item("a", Leaf(1)), Item("a/b", Leaf(2))]) == Err(TypeError)
    ensures !Unravel([Item("a", Leaf(1)), Item("a/b", Leaf(2))], '/', KeyList([Item("a", Leaf(1)), Item("a/b", Leaf(2))])).ok
  {
    SplitExample();
    var m := [Item("a", Leaf(1)), Item("a/b", Leaf(2))];
    assert KeyList(m) == ["a", "a/b"];
    assert Insert([], '/', "a", Leaf(1)) == Ok([Item("a", Leaf(1))]);
    assert Pop(m, "a") == Ok((Leaf(1), [Item("a/b", Leaf(2))]));
    var next := [Item("a/b", Leaf(2)), Item("a", Leaf(1))];
    var ks := ["a", "a/b"];
    assert ks[1..] == ["a/b"] && ks[1..][1..] == [];
    assert "a/b" != "a" && [Item("a/b", Leaf(2))][1..] == [];
    assert Put([Item("a/b", Leaf(2))], "a", Leaf(1)) == next;
    assert Insert([Item("a/b", Leaf(2))], '/', "a", Leaf(1)) == Ok(next);
    assert Pop(next, "a/b") == Ok((Leaf(2), [Item("a", Leaf(1))]));
    assert Insert([Item("a", Leaf(1))], '/', "a/b", Leaf(2)).Err?;
    assert Unravel(next, '/', ks[1..]) == Run([Item("a", Leaf(1))], false);
    assert Unravel(m, '/', ks) == Unravel(next, '/', ks[1..]);
  }

  /** `"a/b".split("/", 1)` and the splits of the one-letter keys. */
  lemma SplitExample()
    ensures Split("a", '/') == None && Split("b", '/') == None
    ensures Split("a/b", '/') == Some(("a", "b"))
  {
    assert "a/b"[0] == 'a' && "a/b"[1..] == "/b";
    assert "/b"[0] == '/' && "/b"[1..] == "b";
    assert Split("/b", '/') == Some(([], "b"));
    assert ['a'] + [] == "a";
  }

  /** Without the condition the two differ: for `{"a/b": 1, "a": 2}`
      assigning in turn succeeds, while `unravel` pops `"a/b"` and then
      writes it through the integer still stored under `"a"`, which raises. */
  lemma HeadClashBreaksUnravel()
    ensures !NoHeadClash([Item("a/b", Leaf(1)), Item("a", Leaf(2))], '/')
    ensures AssignAll([], '/', [Item("a/b", Leaf(1)), Item("a", Leaf(2))]).Ok?
    ensures !Unravel([Item("a/b", Leaf(1)), Item("a", Leaf(2))], '/', KeyList([Item("a/b", Leaf(1)), Item("a", Leaf(2))])).ok
  {
    SplitExample();
    var m := [Item("a/b", Leaf(1)), Item("a", Leaf(2))];
    assert Head("a/b", '/') == "a";
    assert KeyList(m) == ["a/b", "a"];
    var first := [Item("a", Node([Item("b", Leaf(1))]))];
    assert Insert([], '/', "b", Leaf(1)) == Ok([Item("b", Leaf(1))]);
    assert Insert([], '/', "a/b", Leaf(1)) == Ok(first);
    assert first[1..] == [] && Put(first, "a", Leaf(2)) == [Item("a", Leaf(2))];
    assert Insert(first, '/', "a", Leaf(2)) == Ok([Item("a", Leaf(2))]);
    assert AssignAll([Item("a", Leaf(2))], '/', m[1..][1..]).Ok?;
    assert Pop(m, "a/b") == Ok((Leaf(1), [Item("a", Leaf(2))]));
    assert Insert([Item("a", Leaf(2))], '/', "a/b", Leaf(1)).Err?;
  }

  /** `unravel` keeps a dictionary well formed, whether or not it runs to the end. */
  lemma {:induction false} UnravelKeepsWellFormed<V>(items: seq<Item<V>>, d: char, ks: seq<string>)
    requires WellFormed(Node(items))
    ensures WellFormed(Node(Unravel(items, d, ks).items))
    decreases |ks|
  {
    if ks != [] && Pop(items, ks[0]).Ok? {
      PopKeepsWellFormed(items, ks[0]);
      var (v, rest) := Pop(items, ks[0]).value;
      if Insert(rest, d, ks[0], v).Ok? {
        InsertKeepsWellFormed(rest, d, ks[0], v);
        UnravelKeepsWellFormed(Insert(rest, d, ks[0], v).value, d, ks[1..]);
      }
    }
  }

  // ---------------------------------------------------------------------
  // keys(dicts, values)

  /** Whether `keys(dicts, values)` reports an item. */
  predicate Selected<V>(item: Item<V>, dicts: bool, values: bool)
  {
    if item.val.Node? then dicts else values
  }

  /** The keys whose value is a dictionary (kept when `dicts`) or is not
      (kept when `values`), in insertion order. */
  function SelectKeys<V>(items: seq<Item<V>>, dicts: bool, values: bool): (r: seq<string>)
    ensures |r| <= |items|
  {
    if items == [] then []
    else
      var last := items[|items| - 1];
      SelectKeys(items[..|items| - 1], dicts, values) + (if Selected(last, dicts, values) then [last.key] else [])
  }

  /** A key is selected exactly when it is stored with a value of a selected kind. */
  lemma {:induction false} SelectKeysMembers<V>(items: seq<Item<V>>, dicts: bool, values: bool)
    ensures forall k :: k in SelectKeys(items, dicts, values) <==>
              exists i :: 0 <= i < |items| && items[i].key == k && Selected(items[i], dicts, values)
    decreases |items|
  {
    if items != [] {
      var init := items[..|items| - 1];
      SelectKeysMembers(init, dicts, values);
      forall k | exists i :: 0 <= i < |items| && items[i].key == k && Selected(items[i], dicts, values)
        ensures k in SelectKeys(items, dicts, values)
      {
        var i :| 0 <= i < |items| && items[i].key == k && Selected(items[i], dicts, values);
        if i < |init| {
          assert init[i] == items[i];
        }
      }
      forall k | k in SelectKeys(items, dicts, values)
        ensures exists i :: 0 <= i < |items| && items[i].key == k && Selected(items[i], dicts, values)
      {
        if k in SelectKeys(init, dicts, values) {
          var i :| 0 <= i < |init| && init[i].key == k && Selected(init[i], dicts, values);
          assert items[i] == init[i];
        }
      }
    }
  }

  /** With both kinds selected every key comes back, in order. */
  lemma {:induction false} SelectAllKeys<V>(items: seq<Item<V>>)
    ensures SelectKeys(items, true, true) == KeyList(items)
    decreases |items|
  {
    if items != [] {
      SelectAllKeys(items[..|items| - 1]);
      assert KeyList(items) == KeyList(items[..|items| - 1]) + [items[|items| - 1].key];
    }
  }

  /** With neither kind selected nothing comes back. */
  lemma {:induction false} SelectNone<V>(items: seq<Item<V>>)
    ensures SelectKeys(items, false, false) == []
    decreases |items|
  {
    if items != [] {
      SelectNone(items[..|items| - 1]);
    }
  }

  /** The dictionary keys and the value keys together are all the keys. */
  lemma {:induction false} SelectKeysPartition<V>(items: seq<Item<V>>)
    ensures multiset(SelectKeys(items, true, false)) + multiset(SelectKeys(items, false, true))
            == multiset(KeyList(items))
    decreases |items|
  {
    if items != [] {
      SelectKeysPartition(items[..|items| - 1]);
      assert KeyList(items) == KeyList(items[..|items| - 1]) + [items[|items| - 1].key];
    }
  }

  // ---------------------------------------------------------------------
  // to_dict and sanitize_dict

  /** A plain Python dict tree, the result of `to_dict` and `sanitize_dict`. */
  datatype Plain<V> = Scalar(value: V) | Dict(entries: seq<PlainItem<V>>)
  datatype PlainItem<V> = PlainItem(key: string, val: Plain<V>)

  function PlainOf<V>(e: Entry<V>): Plain<V>
    decreases e
  {
    match e
    case Leaf(v) => Scalar(v)
    case Node(items) => Dict(PlainItemsOf(items))
  }

  function PlainItemsOf<V>(items: seq<Item<V>>): (r: seq<PlainItem<V>>)
    decreases items
  {
    seq(|items|, i requires 0 <= i < |items| => PlainItem(items[i].key, PlainOf(items[i].val)))
  }

  /** The inverse conversion, from a plain tree back to a nested one. */
  function EntryOf<V>(p: Plain<V>): Entry<V>
    decreases p
  {
    match p
    case Scalar(v) => Leaf(v)
    case Dict(entries) => Node(ItemsOf(entries))
  }

  function ItemsOf<V>(entries: seq<PlainItem<V>>): seq<Item<V>>
    decreases entries
  {
    seq(|entries|, i requires 0 <= i < |entries| => Item(entries[i].key, EntryOf(entries[i].val)))
  }

  function PlainGet<V>(entries: seq<PlainItem<V>>, k: string): Option<Plain<V>>
  {
    if entries == [] then None
    else if entries[0].key == k then Some(entries[0].val)
    else PlainGet(entries[1..], k)
  }

  /** Chained subscripts on a plain tree. */
  function PlainAt<V>(p: Plain<V>, path: seq<string>): Option<Plain<V>>
    decreases |path|
  {
    if path == [] then Some(p)
    else match p
         case Scalar(_) => None
         case Dict(entries) =>
           match PlainGet(entries, path[0])
           case None => None
           case Some(child) => PlainAt(child, path[1..])
  }

  function Depth<V>(e: Entry<V>): nat
    decreases e
  {
    match e
    case Leaf(_) => 0
    case Node(items) => 1 + MaxDepth(items)
  }

  function MaxDepth<V>(items: seq<Item<V>>): nat
    decreases items
  {
    if items == [] then 0
    else
      var a, b := Depth(items[0].val), MaxDepth(items[1..]);
      if a < b then b else a
  }

  function PlainDepth<V>(p: Plain<V>): nat
    decreases p
  {
    match p
    case Scalar(_) => 0
    case Dict(entries) => 1 + PlainMaxDepth(entries)
  }

  function PlainMaxDepth<V>(entries: seq<PlainItem<V>>): nat
    decreases entries
  {
    if entries == [] then 0
    else
      var a, b := PlainDepth(entries[0].val), PlainMaxDepth(entries[1..]);
      if a < b then b else a
  }

  lemma {:induction false} PlainGetOf<V>(items: seq<Item<V>>, k: string)
    ensures PlainGet(PlainItemsOf(items), k) == match Get(items, k) case None => None case Some(e) => Some(PlainOf(e))
    decreases |items|
  {
    if items != [] {
      assert PlainItemsOf(items)[1..] == PlainItemsOf(items[1..]);
      if items[0].key != k {
        PlainGetOf(items[1..], k);
      }
    }
  }

  /** The plain tree has the same keys at every level and the same values at
      its leaves: every chain of subscripts reaches the converted value. */
  lemma {:induction false} PlainAtOf<V>(e: Entry<V>, path: seq<string>)
    ensures PlainAt(PlainOf(e), path) == match At(e, path) case None => None case Some(x) => Some(PlainOf(x))
    decreases |path|
  {
    if path != [] {
      match e
      case Leaf(_) =>
      case Node(items) =>
        PlainGetOf(items, path[0]);
        match Get(items, path[0])
        case None =>
        case Some(child) => PlainAtOf(child, path[1..]);
    }
  }

  /** The top-level keys of the conversion are those of the dictionary, in order. */
  lemma PlainKeysOf<V>(items: seq<Item<V>>)
    ensures |PlainItemsOf(items)| == |items|
    ensures forall i :: 0 <= i < |items| ==> PlainItemsOf(items)[i].key == KeyList(items)[i]
  {
  }

  /** Converting back recovers the nested dictionary: nothing is lost. */
  lemma {:induction false} PlainRoundTrip<V>(e: Entry<V>)
    ensures EntryOf(PlainOf(e)) == e
    decreases e, 1
  {
    match e
    case Leaf(_) =>
    case Node(items) => PlainItemsRoundTrip(items);
  }

  lemma {:induction false} PlainItemsRoundTrip<V>(items: seq<Item<V>>)
    ensures ItemsOf(PlainItemsOf(items)) == items
    decreases items, 0
  {
    forall i | 0 <= i < |items| ensures ItemsOf(PlainItemsOf(items))[i] == items[i] {
      PlainRoundTrip(items[i].val);
    }
  }

  /** The conversion keeps the nesting depth. */
  lemma {:induction false} PlainDepthOf<V>(e: Entry<V>)
    ensures PlainDepth(PlainOf(e)) == Depth(e)
    decreases e, 1
  {
    match e
    case Leaf(_) =>
    case Node(items) => PlainMaxDepthOf(items);
  }

  lemma {:induction false} PlainMaxDepthOf<V>(items: seq<Item<V>>)
    ensures PlainMaxDepth(PlainItemsOf(items)) == MaxDepth(items)
    decreases items, 0
  {
    if items != [] {
      PlainDepthOf(items[0].val);
      assert PlainItemsOf(items)[1..] == PlainItemsOf(items[1..]);
      PlainMaxDepthOf(items[1..]);
    }
  }

  /** `sanitize_dict(input_dict)`: copy every key in order, converting each
      nested dictionary recursively and keeping every other value as it is. */
  method SanitizeDict<V>(input: seq<Item<V>>) returns (plain: seq<PlainItem<V>>)
    ensures plain == PlainItemsOf(input)
    decreases input
  {
    plain := [];
    for i := 0 to |input|
      invariant plain == PlainItemsOf(input[..i])
    {
      var item := input[i];
      assert item in input;
      match item.val {
        case Node(sub) =>
          var nested := SanitizeDict(sub);
          plain := plain + [PlainItem(item.key, Dict(nested))];
        case Leaf(v) =>
          plain := plain + [PlainItem(item.key, Scalar(v))];
      }
    }
    assert input[..|input|] == input;
  }

  // ---------------------------------------------------------------------
  // The NestedDict object

  class NestedDict<V> {
    const delimiter: char
    var items: seq<Item<V>>
    /** Whether `__init__` ran to the end; `false` stands for the exception
        it raises, after which Python hands out no object. */
    var built: bool

    /** Keys are distinct at every level, as in any Python dict.  This is
        what makes `Get` and `Pop`, which act on the first item holding a
        key, act on the only one. */
    ghost predicate Valid()
      reads this
    {
      WellFormed(Node(items))
    }

    /** `NestedDict(mapping, delimiter)`: copy the mapping (`dict.update`
        does not go through `__setitem__`), then `unravel`.  The mapping is
        a Python mapping, so its keys are distinct at every level. */
    constructor (mapping: seq<Item<V>>, delimiter: char)
      requires WellFormed(Node(mapping))
      ensures Valid()
      ensures this.delimiter == delimiter
      ensures Run(items, built) == Unravel(mapping, delimiter, KeyList(mapping))
    {
      this.delimiter := delimiter;
      items := mapping;
      new;
      built := RunUnravel();
    }

    /** `unravel()`: pop every key of a snapshot of the keys and assign it
        again through `__setitem__`; stops at the first write that raises. */
    method RunUnravel() returns (ok: bool)
      requires Valid()
      modifies this
      ensures Valid()
      ensures Run(items, ok) == Unravel(old(items), delimiter, KeyList(old(items)))
      ensures built == old(built)
    {
      var ks := KeyList(items);
      var i := 0;
      while i < |ks|
        invariant 0 <= i <= |ks|
        invariant Valid() && built == old(built)
        invariant Unravel(items, delimiter, ks[i..]) == Unravel(old(items), delimiter, ks)
      {
        assert ks[i..][0] == ks[i] && ks[i..][1..] == ks[i + 1..];
        var popped := Pop(items, ks[i]);
        if popped.Err? {
          return false;
        }
        PopKeepsWellFormed(items, ks[i]);
        items := popped.value.1;
        ok := SetItem(ks[i], popped.value.0);
        if !ok {
          return;
        }
        i := i + 1;
      }
      return true;
    }

    /** `self[key] = value`: returns false where the source raises, and then
        nothing has changed. */
    method SetItem(key: string, value: Entry<V>) returns (ok: bool)
      requires Valid() && WellFormed(value)
      modifies this
      ensures Valid()
      ensures ok == Insert(old(items), delimiter, key, value).Ok?
      ensures items == if ok then Insert(old(items), delimiter, key, value).value else old(items)
      ensures built == old(built)
    {
      var r := Insert(items, delimiter, key, value);
      ok := r.Ok?;
      if ok {
        InsertKeepsWellFormed(items, delimiter, key, value);
        items := r.value;
      }
    }

    /** `self[key]`: an exact top-level lookup; on a miss `__missing__`
        stores an empty dictionary under `key` and reads `self[key]` again.
        A key holding the delimiter is stored at its path, not at the top
        level, so the second read misses too and `__missing__` is entered
        again on the same state, without end. */
    method GetItem(key: string) returns (r: Result<Entry<V>>)
      requires Valid()
      modifies this
      ensures Valid() && built == old(built)
      ensures key in KeyList(old(items)) ==> items == old(items) && r == Ok(Get(items, key).value)
      ensures key !in KeyList(old(items)) ==>
                var s := Insert(old(items), delimiter, key, Node([]));
                if s.Err? then items == old(items) && r == Err(TypeError)
                else items == s.value && r == (if delimiter in key then Err(RecursionError) else Ok(Node([])))
    {
      var found := Get(items, key);
      if found.Some? {
        return Ok(found.value);
      }
      ghost var before := items;
      var ok := SetItem(key, Node([]));
      if !ok {
        return Err(TypeError);
      }
      found := Get(items, key);
      if found.Some? {
        PutFacts(before, key, Node([]));
        assert delimiter !in key by {
          if delimiter in key {
            MissingDelimitedKeyRecurses(before, delimiter, key);
          }
        }
        return Ok(found.value);
      }
      MissingDelimitedKeyRecurses(before, delimiter, key);
      return Err(RecursionError);
    }

    /** `self[key]` with `__missing__` returning the dictionary it stored:
        a miss stores an empty dictionary at the key's path and returns it. */
    method GetItemCorrected(key: string) returns (r: Result<Entry<V>>)
      requires Valid()
      modifies this
      ensures Valid() && built == old(built)
      ensures key in KeyList(old(items)) ==> items == old(items) && r == Ok(Get(items, key).value)
      ensures key !in KeyList(old(items)) ==>
                var s := Insert(old(items), delimiter, key, Node([]));
                if s.Err? then items == old(items) && r == Err(TypeError)
                else items == s.value && r == Ok(Node([]))
      ensures key !in KeyList(old(items)) && r.Ok? ==> At(Node(items), Segments(key, delimiter)) == Some(r.value)
    {
      var found := Get(items, key);
      if found.Some? {
        return Ok(found.value);
      }
      var ok := SetItem(key, Node([]));
      if !ok {
        return Err(TypeError);
      }
      return Ok(Node([]));
    }

    /** `keys(dicts, values)` */
    method Keys(dicts: bool, values: bool) returns (r: seq<string>)
      ensures r == SelectKeys(items, dicts, values)
      ensures dicts && values ==> r == KeyList(items)
      ensures !dicts && !values ==> r == []
      ensures forall k :: k in r <==>
                exists i :: 0 <= i < |items| && items[i].key == k && Selected(items[i], dicts, values)
    {
      r := [];
      for i := 0 to |items|
        invariant r == SelectKeys(items[..i], dicts, values)
      {
        assert items[..i + 1][..i] == items[..i];
        if items[i].val.Node? {
          if dicts {
            r := r + [items[i].key];
          }
        } else {
          if values {
            r := r + [items[i].key];
          }
        }
      }
      assert items[..|items|] == items;
      SelectKeysMembers(items, dicts, values);
      SelectAllKeys(items);
      SelectNone(items);
    }

    /** `to_dict()` */
    method ToDict() returns (r: seq<PlainItem<V>>)
      ensures r == PlainItemsOf(items)
    {
      r := SanitizeDict(items);
    }
  }

  /** `__missing__` with a key that holds the delimiter: after it stores the
      empty dictionary, the exact top-level key is still absent, and storing
      again changes nothing, so every re-entry sees the same state. */
  lemma MissingDelimitedKeyRecurses<V>(items: seq<Item<V>>, d: char, key: string)
    requires d in key && key !in KeyList(items)
    requires Insert(items, d, key, Node([])).Ok?
    ensures key !in KeyList(Insert(items, d, key, Node([])).value)
    ensures Insert(Insert(items, d, key, Node([])).value, d, key, Node([])) == Insert(items, d, key, Node([]))
  {
    var sp := Split(key, d).value;
    assert |Head(key, d)| < |key|;
    InsertIdempotent(items, d, key, Node([]));
  }
}
