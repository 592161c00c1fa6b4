/** The LRU cache: a list of entries kept in recency order and a map from keys to
    list nodes. */
module KVCache {
  import opened Collections

  /** Entries, most recently used first. */
  type Entries<K, V> = seq<(K, V)>

  /** The value stored under `k`. */
  function Lookup<K(==), V>(c: Entries<K, V>, k: K): Option<V> {
    if c == [] then None else if c[0].0 == k then Some(c[0].1) else Lookup(c[1..], k)
  }

  /** `c` without the entry of `k`. */
  function Drop<K(==), V>(c: Entries<K, V>, k: K): Entries<K, V> {
    if c == [] then [] else if c[0].0 == k then c[1..] else [c[0]] + Drop(c[1..], k)
  }

  /** get: a hit moves the entry to the front. */
  function Touched<K(==), V>(c: Entries<K, V>, k: K): Entries<K, V> {
    match Lookup(c, k)
    case None => c
    case Some(v) => [(k, v)] + Drop(c, k)
  }

  /** add: replaces, or makes room by evicting the last entry. */
  function Added<K(==), V>(c: Entries<K, V>, k: K, v: V, max: nat): Entries<K, V> {
    if Lookup(c, k).Some? then [(k, v)] + Drop(c, k)
    else if |c| + 1 > max && |c| > 0 then [(k, v)] + c[..|c| - 1]
    else [(k, v)] + c
  }

  // --------------------------------------------------------------- LRU order

  function Keys<K, V>(c: Entries<K, V>): (ks: seq<K>)
    ensures |ks| == |c| && forall i :: 0 <= i < |c| ==> ks[i] == c[i].0
  {
    seq(|c|, i requires 0 <= i < |c| => c[i].0)
  }

  /** `ks` without the first `k`. */
  function Remove<K(==)>(ks: seq<K>, k: K): seq<K> {
    if ks == [] then [] else if ks[0] == k then ks[1..] else [ks[0]] + Remove(ks[1..], k)
  }

  datatype Op<K, V> = Get(key: K) | Add(key: K, value: V)

  /** The cache after a history of operations. */
  function After<K(==), V>(h: seq<Op<K, V>>, max: nat): Entries<K, V> {
    if h == [] then []
    else
      var c := After(h[..|h| - 1], max);
      match h[|h| - 1]
      case Get(k) => Touched(c, k)
      case Add(k, v) => Added(c, k, v, max)
  }

  /** The keys touched by a history: every add, and every get of one of the `max` keys
      touched most recently. */
  function Touches<K(==), V>(h: seq<Op<K, V>>, max: nat): seq<K> {
    if h == [] then []
    else
      var touches := Touches(h[..|h| - 1], max);
      var op := h[|h| - 1];
      if op.Add? || op.key in Take(Recency(touches), max) then touches + [op.key] else touches
  }

  /** Distinct keys by last touch, most recent first. */
  function Recency<K(==)>(touches: seq<K>): seq<K> {
    if touches == [] then []
    else
      var last := touches[|touches| - 1];
      [last] + Remove(Recency(touches[..|touches| - 1]), last)
  }

  /** The value last added under `k`. */
  function LastAdded<K(==), V>(h: seq<Op<K, V>>, k: K): Option<V> {
    if h == [] then None
    else
      var op := h[|h| - 1];
      if op.Add? && op.key == k then Some(op.value) else LastAdded(h[..|h| - 1], k)
  }

  function Take<T>(s: seq<T>, n: nat): seq<T> {
    if |s| <= n then s else s[..n]
  }

  lemma {:induction false} RemoveFacts<K>(ks: seq<K>, k: K)
    ensures k !in ks ==> Remove(ks, k) == ks
    ensures k in ks ==> |Remove(ks, k)| == |ks| - 1
    ensures Distinct(ks) ==> k !in Remove(ks, k) && Distinct(Remove(ks, k))
    ensures forall x :: x in Remove(ks, k) ==> x in ks
    ensures forall x :: x in ks && x != k ==> x in Remove(ks, k)
  {
    if ks == [] {
    } else {
      RemoveFacts(ks[1..], k);
      if Distinct(ks) && ks[0] != k {
        var rest := Remove(ks[1..], k);
        assert Distinct(ks[1..]);
        forall x | x in rest ensures x != ks[0] {}
      }
    }
  }

  lemma FrontDistinct<T>(x: T, s: seq<T>)
    requires Distinct(s) && x !in s
    ensures Distinct([x] + s)
  {}

  lemma FrontMoved<T>(s: seq<T>, x: T)
    requires Distinct(s) && x in s
    ensures Distinct([x] + Remove(s, x)) && |[x] + Remove(s, x)| == |s|
    ensures forall m :: m in [x] + Remove(s, x) <==> m in s
  {
    RemoveFacts(s, x);
    FrontDistinct(x, Remove(s, x));
  }

  lemma DropKeys<K, V>(c: Entries<K, V>, k: K)
    ensures Keys(Drop(c, k)) == Remove(Keys(c), k)
    ensures Lookup(c, k).Some? <==> k in Keys(c)
    ensures forall e :: e in Drop(c, k) ==> e in c
    ensures forall v :: Lookup(c, k) == Some(v) ==> (k, v) in c
  {
    DroppedKeys(c, k);
    LookupEntry(c, k);
  }

  lemma {:induction false} DroppedKeys<K, V>(c: Entries<K, V>, k: K)
    ensures Keys(Drop(c, k)) == Remove(Keys(c), k)
    ensures forall e :: e in Drop(c, k) ==> e in c
  {
    if c == [] {
    } else {
      DroppedKeys(c[1..], k);
      assert Keys(c)[1..] == Keys(c[1..]);
      if c[0].0 != k {
        assert Keys(Drop(c, k)) == [c[0].0] + Keys(Drop(c[1..], k));
      }
    }
  }

  lemma {:induction false} LookupEntry<K, V>(c: Entries<K, V>, k: K)
    ensures Lookup(c, k).Some? <==> k in Keys(c)
    ensures forall v :: Lookup(c, k) == Some(v) ==> (k, v) in c
  {
    if c == [] {
    } else {
      LookupEntry(c[1..], k);
      assert Keys(c) == [c[0].0] + Keys(c[1..]);
      assert c == [c[0]] + c[1..];
    }
  }

  /** Removing a key that is among the first `n` commutes with taking `n`. */
  lemma {:induction false} TakeRemove<K>(ks: seq<K>, k: K, n: nat)
    requires n >= 1
    ensures k in Take(ks, n) ==> Take(Remove(ks, k), n - 1) == Remove(Take(ks, n), k)
    ensures k !in Take(ks, n) ==> Take(Remove(ks, k), n - 1) == Take(ks, n - 1)
  {
    if ks == [] {
    } else {
      var x, rest := ks[0], ks[1..];
      assert ks == [x] + rest;
      TakeFront(x, rest, n);
      if x == k {
        assert Take(ks, n)[0] == k && Take(ks, n)[1..] == Take(rest, n - 1);
      } else if n == 1 {
        assert Take(ks, n) == [x] && Take(ks, 0) == [] == Take(Remove(ks, k), 0);
      } else {
        TakeRemove(rest, k, n - 1);
        TakeFront(x, rest, n - 1);
        TakeFront(x, Remove(rest, k), n - 1);
        RemoveCons(x, Take(rest, n - 1), k);
        assert Remove(ks, k) == [x] + Remove(rest, k);
        assert k in Take(ks, n) <==> k in Take(rest, n - 1);
      }
    }
  }

  lemma RemoveCons<K>(x: K, s: seq<K>, k: K)
    requires x != k
    ensures Remove([x] + s, k) == [x] + Remove(s, k)
  {
    assert ([x] + s)[1..] == s;
  }

  lemma {:induction false} RecencyDistinct<K>(touches: seq<K>)
    ensures Distinct(Recency(touches))
  {
    if touches == [] {
    } else {
      var front, last := touches[..|touches| - 1], touches[|touches| - 1];
      RecencyDistinct(front);
      RemoveFacts(Recency(front), last);
      FrontDistinct(last, Remove(Recency(front), last));
    }
  }

  /** LRU exactness: after any history the cache holds exactly the most recently
      touched distinct keys, in recency order, at most `max` of them, and each
      with the value last added. */
  lemma {:induction false} LruExact<K, V>(h: seq<Op<K, V>>, max: nat)
    requires max >= 1
    ensures Keys(After(h, max)) == Take(Recency(Touches(h, max)), max)
    ensures |After(h, max)| <= max && Distinct(Keys(After(h, max)))
    ensures forall e :: e in After(h, max) ==> LastAdded(h, e.0) == Some(e.1)
  {
    if h == [] {
    } else {
      var front, op := h[..|h| - 1], h[|h| - 1];
      LruExact(front, max);
      var c := After(front, max);
      var touches := Touches(front, max);
      RecencyStep(c, op, touches, max);
      assert After(h, max) == Step(c, op, max);
      forall e | e in After(h, max) ensures LastAdded(h, e.0) == Some(e.1) {
        LastAddedStep(h, c, max, e);
      }
    }
  }

  /** One operation touches its key in the cache and in the history alike. */
  lemma RecencyStep<K, V>(c: Entries<K, V>, op: Op<K, V>, touches: seq<K>, max: nat)
    requires max >= 1 && Keys(c) == Take(Recency(touches), max)
    ensures var now := if op.Add? || op.key in Take(Recency(touches), max) then touches + [op.key] else touches;
            Keys(Step(c, op, max)) == Take(Recency(now), max) && Distinct(Recency(now))
  {
    DropKeys(c, op.key);
    RecencyDistinct(touches);
    if op.Add? || Lookup(c, op.key).Some? {
      assert (touches + [op.key])[..|touches + [op.key]| - 1] == touches;
      RecencyDistinct(touches + [op.key]);
      KeysStep(c, op, Recency(touches), max);
    }
  }

  lemma {:induction false} LastAddedStep<K, V>(h: seq<Op<K, V>>, c: Entries<K, V>, max: nat, e: (K, V))
    requires h != [] && max >= 1 && e in Step(c, h[|h| - 1], max) && Distinct(Keys(Step(c, h[|h| - 1], max)))
    requires forall x :: x in c ==> LastAdded(h[..|h| - 1], x.0) == Some(x.1)
    ensures LastAdded(h, e.0) == Some(e.1)
  {
    var op := h[|h| - 1];
    EntryStep(c, op, max, e);
    if op.Add? && e.0 == op.key { OnlyEntry(Step(c, op, max), e); }
  }

  lemma OnlyEntry<K, V>(d: Entries<K, V>, e: (K, V))
    requires d != [] && Distinct(Keys(d)) && e in d && d[0].0 == e.0
    ensures e == d[0]
  {
    var i :| 0 <= i < |d| && d[i] == e;
    assert Keys(d)[i] == Keys(d)[0];
    assert i == 0;
  }

  function Step<K(==), V>(c: Entries<K, V>, op: Op<K, V>, max: nat): Entries<K, V> {
    match op
    case Get(k) => Touched(c, k)
    case Add(k, v) => Added(c, k, v, max)
  }

  lemma TakeFront<K>(k: K, ks: seq<K>, n: nat)
    requires n >= 1
    ensures Take([k] + ks, n) == [k] + Take(ks, n - 1)
  {}

  lemma TakeTake<K>(ks: seq<K>, n: nat)
    requires n >= 1
    ensures Take(Take(ks, n), n - 1) == Take(ks, n - 1)
  {}

  lemma KeysStep<K, V>(c: Entries<K, V>, op: Op<K, V>, recent: seq<K>, max: nat)
    requires max >= 1 && Keys(c) == Take(recent, max) && Distinct(recent)
    requires op.Add? || Lookup(c, op.key).Some?
    ensures Keys(Step(c, op, max)) == Take([op.key] + Remove(recent, op.key), max)
  {
    var k := op.key;
    DropKeys(c, k);
    TakeRemove(recent, k, max);
    TakeFront(k, Remove(recent, k), max);
    if Lookup(c, k).Some? {
      HitKeys(c, op, max);
    } else {
      TakeTake(recent, max);
      MissKeys(c, op, max);
    }
  }

  lemma HitKeys<K, V>(c: Entries<K, V>, op: Op<K, V>, max: nat)
    requires Lookup(c, op.key).Some?
    ensures Keys(Step(c, op, max)) == [op.key] + Keys(Drop(c, op.key))
  {
    var e := Step(c, op, max)[0];
    KeysCons(e, Drop(c, op.key));
  }

  lemma KeysCons<K, V>(e: (K, V), c: Entries<K, V>)
    ensures Keys([e] + c) == [e.0] + Keys(c)
  {}

  lemma MissKeys<K, V>(c: Entries<K, V>, op: Op<K, V>, max: nat)
    requires op.Add? && Lookup(c, op.key).None? && max >= 1 && |c| <= max
    ensures Keys(Step(c, op, max)) == [op.key] + Take(Keys(c), max - 1)
  {
    var rest := if |c| == max then c[..|c| - 1] else c;
    KeysCons((op.key, op.value), rest);
    assert Keys(rest) == Take(Keys(c), max - 1);
  }

  lemma EntryStep<K, V>(c: Entries<K, V>, op: Op<K, V>, max: nat, e: (K, V))
    requires e in Step(c, op, max)
    ensures e in c || (op.Add? && e == (op.key, op.value))
  {
    DropKeys(c, op.key);
  }

  // --------------------------------------------------------------- the class

  type Node = nat

  /** The entries that a list of nodes stands for. */
  ghost function View<K, V>(list: seq<Node>, cells: map<Node, (K, V)>): (c: Entries<K, V>)
    requires forall m :: m in list ==> m in cells
    ensures |c| == |list| && forall i :: 0 <= i < |list| ==> c[i] == cells[list[i]]
  {
    seq(|list|, i requires 0 <= i < |list| => cells[list[i]])
  }

  lemma {:induction false} ViewFinds<K, V>(list: seq<Node>, cells: map<Node, (K, V)>, n: Node)
    requires forall m :: m in list ==> m in cells
    requires n in list && Distinct(list)
    requires forall m :: m in list && cells[m].0 == cells[n].0 ==> m == n
    ensures forall m :: m in Remove(list, n) ==> m in cells
    ensures Lookup(View(list, cells), cells[n].0) == Some(cells[n].1)
    ensures Drop(View(list, cells), cells[n].0) == View(Remove(list, n), cells)
  {
    RemoveFacts(list, n);
    var c := View(list, cells);
    assert c[1..] == View(list[1..], cells);
    if list[0] == n {
    } else {
      assert Distinct(list[1..]);
      ViewFinds(list[1..], cells, n);
      assert cells[list[0]].0 != cells[n].0 && list[0] in list;
      assert Remove(list, n) == [list[0]] + Remove(list[1..], n);
      assert View(Remove(list, n), cells) == [c[0]] + View(Remove(list[1..], n), cells);
      assert Drop(c, cells[n].0) == [c[0]] + Drop(c[1..], cells[n].0);
    }
  }

  lemma {:induction false} ViewMisses<K, V>(list: seq<Node>, cells: map<Node, (K, V)>, k: K)
    requires forall m :: m in list ==> m in cells && cells[m].0 != k
    ensures Lookup(View(list, cells), k) == None && Drop(View(list, cells), k) == View(list, cells)
  {
    var c := View(list, cells);
    if list == [] {
    } else {
      assert c[1..] == View(list[1..], cells);
      ViewMisses(list[1..], cells, k);
    }
  }

  lemma ReplaceView<K, V>(rest: seq<Node>, cells: map<Node, (K, V)>, n: Node, e: (K, V))
    requires n !in rest && forall m :: m in rest ==> m in cells
    ensures View([n] + rest, cells[n := e]) == [e] + View(rest, cells)
  {}

  class Cache<K(==), V> {
    const maxCacheSize: nat
    var list: seq<Node>             // cache_items_list, as a list of nodes
    var cells: map<Node, (K, V)>    // what each node holds
    var index: map<K, Node>         // cache_items_map
    var nextNode: Node

    ghost predicate Valid()
      reads this
    {
      && |list| <= maxCacheSize
      && Distinct(list) && (forall n :: n in cells <==> n in list) && (forall n :: n in cells ==> n < nextNode)
      && (forall k :: k in index ==> index[k] in cells && cells[index[k]].0 == k)
      && (forall n :: n in cells ==> cells[n].0 in index && index[cells[n].0] == n)
    }

    ghost function Contents(): Entries<K, V>
      reads this
      requires Valid()
    {
      View(list, cells)
    }

    constructor (size: nat)
      ensures Valid() && maxCacheSize == size && Contents() == []
    {
      maxCacheSize := size;
      list, cells, index, nextNode := [], map[], map[], 0;
    }

    /** `None` stands for the out_of_range exception. */
    method Get(key: K) returns (value: Option<V>)
      requires Valid()
      modifies this`list
      ensures Valid() && value == Lookup(old(Contents()), key)
      ensures Contents() == Touched(old(Contents()), key)
    {
      if key !in index {
        ViewMisses(list, cells, key);
        return None;
      }
      var n := index[key];
      Finds(n);
      MoveToFront(n);
      value := Some(cells[n].1);
    }

    /** What looking up the key of a node finds, and what dropping it leaves. */
    lemma Finds(n: Node)
      requires Valid() && n in list
      ensures forall m :: m in Remove(list, n) ==> m in cells && m != n
      ensures Lookup(Contents(), cells[n].0) == Some(cells[n].1)
      ensures Drop(Contents(), cells[n].0) == View(Remove(list, n), cells)
    {
      forall m | m in list && cells[m].0 == cells[n].0 ensures m == n {
        assert index[cells[m].0] == m;
      }
      RemoveFacts(list, n);
      ViewFinds(list, cells, n);
    }

    /** list.splice of one node to the front. */
    method MoveToFront(n: Node)
      requires Valid() && n in list
      modifies this`list
      ensures Valid() && (forall m :: m in Remove(old(list), n) ==> m in cells)
      ensures Contents() == [cells[n]] + View(Remove(old(list), n), cells)
    {
      ghost var rest := Remove(list, n);
      RemoveFacts(list, n);
      FrontMoved(list, n);
      list := [n] + Remove(list, n);
      assert View(list, cells) == [cells[n]] + View(rest, cells);
    }

    method AddEntry(key: K, value: V)
      requires Valid() && maxCacheSize >= 1
      modifies this
      ensures Valid() && Contents() == Added(old(Contents()), key, value, maxCacheSize)
    {
      if key !in index {
        ViewMisses(list, cells, key);
        if |list| + 1 > maxCacheSize {
          EvictLast();
        }
        PushFront(key, value);
      } else {
        var n := index[key];
        Finds(n);
        ReplaceView(Remove(list, n), cells, n, (key, value));
        cells := cells[n := (key, value)];
        MoveToFront(n);
      }
    }

    method EvictLast()
      requires Valid() && list != []
      modifies this`list, this`cells, this`index
      ensures Valid() && Contents() == old(Contents()[..|list| - 1]) && |list| == old(|list|) - 1
      ensures forall k :: k !in old(index) ==> k !in index
    {
      var n := list[|list| - 1];
      index := index - {cells[n].0};
      cells := cells - {n};
      list := list[..|list| - 1];
    }

    method PushFront(key: K, value: V)
      requires Valid() && key !in index && |list| < maxCacheSize
      modifies this
      ensures Valid() && Contents() == [(key, value)] + old(Contents())
    {
      var n := nextNode;
      assert n !in cells;
      ghost var before, held := list, cells;
      nextNode := nextNode + 1;
      cells := cells[n := (key, value)];
      list := [n] + list;
      index := index[key := n];
      assert View(list, cells) == [(key, value)] + View(before, held);
    }

    method RemoveEntry(key: K)
      requires Valid()
      modifies this`list, this`cells, this`index
      ensures Valid() && Contents() == Drop(old(Contents()), key)
    {
      if key in index {
        var n := index[key];
        Finds(n);
        RemoveFacts(list, n);
        list := Remove(list, n);
        ghost var before := cells;
        cells := cells - {n};
        index := index - {key};
        assert View(list, cells) == View(list, before);
      } else {
        ViewMisses(list, cells, key);
      }
    }

    method Clear()
      requires Valid()
      modifies this`list, this`cells, this`index
      ensures Valid() && Contents() == []
    {
      index, cells, list := map[], map[], [];
    }
  }
}
