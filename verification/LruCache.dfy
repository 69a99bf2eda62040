/** The bounded cache the tree keeps twice, for leaves and for interior nodes: a list with the most
    recent element in front and an index from key to list element. */
module LruCache {
  import opened Encoding

  class Element<K> {
    const key: K
    var hash: Bytes

    constructor (key: K, hash: Bytes)
      ensures this.key == key && this.hash == hash
    {
      this.key := key;
      this.hash := hash;
    }
  }

  /** `s` without `x`. */
  function Without<T(==)>(s: seq<T>, x: T): seq<T>
  {
    if s == [] then [] else (if s[0] == x then [] else [s[0]]) + Without(s[1..], x)
  }

  lemma {:induction false} WithoutAbsent<T>(s: seq<T>, x: T)
    requires x !in s
    ensures Without(s, x) == s
  {
    if s != [] {
      WithoutAbsent(s[1..], x);
    }
  }

  lemma {:induction false} WithoutAt<T>(s: seq<T>, x: T, i: nat)
    requires i < |s| && s[i] == x && x !in s[..i] && x !in s[i + 1..]
    ensures Without(s, x) == s[..i] + s[i + 1..]
  {
    if i == 0 {
      WithoutAbsent(s[1..], x);
    } else {
      assert s[1..][..i - 1] == s[..i][1..] && s[1..][i..] == s[i + 1..];
      assert s[..i] == [s[0]] + s[..i][1..];
      WithoutAt(s[1..], x, i - 1);
    }
  }

  /** Most recent first: `key` moves to the front, and a full cache drops its last key. */
  function Touched<K(==)>(keys: seq<K>, key: K, max: nat): seq<K>
  {
    var front := [key] + Without(keys, key);
    if 0 < max < |front| then front[..|front| - 1] else front
  }

  ghost predicate DistinctKeys<K(!new)>(order: seq<Element<K>>)
  {
    forall i, j :: 0 <= i < j < |order| ==> order[i].key != order[j].key
  }

  /** Every listed element is indexed under its key. */
  ghost predicate Indexed<K(!new)>(order: seq<Element<K>>, index: map<K, Element<K>>)
  {
    forall i :: 0 <= i < |order| ==> order[i].key in index && index[order[i].key] == order[i]
  }

  /** Every indexed element is listed and carries its key. */
  ghost predicate Listed<K(!new)>(order: seq<Element<K>>, index: map<K, Element<K>>)
  {
    forall k :: k in index ==> index[k] in order && index[k].key == k
  }

  /** List and index are in bijection. */
  ghost predicate Bijection<K(!new)>(order: seq<Element<K>>, index: map<K, Element<K>>)
  {
    DistinctKeys(order) && Indexed(order, index) && Listed(order, index)
  }

  function KeysOf<K>(order: seq<Element<K>>): (keys: seq<K>)
    ensures |keys| == |order| && forall i :: 0 <= i < |order| ==> keys[i] == order[i].key
  {
    seq(|order|, i requires 0 <= i < |order| => order[i].key)
  }

  /** Where the element now at position `a` was before position `i` moved to the front. */
  function MovedFrom(i: nat, a: nat): nat { if a == 0 then i else if a <= i then a - 1 else a }

  function MovedToFront<T>(s: seq<T>, i: nat): (r: seq<T>)
    requires i < |s|
    ensures |r| == |s| && forall a :: 0 <= a < |s| ==> r[a] == s[MovedFrom(i, a)]
  {
    [s[i]] + s[..i] + s[i + 1..]
  }

  lemma MovedSame<T>(s: seq<T>, i: nat, x: T)
    requires i < |s|
    ensures x in s <==> x in MovedToFront(s, i)
  {
    assert s == s[..i] + [s[i]] + s[i + 1..];
  }

  lemma MovedElements<K>(order: seq<Element<K>>, i: nat)
    requires i < |order|
    ensures (set e | e in order) == (set e | e in MovedToFront(order, i))
  {
    assert order == order[..i] + [order[i]] + order[i + 1..];
  }

  lemma MoveKeepsBijection<K(!new)>(order: seq<Element<K>>, index: map<K, Element<K>>, i: nat)
    requires Bijection(order, index) && i < |order|
    ensures Bijection(MovedToFront(order, i), index)
  {
    var r := MovedToFront(order, i);
    assert DistinctKeys(r) by {
      hide Indexed, Listed;
    }
    assert Indexed(r, index) by {
      hide DistinctKeys, Listed;
    }
    forall k | k in index ensures index[k] in r && index[k].key == k {
      MovedSame(order, i, index[k]);
    }
  }

  lemma MoveKeys<K(!new)>(order: seq<Element<K>>, i: nat)
    requires i < |order| && DistinctKeys(order)
    ensures KeysOf(MovedToFront(order, i)) == [order[i].key] + Without(KeysOf(order), order[i].key)
  {
    var keys := KeysOf(order);
    WithoutAt(keys, order[i].key, i);
    var l, r := KeysOf(MovedToFront(order, i)), [order[i].key] + (keys[..i] + keys[i + 1..]);
    assert l == r;
  }

  lemma PushKeepsBijection<K(!new)>(order: seq<Element<K>>, index: map<K, Element<K>>, e: Element<K>)
    requires Bijection(order, index) && e.key !in index
    ensures Bijection([e] + order, index[e.key := e])
  {
    var r, index' := [e] + order, index[e.key := e];
    assert DistinctKeys(r) by {
      hide Listed;
    }
    assert Indexed(r, index') by {
      hide DistinctKeys, Listed;
    }
    assert Listed(r, index') by {
      hide DistinctKeys, Indexed;
    }
  }

  lemma PushKeys<K(!new)>(order: seq<Element<K>>, index: map<K, Element<K>>, e: Element<K>)
    requires Bijection(order, index) && e.key !in index
    ensures KeysOf([e] + order) == [e.key] + Without(KeysOf(order), e.key)
  {
    hide Without, DistinctKeys, Listed;
    var keys, longer := KeysOf(order), [e] + order;
    assert e.key !in keys;
    WithoutAbsent(keys, e.key);
    assert forall i :: 0 <= i < |longer| ==> KeysOf(longer)[i] == ([e.key] + keys)[i];
  }

  lemma DropKeepsBijection<K(!new)>(order: seq<Element<K>>, index: map<K, Element<K>>)
    requires Bijection(order, index) && order != []
    ensures var last := order[|order| - 1];
            Bijection(order[..|order| - 1], map k | k in index && k != last.key :: index[k])
    ensures KeysOf(order[..|order| - 1]) == KeysOf(order)[..|order| - 1]
  {
    var last, r := order[|order| - 1], order[..|order| - 1];
    forall k | k in index && k != last.key ensures index[k] in r {
      var a :| 0 <= a < |order| && order[a] == index[k];
      assert r[a] == order[a];
    }
  }

  lemma BijectionDistinct<K(!new)>(order: seq<Element<K>>, index: map<K, Element<K>>)
    requires Bijection(order, index)
    ensures DistinctKeys(order) && Indexed(order, index)
  {
  }

  /** `key` now has `hash`, nothing else is new, and an unbounded cache keeps everything. */
  ghost predicate Refreshed<K(!new)>(now: map<K, Bytes>, was: map<K, Bytes>, key: K, hash: Bytes, unbounded: bool)
  {
    && key in now && now[key] == hash
    && (forall k :: k in now && k != key ==> k in was && now[k] == was[k])
    && (unbounded ==> forall k :: k in was ==> k in now)
  }

  class Lru<K(==, !new)> {
    var order: seq<Element<K>>
    var index: map<K, Element<K>>
    const max: nat  // 0 = unbounded

    /** List and index are in bijection, and residency stays within a positive cap. */
    ghost predicate Valid()
      reads this
    {
      Bijection(order, index) && (max > 0 ==> |order| <= max)
    }

    ghost function Elements(): set<object>
      reads this
    {
      set e | e in order
    }

    ghost function Keys(): seq<K>
      reads this
    {
      KeysOf(order)
    }

    /** What the cache answers. */
    ghost function Contents(): map<K, Bytes>
      requires Bijection(order, index)
      reads this, order
    {
      map k | k in index :: index[k].hash
    }

    constructor (max: nat)
      ensures Valid() && this.max == max && Contents() == map[] && Keys() == []
    {
      order := [];
      index := map[];
      this.max := max;
    }

    method MoveToFront(e: Element<K>)
      requires Valid() && e in order
      modifies this`order
      ensures Valid() && Elements() == old(Elements()) && Contents() == old(Contents())
      ensures Keys() == [e.key] + Without(old(Keys()), e.key)
      ensures |order| == old(|order|)
    {
      hide Bijection, KeysOf, Without;
      var i :| 0 <= i < |order| && order[i] == e;
      MoveKeepsBijection(order, index, i);
      assert DistinctKeys(order) by { BijectionDistinct(order, index); }
      MoveKeys(order, i);
      MovedElements(order, i);
      order := MovedToFront(order, i);
    }

    /** Read through the cache; a hit becomes the most recent. */
    method Get(key: K) returns (hit: bool, hash: Bytes)
      requires Valid()
      modifies this`order
      ensures Valid() && Contents() == old(Contents()) && Elements() == old(Elements())
      ensures hit <==> key in old(Contents())
      ensures hit ==> hash == old(Contents())[key]
      ensures Keys() == if hit then [key] + Without(old(Keys()), key) else old(Keys())
    {
      hash := [];
      hit := key in index;
      if hit {
        MoveToFront(index[key]);
        hash := index[key].hash;
      }
    }

    /** Store a hash: overwrite in place, or push and drop the oldest when over the cap. */
    method Put(key: K, hash: Bytes)
      requires Valid()
      modifies this, Elements()
      ensures Valid() && fresh(Elements() - old(Elements()))
      ensures Keys() == Touched(old(Keys()), key, max)
      ensures Refreshed(Contents(), old(Contents()), key, hash, max == 0)
    {
      if key in index {
        Overwrite(key, hash);
      } else {
        Push(key, hash);
      }
    }

    method Overwrite(key: K, hash: Bytes)
      requires Valid() && key in index
      modifies this`order, Elements()
      ensures Valid() && Elements() == old(Elements())
      ensures Keys() == Touched(old(Keys()), key, max)
      ensures Contents() == old(Contents())[key := hash]
    {
      hide Without;
      var e := index[key];
      e.hash := hash;
      assert forall k :: k in index && k != key ==> index[k] != e;
      assert Contents() == old(Contents())[key := hash];
      MoveToFront(e);
    }

    method Push(key: K, hash: Bytes)
      requires Valid() && key !in index
      modifies this
      ensures Valid() && fresh(Elements() - old(Elements()))
      ensures Keys() == Touched(old(Keys()), key, max)
      ensures Refreshed(Contents(), old(Contents()), key, hash, max == 0)
    {
      hide Bijection, Without, KeysOf;
      PushFront(key, hash);
      if max > 0 && |order| > max {
        DropOldest(key);
      }
    }

    method PushFront(key: K, hash: Bytes)
      requires Bijection(order, index) && key !in index
      modifies this
      ensures Bijection(order, index) && |order| == old(|order|) + 1 && order[0].key == key
      ensures fresh(Elements() - old(Elements())) && Contents() == old(Contents())[key := hash]
      ensures Keys() == [key] + Without(old(Keys()), key)
    {
      hide Bijection, Without, KeysOf;
      var e := new Element(key, hash);
      PushKeepsBijection(order, index, e);
      PushKeys(order, index, e);
      order := [e] + order;
      index := index[key := e];
    }

    method DropOldest(ghost newest: K)
      requires Bijection(order, index) && |order| > 1 && order[0].key == newest
      modifies this
      ensures Bijection(order, index) && |order| == old(|order|) - 1 && Elements() <= old(Elements())
      ensures Keys() == old(Keys())[..old(|order|) - 1] && newest in index
      ensures forall k :: k in Contents() ==> k in old(Contents()) && Contents()[k] == old(Contents())[k]
      ensures newest in old(Contents()) && newest in Contents()
    {
      hide Bijection, KeysOf;
      DropKeepsBijection(order, index);
      assert DistinctKeys(order) && Indexed(order, index) by { BijectionDistinct(order, index); }
      var oldest := order[|order| - 1];
      assert order[0].key != oldest.key;
      order := order[..|order| - 1];
      index := map k | k in index && k != oldest.key :: index[k];
    }
  }
}
