/**
  The equivalence table SplitBlobMask merges provisional labels in: key k
  (1-based) is stored at values[k - 1] and points at a key no larger than
  itself, so following the pointers always reaches a root (a key pointing at
  itself) at or below the key it started from.
*/
module SpecializedDataStructures {

  /** The table invariant: every key 1 .. |t| points at a key in 1 .. itself (key k is entry k - 1). */
  ghost predicate Forest(t: seq<int>)
  {
    forall i :: 0 <= i < |t| ==> 1 <= t[i] <= i + 1
  }

  /** The root reached from key k by following the table. */
  ghost function Root(t: seq<int>, k: int): (r: int)
    requires Forest(t) && 1 <= k <= |t|
    ensures 1 <= r <= k && t[r - 1] == r
    decreases k
  {
    if t[k - 1] == k then k else Root(t, t[k - 1])
  }

  /** Two lookups that each keep every root keep them together. */
  lemma SameRootsTrans(t0: seq<int>, t1: seq<int>, t2: seq<int>)
    requires Forest(t0) && Forest(t1) && Forest(t2) && |t1| == |t0| && |t2| == |t0|
    requires forall k :: 1 <= k <= |t0| ==> Root(t1, k) == Root(t0, k)
    requires forall k :: 1 <= k <= |t0| ==> Root(t2, k) == Root(t1, k)
    ensures forall k :: 1 <= k <= |t0| ==> Root(t2, k) == Root(t0, k)
  {
  }

  /** The keys followed from k before its root is reached (the root itself excluded). */
  ghost function Path(t: seq<int>, k: int): (p: seq<int>)
    requires Forest(t) && 1 <= k <= |t|
    decreases k
  {
    if t[k - 1] == k then [] else [k] + Path(t, t[k - 1])
  }

  /** Every key on the path from k shares k's root and is not itself a root; k is on it unless k is a root. */
  lemma {:induction false} PathFacts(t: seq<int>, k: int)
    requires Forest(t) && 1 <= k <= |t|
    ensures forall p :: p in Path(t, k) ==> 1 <= p <= k && t[p - 1] != p && Root(t, p) == Root(t, k)
    ensures k !in Path(t, k) <==> t[k - 1] == k
    decreases k
  {
    if t[k - 1] != k {
      PathFacts(t, t[k - 1]);
    }
  }

  /** Pointing one key directly at its own root changes no key's root. */
  lemma {:induction false} RedirectKeepsRoots(t: seq<int>, p: int, k: int)
    requires Forest(t) && 1 <= p <= |t| && 1 <= k <= |t|
    ensures Forest(t[p - 1 := Root(t, p)])
    ensures Root(t[p - 1 := Root(t, p)], k) == Root(t, k)
    decreases k
  {
    var v := Root(t, p);
    var t' := t[p - 1 := v];
    assert Forest(t') by {
      forall i | 0 <= i < |t'|
        ensures 1 <= t'[i] <= i + 1
      {
        if i != p - 1 {
          assert t'[i] == t[i];
        }
      }
    }
    if k == p {
      if v != p {
        assert t'[v - 1] == v;
      }
    } else if t[k - 1] != k {
      RedirectKeepsRoots(t, p, t[k - 1]);
    }
  }

  /** Linking root a under the smaller root b moves exactly the keys of a's class to b. */
  lemma {:induction false} LinkRoots(t: seq<int>, a: int, b: int, k: int)
    requires Forest(t) && 1 <= b < a <= |t| && t[a - 1] == a && t[b - 1] == b && 1 <= k <= |t|
    ensures Forest(t[a - 1 := b])
    ensures Root(t[a - 1 := b], k) == if Root(t, k) == a then b else Root(t, k)
    decreases k
  {
    var t' := t[a - 1 := b];
    assert Forest(t') by {
      forall i | 0 <= i < |t'|
        ensures 1 <= t'[i] <= i + 1
      {
        if i != a - 1 {
          assert t'[i] == t[i];
        }
      }
    }
    if k == a {
      assert t'[b - 1] == b;
    } else if t[k - 1] != k {
      LinkRoots(t, a, b, t[k - 1]);
    }
  }

  /** Appending a new key that is its own root leaves every old key's root alone. */
  lemma {:induction false} ExtendKeepsRoots(t: seq<int>, k: int)
    requires Forest(t) && 1 <= k <= |t|
    ensures Forest(t + [|t| + 1])
    ensures Root(t + [|t| + 1], k) == Root(t, k)
    decreases k
  {
    var t' := t + [|t| + 1];
    assert forall i :: 0 <= i < |t| ==> t'[i] == t[i];
    if t[k - 1] != k {
      ExtendKeepsRoots(t, t[k - 1]);
    }
  }

  /** After compressing key's path, the keys up to key point at their roots, given that those before it did. */
  lemma CompressedPath(t: seq<int>, t1: seq<int>, key: int, root: int)
    requires Forest(t) && |t| == |t1| && 1 <= key <= |t|
    requires root == Root(t, key) && t1[key - 1] == root
    requires forall i :: 0 <= i < |t| ==> t1[i] == if i + 1 in Path(t, key) then root else t[i]
    requires forall i :: 0 <= i < key - 1 ==> t[i] == Root(t, i + 1)
    ensures forall i :: 0 <= i < key ==> t1[i] == Root(t, i + 1)
  {
    forall i | 0 <= i < key - 1
      ensures t1[i] == Root(t, i + 1)
    {
      if i + 1 in Path(t, key) {
        PathFacts(t, key);
      }
    }
  }

  /**
    The same compression step seen from an earlier table t0 with the same
    roots as t: the key's root, every root, and the entries up to key are
    those of t0.
  */
  lemma CompressedRoots(t: seq<int>, t0: seq<int>, t1: seq<int>, key: int, root: int)
    requires Forest(t) && Forest(t0) && Forest(t1) && |t| == |t0| == |t1| && 1 <= key <= |t|
    requires forall k :: 1 <= k <= |t| ==> Root(t, k) == Root(t0, k)
    requires forall k :: 1 <= k <= |t| ==> Root(t1, k) == Root(t, k)
    requires forall i :: 0 <= i < key - 1 ==> t[i] == Root(t0, i + 1)
    requires root == Root(t, key) && t1[key - 1] == root
    requires forall i :: 0 <= i < |t| ==> t1[i] == if i + 1 in Path(t, key) then root else t[i]
    ensures root == Root(t0, key)
    ensures forall k :: 1 <= k <= |t| ==> Root(t1, k) == Root(t0, k)
    ensures forall i :: 0 <= i < key ==> t1[i] == Root(t0, i + 1)
  {
    forall i | 0 <= i < key - 1
      ensures t[i] == Root(t, i + 1)
    {
      assert Root(t, i + 1) == Root(t0, i + 1);
    }
    CompressedPath(t, t1, key, root);
    forall i | 0 <= i < key
      ensures t1[i] == Root(t0, i + 1)
    {
      assert Root(t, i + 1) == Root(t0, i + 1);
    }
  }

  /** t after writing v into the entry of each key of ps, in order. */
  ghost function Redirected(t: seq<int>, ps: seq<int>, v: int): (r: seq<int>)
    requires forall j :: 0 <= j < |ps| ==> 1 <= ps[j] <= |t|
    ensures |r| == |t|
  {
    if ps == [] then t else Redirected(t, ps[..|ps| - 1], v)[ps[|ps| - 1] - 1 := v]
  }

  /** Writing v for each key of ps changes exactly the entries of those keys. */
  lemma {:induction false} RedirectedEntries(t: seq<int>, ps: seq<int>, v: int)
    requires forall j :: 0 <= j < |ps| ==> 1 <= ps[j] <= |t|
    ensures forall i :: 0 <= i < |t| ==> Redirected(t, ps, v)[i] == if i + 1 in ps then v else t[i]
    decreases |ps|
  {
    if ps != [] {
      var front := ps[..|ps| - 1];
      var p := ps[|ps| - 1];
      assert ps == front + [p];
      RedirectedEntries(t, front, v);
      forall i | 0 <= i < |t|
        ensures Redirected(t, ps, v)[i] == if i + 1 in ps then v else t[i]
      {
        assert i + 1 in ps <==> i + 1 in front || i + 1 == p;
      }
    }
  }

  /** Pointing keys that all have root v straight at v changes only their entries, and no key's root. */
  lemma RedirectedFacts(t: seq<int>, ps: seq<int>, v: int)
    requires Forest(t)
    requires forall j :: 0 <= j < |ps| ==> 1 <= ps[j] <= |t| && Root(t, ps[j]) == v
    ensures Forest(Redirected(t, ps, v))
    ensures forall i :: 0 <= i < |t| ==> Redirected(t, ps, v)[i] == if i + 1 in ps then v else t[i]
    ensures forall k :: 1 <= k <= |t| ==> Root(Redirected(t, ps, v), k) == Root(t, k)
  {
    RedirectedEntries(t, ps, v);
    RedirectedRoots(t, ps, v);
  }

  /** Pointing keys that all have root v straight at v keeps a forest with every root as it was. */
  lemma {:induction false} RedirectedRoots(t: seq<int>, ps: seq<int>, v: int)
    requires Forest(t)
    requires forall j :: 0 <= j < |ps| ==> 1 <= ps[j] <= |t| && Root(t, ps[j]) == v
    ensures Forest(Redirected(t, ps, v))
    ensures forall k :: 1 <= k <= |t| ==> Root(Redirected(t, ps, v), k) == Root(t, k)
    decreases |ps|
  {
    if ps != [] {
      var front := ps[..|ps| - 1];
      var p := ps[|ps| - 1];
      assert forall j :: 0 <= j < |front| ==> front[j] == ps[j];
      RedirectedRoots(t, front, v);
      var before := Redirected(t, front, v);
      var after := Redirected(t, ps, v);
      assert after == before[p - 1 := v];
      assert Root(before, p) == v;
      RedirectKeepsRoots(before, p, 1);
      forall k | 1 <= k <= |t|
        ensures Root(after, k) == Root(t, k)
      {
        RedirectKeepsRoots(before, p, k);
      }
    }
  }

  class SplitMaskMergerList {
    var capacity: int
    const capacityIncrement: int
    var current: int
    var values: array<int>

    ghost predicate Valid()
      reads this, values
    {
      0 <= current <= capacity == values.Length && Forest(values[..current])
    }

    /** The table as it stands: key k's entry is at position k - 1. */
    ghost function Table(): seq<int>
      reads this, values
      requires Valid()
    {
      values[..current]
    }

    /** `new int[capacity]` throws on a negative capacity. */
    constructor (capacity: int, capacityIncrement: int)
      requires 0 <= capacity
      ensures Valid() && fresh(values)
      ensures this.capacity == capacity && this.capacityIncrement == capacityIncrement && current == 0
    {
      this.capacity := capacity;
      this.capacityIncrement := capacityIncrement;
      current := 0;
      values := new int[capacity];
    }

    /** The largest key handed out so far: every key up to it has an entry that satisfies the invariant. */
    function HighestKey(): (k: int)
      reads this, values
      requires Valid()
      ensures 0 <= k <= values.Length && Forest(values[..k])
    {
      current
    }

    /**
      Resolves key to its root and compresses the followed path: every key on
      it now points straight at the root; no other entry and no key's root changes.
    */
    method GetValue(key: int) returns (root: int)
      requires Valid() && 1 <= key <= current
      modifies values
      ensures Valid()
      ensures root == Root(old(Table()), key)
      ensures 1 <= root <= key && Table()[root - 1] == root
      ensures Table()[key - 1] == root
      ensures forall i :: 0 <= i < current ==>
                Table()[i] == if i + 1 in Path(old(Table()), key) then root else old(Table())[i]
      ensures forall k :: 1 <= k <= current ==> Root(Table(), k) == Root(old(Table()), k)
    {
      ghost var t := values[..current];
      PathFacts(t, key);
      var value := values[key - 1];
      if value == key {
        assert values[..current] == t;
        assert Path(t, key) == [];
        return value;
      }
      var keysToUpdate;
      root, keysToUpdate := FollowPath(key);
      assert key in keysToUpdate;
      PointAtRoot(keysToUpdate, root, t);
      assert root !in keysToUpdate;
    }

    /** The first half of GetValue: follows the table from key to its root, collecting the keys passed. */
    method FollowPath(key: int) returns (root: int, keysToUpdate: seq<int>)
      requires Valid() && 1 <= key <= current
      ensures root == Root(Table(), key) && keysToUpdate == Path(Table(), key)
      ensures forall j :: 0 <= j < |keysToUpdate| ==> 1 <= keysToUpdate[j] <= current && Root(Table(), keysToUpdate[j]) == root
    {
      ghost var t := values[..current];
      var k := key;
      var value := values[k - 1];
      keysToUpdate := [];
      while value != k
        invariant 1 <= k <= current && value == values[k - 1]
        invariant keysToUpdate + Path(t, k) == Path(t, key)
        invariant Root(t, k) == Root(t, key)
        decreases k
      {
        assert Path(t, k) == [k] + Path(t, value);
        assert keysToUpdate + [k] + Path(t, value) == keysToUpdate + Path(t, k);
        keysToUpdate := keysToUpdate + [k];
        k := value;
        value := values[k - 1];
      }
      root := value;
      PathFacts(t, key);
      assert forall j :: 0 <= j < |keysToUpdate| ==> keysToUpdate[j] in keysToUpdate;
    }

    /** The second half of GetValue: writes root into the entry of every key in keys. */
    method PointAtRoot(keys: seq<int>, root: int, ghost t: seq<int>)
      requires Valid() && values[..current] == t
      requires forall j :: 0 <= j < |keys| ==> 1 <= keys[j] <= current && Root(t, keys[j]) == root
      modifies values
      ensures Valid()
      ensures forall i :: 0 <= i < current ==> Table()[i] == if i + 1 in keys then root else t[i]
      ensures forall k :: 1 <= k <= current ==> Root(Table(), k) == Root(t, k)
    {
      var n := 0;
      while n < |keys|
        invariant 0 <= n <= |keys| && current == |t| && current <= values.Length
        invariant values[..current] == Redirected(t, keys[..n], root)
      {
        var p := keys[n];
        ghost var before := values[..current];
        values[p - 1] := root;
        assert values[..current] == before[p - 1 := root];
        assert keys[..n + 1][..n] == keys[..n];
        n := n + 1;
      }
      assert keys[..n] == keys;
      RedirectedFacts(t, keys, root);
    }

    /** The entry of key, read without following the table. */
    function GetValueRawAccess(key: int): (v: int)
      reads this, values
      requires Valid() && 1 <= key <= current
      ensures 1 <= v <= key && v == Table()[key - 1]
    {
      values[key - 1]
    }

    /** Points key at value; the caller guarantees 1 <= value <= key, which keeps the invariant. */
    method SetValue(key: int, value: int)
      requires Valid() && 1 <= key <= current && 1 <= value <= key
      modifies values
      ensures Valid()
      ensures Table() == old(Table())[key - 1 := value]
    {
      values[key - 1] := value;
      assert values[..current] == old(values[..current])[key - 1 := value];
    }

    /** Hands out key HighestKey + 1 as a new root of its own, growing the array when it is full. */
    method GetNext() returns (next: int)
      requires Valid() && (current < capacity || 0 < capacityIncrement)
      modifies this, values
      ensures Valid()
      ensures next == old(current) + 1 && current == next
      ensures Table() == old(Table()) + [next]
      ensures capacity == if old(current) == old(capacity) then old(capacity) + capacityIncrement else old(capacity)
      ensures values == old(values) || fresh(values)
    {
      if current == capacity {
        Resize();
      }
      ghost var t := values[..current];
      current := current + 1;
      values[current - 1] := current;
      next := current;
      ghost var t' := values[..current];
      assert t' == t + [current];
      assert Forest(t') by {
        forall i | 0 <= i < |t'|
          ensures 1 <= t'[i] <= i + 1
        {
          if i < current - 1 {
            assert t'[i] == t[i];
          }
        }
      }
    }

    /** Replaces the array by one capacityIncrement entries longer holding the same keys 1 .. current. */
    method Resize()
      requires Valid() && current <= capacity + capacityIncrement
      modifies this
      ensures Valid() && fresh(values) && current == old(current)
      ensures capacity == old(capacity) + capacityIncrement
      ensures Table() == old(Table())
    {
      var newCapacity := capacity + capacityIncrement;
      var newValues := new int[newCapacity];
      forall i | 0 <= i < current {
        newValues[i] := values[i];
      }
      assert newValues[..current] == values[..current];
      capacity := newCapacity;
      values := newValues;
    }
  }
}
