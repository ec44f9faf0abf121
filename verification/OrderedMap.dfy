/** `BTreeMap<String, V>`: the entries of an ordered map, in the order of iteration. */
module OrderedMap {
  import opened Sorting
  import opened Wrappers

  type Entries<V> = seq<(string, V)>

  predicate Before(a: string, b: string) {
    StrLe(a, b) && a != b
  }

  predicate Ordered<V>(m: Entries<V>) {
    forall i, j :: 0 <= i < j < |m| ==> Before(m[i].0, m[j].0)
  }

  function Lookup<V>(m: Entries<V>, key: string): Option<V> {
    if m == [] then None
    else if m[0].0 == key then Some(m[0].1)
    else Lookup(m[1..], key)
  }

  /** Replaces the value of a key that is present, and adds an entry in order otherwise. */
  function Put<V>(m: Entries<V>, key: string, value: V): Entries<V> {
    if m == [] then [(key, value)]
    else if m[0].0 == key then [(key, value)] + m[1..]
    else if Before(key, m[0].0) then [(key, value)] + m
    else [m[0]] + Put(m[1..], key, value)
  }

  lemma {:induction false} LookupIsMember<V>(m: Entries<V>, key: string)
    ensures Lookup(m, key).Some? ==> (key, Lookup(m, key).value) in m
    ensures Lookup(m, key).Some? <==> exists i :: 0 <= i < |m| && m[i].0 == key
  {
    if m != [] {
      LookupIsMember(m[1..], key);
      assert forall i :: 1 <= i < |m| ==> m[i] == m[1..][i - 1];
      assert forall i :: 0 <= i < |m[1..]| ==> m[1..][i] == m[i + 1];
    }
  }

  lemma {:induction false} LookupEntry<V>(m: Entries<V>, i: nat)
    requires Ordered(m) && i < |m|
    ensures Lookup(m, m[i].0) == Some(m[i].1)
  {
    if i > 0 {
      assert Before(m[0].0, m[i].0);
      LookupEntry(m[1..], i - 1);
    }
  }

  lemma {:induction false} PutLookup<V>(m: Entries<V>, key: string, value: V, other: string)
    ensures Lookup(Put(m, key, value), other) == if other == key then Some(value) else Lookup(m, other)
  {
    if m != [] {
      PutLookup(m[1..], key, value, other);
    }
  }

  lemma {:induction false} PutKeys<V>(m: Entries<V>, key: string, value: V, i: nat)
    requires i < |Put(m, key, value)|
    ensures Put(m, key, value)[i].0 == key || exists j :: 0 <= j < |m| && m[j].0 == Put(m, key, value)[i].0
  {
    if m == [] {
    } else if m[0].0 == key {
      assert i > 0 ==> m[i].0 == Put(m, key, value)[i].0;
    } else if Before(key, m[0].0) {
      assert i > 0 ==> m[i - 1].0 == Put(m, key, value)[i].0;
    } else if i > 0 {
      PutKeys(m[1..], key, value, i - 1);
      if Put(m, key, value)[i].0 != key {
        var j :| 0 <= j < |m[1..]| && m[1..][j].0 == Put(m[1..], key, value)[i - 1].0;
        assert m[j + 1].0 == Put(m, key, value)[i].0;
      }
    }
  }

  lemma BeforeIsTransitive(a: string, b: string, c: string)
    requires Before(a, b) && Before(b, c)
    ensures Before(a, c)
  {
    StrIsTotalOrder();
  }

  lemma BeforeIsTotal(a: string, b: string)
    requires a != b && !Before(a, b)
    ensures Before(b, a)
  {
    StrIsTotalOrder();
  }

  lemma {:induction false} PutOrdered<V>(m: Entries<V>, key: string, value: V)
    requires Ordered(m)
    ensures Ordered(Put(m, key, value))
  {
    if m == [] || m[0].0 == key {
    } else if Before(key, m[0].0) {
      forall i | 1 <= i < |m|
        ensures Before(key, m[i].0)
      {
        BeforeIsTransitive(key, m[0].0, m[i].0);
      }
    } else {
      PutOrdered(m[1..], key, value);
      BeforeIsTotal(key, m[0].0);
      var rest := Put(m[1..], key, value);
      forall i | 0 <= i < |rest|
        ensures Before(m[0].0, rest[i].0)
      {
        PutKeys(m[1..], key, value, i);
      }
    }
  }

  function NonEmpty<V>(values: seq<V>): Option<seq<V>> {
    if values == [] then None else Some(values)
  }

  /** `entry(key).or_default().push(value)`. */
  function Append<V>(m: Entries<seq<V>>, key: string, value: V): Entries<seq<V>> {
    var present := Lookup(m, key);
    Put(m, key, (if present.None? then [] else present.value) + [value])
  }

  lemma AppendLookup<V>(m: Entries<seq<V>>, key: string, value: V)
    requires Ordered(m)
    ensures Ordered(Append(m, key, value))
    ensures Lookup(Append(m, key, value), key) ==
      Some((if Lookup(m, key).None? then [] else Lookup(m, key).value) + [value])
    ensures forall other :: other != key ==> Lookup(Append(m, key, value), other) == Lookup(m, other)
  {
    var values := (if Lookup(m, key).None? then [] else Lookup(m, key).value) + [value];
    PutOrdered(m, key, values);
    forall other {
      PutLookup(m, key, values, other);
    }
  }

  /** Two ordered maps that answer every lookup alike are the same sequence of entries. */
  lemma {:induction false} Extensional<V>(a: Entries<V>, b: Entries<V>)
    requires Ordered(a) && Ordered(b)
    requires forall k :: Lookup(a, k) == Lookup(b, k)
    ensures a == b
  {
    StrIsTotalOrder();
    if a == [] {
      if b != [] {
        LookupEntry(b, 0);
        assert false;
      }
    } else {
      var k := a[0].0;
      assert Lookup(a, k) == Lookup(b, k);
      LookupIsMember(b, k);
      var l := b[0].0;
      assert Lookup(a, l) == Lookup(b, l);
      LookupIsMember(a, l);
      var i :| 0 <= i < |b| && b[i].0 == k;
      var j :| 0 <= j < |a| && a[j].0 == l;
      assert k == l;
      forall x
        ensures Lookup(a[1..], x) == Lookup(b[1..], x)
      {
        assert Lookup(a, x) == Lookup(b, x);
        LookupIsMember(a[1..], x);
        LookupIsMember(b[1..], x);
      }
      Extensional(a[1..], b[1..]);
      assert a == [a[0]] + a[1..] && b == [b[0]] + b[1..];
    }
  }
}
