/** JavaScript's `Map` keyed by integer ids, as far as the issue cache uses it: an insertion-ordered
    list of entries in which each key occurs at most once. `get` finds the
    entry of a key, `set` replaces an existing entry in place or appends a new
    one, `new Map(pairs)` inserts the pairs one by one, and `values()` lists
    the values in insertion order. */
module OrderedMap {
  import opened Wrappers

  /** The entries of a map, in insertion order. */
  type Entries<V> = seq<(int, V)>

  /** The keys of the entries, in insertion order. */
  function Keys<V>(m: Entries<V>): (ks: seq<int>)
    ensures |ks| == |m|
    ensures forall j :: 0 <= j < |m| ==> ks[j] == m[j].0
  {
    seq(|m|, j requires 0 <= j < |m| => m[j].0)
  }

  /** The values of the entries, in insertion order (`Array.from(m.values())`). */
  function Values<V>(m: Entries<V>): (vs: seq<V>)
    ensures |vs| == |m|
    ensures forall j :: 0 <= j < |m| ==> vs[j] == m[j].1
  {
    seq(|m|, j requires 0 <= j < |m| => m[j].1)
  }

  /** No key occurs twice: what every `Map` satisfies. */
  predicate DistinctKeys<V>(m: Entries<V>)
  {
    forall i, j :: 0 <= i < j < |m| ==> m[i].0 != m[j].0
  }

  /** Position of the first entry with key `k`, if any. */
  function IndexOf<V>(m: Entries<V>, k: int): (r: Option<nat>)
    ensures r.Some? ==> r.value < |m| && m[r.value].0 == k
    ensures r.Some? ==> forall j :: 0 <= j < r.value ==> m[j].0 != k
    ensures r.None? <==> k !in Keys(m)
  {
    if |m| == 0 then None
    else if m[0].0 == k then Some(0)
    else
      match IndexOf(m[1..], k)
      case None => None
      case Some(i) => Some(i + 1)
  }

  /** `m.get(k)`: the value stored under `k`, or nothing. */
  function Get<V>(m: Entries<V>, k: int): (r: Option<V>)
    ensures r.None? <==> k !in Keys(m)
    ensures r.Some? ==> (k, r.value) in m
  {
    match IndexOf(m, k)
    case None => None
    case Some(i) => Some(m[i].1)
  }

  /** `m.set(k, v)`: an existing entry for `k` is overwritten where it stands,
      otherwise a new entry is appended after all others. */
  function Put<V>(m: Entries<V>, k: int, v: V): (r: Entries<V>)
    ensures Get(r, k) == Some(v)
    ensures forall k' :: k' != k ==> Get(r, k') == Get(m, k')
    ensures k in Keys(m) ==> Keys(r) == Keys(m)
    ensures k in Keys(m) ==> forall j :: 0 <= j < |m| && m[j].0 != k ==> r[j] == m[j]
    ensures k !in Keys(m) ==> r == m + [(k, v)]
    ensures DistinctKeys(m) ==> DistinctKeys(r)
    ensures forall e :: e in r ==> e in m || e == (k, v)
  {
    match IndexOf(m, k)
    case None =>
      GetAfterWrite(m, k, v, |m|, m + [(k, v)]);
      assert Keys(m + [(k, v)]) == Keys(m) + [k];
      m + [(k, v)]
    case Some(i) =>
      GetAfterWrite(m, k, v, i, m[i := (k, v)]);
      assert Keys(m[i := (k, v)]) == Keys(m);
      m[i := (k, v)]
  }

  /** Writing `(k, v)` at the first position of `k` (or appending it when `k`
      is absent) makes `get` answer `v` for `k` and leaves every other key's
      answer alone. */
  lemma GetAfterWrite<V>(m: Entries<V>, k: int, v: V, i: nat, r: Entries<V>)
    requires i <= |m|
    requires i < |m| ==> IndexOf(m, k) == Some(i) && r == m[i := (k, v)]
    requires i == |m| ==> k !in Keys(m) && r == m + [(k, v)]
    ensures Get(r, k) == Some(v)
    ensures forall k' :: k' != k ==> Get(r, k') == Get(m, k')
  {
    FirstIndex(r, k, i);
    forall k' | k' != k ensures Get(r, k') == Get(m, k') {
      OtherAfterWrite(m, k, v, i, r, k');
    }
  }

  /** The part of `GetAfterWrite` about one other key `k'`. */
  lemma OtherAfterWrite<V>(m: Entries<V>, k: int, v: V, i: nat, r: Entries<V>, k': int)
    requires i <= |m| && k' != k
    requires i < |m| ==> IndexOf(m, k) == Some(i) && r == m[i := (k, v)]
    requires i == |m| ==> k !in Keys(m) && r == m + [(k, v)]
    ensures Get(r, k') == Get(m, k')
  {
    var o := IndexOf(m, k');
    if o.Some? {
      FirstIndex(r, k', o.value);
    } else {
      assert k' !in Keys(r) by {
        forall j | 0 <= j < |r| ensures r[j].0 != k' {
          if j < |m| {
            assert Keys(m)[j] == m[j].0;
          }
        }
      }
    }
  }

  /** `IndexOf` is the first position holding the key. */
  lemma FirstIndex<V>(m: Entries<V>, k: int, i: nat)
    requires i < |m| && m[i].0 == k
    requires forall j :: 0 <= j < i ==> m[j].0 != k
    ensures IndexOf(m, k) == Some(i)
  {
    var r := IndexOf(m, k);
    assert Keys(m)[i] == k;
    assert r.value <= i;
  }

  /** The value of the last pair in `xs` whose key is `k`, if any. */
  function LastValue<V>(xs: seq<(int, V)>, k: int): Option<V>
  {
    if |xs| == 0 then None
    else if xs[|xs| - 1].0 == k then Some(xs[|xs| - 1].1)
    else LastValue(xs[..|xs| - 1], k)
  }

  /** `new Map(xs)`: the pairs inserted one after another, so a repeated key
      keeps the position of its first occurrence (`FromPairsFirstOrder`) and
      the value of its last. */
  function FromPairs<V>(xs: seq<(int, V)>): (r: Entries<V>)
    ensures DistinctKeys(r)
    ensures forall k :: Get(r, k) == LastValue(xs, k)
  {
    if |xs| == 0 then []
    else Put(FromPairs(xs[..|xs| - 1]), xs[|xs| - 1].0, xs[|xs| - 1].1)
  }

  /** Building a map keeps exactly the keys of the pairs, and every entry it
      keeps is one of the pairs. */
  lemma {:induction false} FromPairsContents<V>(xs: seq<(int, V)>)
    ensures forall k :: k in Keys(FromPairs(xs)) <==> k in Keys(xs)
    ensures forall e :: e in FromPairs(xs) ==> e in xs
  {
    if |xs| > 0 {
      var prefix := xs[..|xs| - 1];
      var last := xs[|xs| - 1];
      FromPairsContents(prefix);
      var m := FromPairs(prefix);
      var r := FromPairs(xs);
      assert r == Put(m, last.0, last.1);
      assert forall k :: k in Keys(r) <==> k in Keys(xs) by {
        KeysOfPrefix(xs);
        forall k ensures k in Keys(r) <==> k in Keys(m) || k == last.0 {
          PutKeys(m, last.0, last.1, k);
        }
      }
      assert forall e :: e in r ==> e in xs by {
        forall e | e in r ensures e in xs {
          assert e in m || e == last;
        }
      }
    }
  }

  /** The keys of `r` come in the order of their first occurrence in `xs`. */
  predicate FirstOrdered<V>(xs: seq<(int, V)>, r: Entries<V>)
  {
    forall a, b :: 0 <= a < b < |r| ==> FirstsInOrder(xs, r[a].0, r[b].0)
  }

  /** Both keys occur in `xs`, and `k1` occurs first before `k2` does. */
  predicate FirstsInOrder<V>(xs: seq<(int, V)>, k1: int, k2: int)
  {
    && IndexOf(xs, k1).Some? && IndexOf(xs, k2).Some?
    && IndexOf(xs, k1).value < IndexOf(xs, k2).value
  }

  /** `new Map(xs)` lists its keys in the order in which they first occur
      in `xs`. */
  lemma {:induction false} FromPairsFirstOrder<V>(xs: seq<(int, V)>)
    ensures FirstOrdered(xs, FromPairs(xs))
  {
    if |xs| > 0 {
      FromPairsFirstOrder(xs[..|xs| - 1]);
      FirstOrderStep(xs);
    }
  }

  /** The inductive step of `FromPairsFirstOrder`. */
  lemma FirstOrderStep<V>(xs: seq<(int, V)>)
    requires |xs| > 0 && FirstOrdered(xs[..|xs| - 1], FromPairs(xs[..|xs| - 1]))
    ensures FirstOrdered(xs, FromPairs(xs))
  {
    var r := FromPairs(xs);
    forall a, b | 0 <= a < b < |r| ensures FirstsInOrder(xs, r[a].0, r[b].0) {
      FirstOrderPair(xs, a, b);
    }
  }

  /** One pair of positions of the inductive step of `FromPairsFirstOrder`. */
  lemma FirstOrderPair<V>(xs: seq<(int, V)>, a: nat, b: nat)
    requires |xs| > 0 && FirstOrdered(xs[..|xs| - 1], FromPairs(xs[..|xs| - 1]))
    requires a < b < |FromPairs(xs)|
    ensures FirstsInOrder(xs, FromPairs(xs)[a].0, FromPairs(xs)[b].0)
  {
    var prefix := xs[..|xs| - 1];
    var last := xs[|xs| - 1];
    FromPairsContents(prefix);
    var m := FromPairs(prefix);
    var r := FromPairs(xs);
    assert r == Put(m, last.0, last.1);
    forall j | 0 <= j < |m| ensures m[j].0 in Keys(prefix) {
      assert Keys(m)[j] == m[j].0;
    }
    if last.0 in Keys(m) {
      OrderWhenReplaced(xs, m, r, a, b);
    } else {
      OrderWhenAppended(xs, m, r, a, b);
    }
  }

  /** The step when the last pair's key was present: the keys stay put. */
  lemma OrderWhenReplaced<V>(xs: seq<(int, V)>, m: Entries<V>, r: Entries<V>, a: nat, b: nat)
    requires |xs| > 0 && FirstOrdered(xs[..|xs| - 1], m)
    requires forall j :: 0 <= j < |m| ==> m[j].0 in Keys(xs[..|xs| - 1])
    requires Keys(r) == Keys(m) && a < b < |r|
    ensures FirstsInOrder(xs, r[a].0, r[b].0)
  {
    SameKeyAt(m, r, a);
    SameKeyAt(m, r, b);
    PrefixIndexOf(xs, m[a].0);
    PrefixIndexOf(xs, m[b].0);
  }

  /** The step when the last pair's key was new: it is appended, and it
      occurs in `xs` after every key of the prefix. */
  lemma OrderWhenAppended<V>(xs: seq<(int, V)>, m: Entries<V>, r: Entries<V>, a: nat, b: nat)
    requires |xs| > 0 && FirstOrdered(xs[..|xs| - 1], m)
    requires forall j :: 0 <= j < |m| ==> m[j].0 in Keys(xs[..|xs| - 1])
    requires xs[|xs| - 1].0 !in Keys(xs[..|xs| - 1])
    requires r == m + [xs[|xs| - 1]] && a < b < |r|
    ensures FirstsInOrder(xs, r[a].0, r[b].0)
  {
    assert r[a] == m[a];
    PrefixIndexOf(xs, m[a].0);
    if b < |m| {
      assert r[b] == m[b];
      PrefixIndexOf(xs, m[b].0);
    } else {
      PrefixLacks(xs);
      FirstIndex(xs, xs[|xs| - 1].0, |xs| - 1);
    }
  }

  /** A key absent from the prefix occurs at no earlier position. */
  lemma PrefixLacks<V>(xs: seq<(int, V)>)
    requires |xs| > 0 && xs[|xs| - 1].0 !in Keys(xs[..|xs| - 1])
    ensures forall j :: 0 <= j < |xs| - 1 ==> xs[j].0 != xs[|xs| - 1].0
  {
    var prefix := xs[..|xs| - 1];
    forall j | 0 <= j < |xs| - 1 ensures xs[j].0 != xs[|xs| - 1].0 {
      assert Keys(prefix)[j] == xs[j].0;
    }
  }

  /** Two lists with the same keys have the same key at each position. */
  lemma SameKeyAt<V>(m: Entries<V>, r: Entries<V>, a: nat)
    requires Keys(r) == Keys(m) && a < |m|
    ensures a < |r| && r[a].0 == m[a].0 && m[a].0 in Keys(m)
  {
    assert Keys(r)[a] == Keys(m)[a];
  }

  /** A key that occurs before the last pair is first found where it is
      first found in the prefix. */
  lemma PrefixIndexOf<V>(xs: seq<(int, V)>, k: int)
    requires |xs| > 0 && k in Keys(xs[..|xs| - 1])
    ensures IndexOf(xs, k).Some? && IndexOf(xs, k) == IndexOf(xs[..|xs| - 1], k)
    ensures IndexOf(xs, k).value < |xs| - 1
  {
    var prefix := xs[..|xs| - 1];
    var i := IndexOf(prefix, k).value;
    forall j | 0 <= j < i ensures xs[j].0 != k {
      assert xs[j] == prefix[j];
    }
    FirstIndex(xs, k, i);
  }

  /** The keys of a list are the keys of all but its last entry, then the
      last key. */
  lemma KeysOfPrefix<V>(xs: seq<(int, V)>)
    requires |xs| > 0
    ensures Keys(xs) == Keys(xs[..|xs| - 1]) + [xs[|xs| - 1].0]
  {
  }

  /** `set` adds its key to the keys present and no other. */
  lemma PutKeys<V>(m: Entries<V>, k: int, v: V, k': int)
    ensures k' in Keys(Put(m, k, v)) <==> k' in Keys(m) || k' == k
  {
    if k' != k {
      assert Get(Put(m, k, v), k') == Get(m, k');
    }
  }

  /** On a list without repeated keys, building the map changes nothing. */
  lemma {:induction false} FromDistinctPairs<V>(xs: seq<(int, V)>)
    requires DistinctKeys(xs)
    ensures FromPairs(xs) == xs
  {
    if |xs| > 0 {
      var prefix := xs[..|xs| - 1];
      DistinctPrefix(xs);
      FromDistinctPairs(prefix);
      assert prefix + [xs[|xs| - 1]] == xs;
    }
  }

  /** Dropping the last entry keeps the keys distinct, and the last key is
      not among the others. */
  lemma DistinctPrefix<V>(xs: seq<(int, V)>)
    requires DistinctKeys(xs) && |xs| > 0
    ensures DistinctKeys(xs[..|xs| - 1])
    ensures xs[|xs| - 1].0 !in Keys(xs[..|xs| - 1])
  {
    var prefix := xs[..|xs| - 1];
    forall j | 0 <= j < |prefix| ensures prefix[j].0 != xs[|xs| - 1].0 {
      assert xs[j].0 != xs[|xs| - 1].0;
    }
  }

  /** In a map, `get` answers `v` for `k` exactly when the entry `(k, v)` is present. */
  lemma GetIffEntry<V>(m: Entries<V>, k: int, v: V)
    requires DistinctKeys(m)
    ensures Get(m, k) == Some(v) <==> (k, v) in m
  {
    if (k, v) in m {
      var j :| 0 <= j < |m| && m[j] == (k, v);
      var i := IndexOf(m, k).value;
      assert i == j;
    }
  }
}
