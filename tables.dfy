/**
 * The registry's three capability tables share one shape: an outer format key, an
 * inner format key, and the ordered list of entries registered for that pair
 * (encoding -> input colorspace -> encoder specs; input colorspace -> output
 * colorspace -> csc specs; encoding -> input colorspace -> decoder entries).
 */
module Tables {

  type Table<V> = map<string, map<string, seq<V>>>

  /** One registration: the value stored under the pair (key1, key2). */
  datatype Entry<V> = Entry(key1: string, key2: string, value: V)

  /** The list stored under (k1, k2), empty when either level is missing. */
  function Lookup<V>(t: Table<V>, k1: string, k2: string): seq<V>
  {
    if k1 in t && k2 in t[k1] then t[k1][k2] else []
  }

  /** `d.get(k1, {})`: the inner mapping for an outer key, or an empty mapping; never fails. */
  function Inner<V>(t: Table<V>, k1: string): (r: map<string, seq<V>>)
    ensures r.Keys == (if k1 in t then t[k1].Keys else {})
    ensures forall k2 :: k2 in r ==> r[k2] == Lookup(t, k1, k2)
  {
    if k1 in t then t[k1] else map[]
  }

  /** The shape a table has when it is built only by `Add`: no empty inner mapping, no empty list. */
  ghost predicate NoEmpty<V>(t: Table<V>)
  {
    forall k1 :: k1 in t ==> NoEmptyRow(t[k1])
  }

  /** An inner mapping with at least one key and no empty list. */
  ghost predicate NoEmptyRow<V>(row: map<string, seq<V>>)
  {
    |row| > 0 && forall k2 :: k2 in row ==> |row[k2]| > 0
  }

  /** `t.setdefault(k1, {}).setdefault(k2, []).append(v)`. */
  function Add<V>(t: Table<V>, k1: string, k2: string, v: V): (r: Table<V>)
    ensures Lookup(r, k1, k2) == Lookup(t, k1, k2) + [v]
    ensures forall a, b :: a != k1 || b != k2 ==> Lookup(r, a, b) == Lookup(t, a, b)
  {
    var inner := Inner(t, k1);
    t[k1 := inner[k2 := Lookup(t, k1, k2) + [v]]]
  }

  /** An insert creates the missing levels: the outer key is offered afterwards and holds the inner key. */
  lemma AddKeys<V>(t: Table<V>, k1: string, k2: string, v: V)
    ensures Add(t, k1, k2, v).Keys == t.Keys + {k1}
    ensures k2 in Add(t, k1, k2, v)[k1]
  {
  }

  /** In a table built by inserts, the safe lookup is empty exactly for the keys the table does not offer. */
  lemma InnerEmptyIffAbsent<V>(t: Table<V>, k1: string)
    requires NoEmpty(t)
    ensures Inner(t, k1) == map[] <==> k1 !in t
  {
    if k1 in t {
      assert NoEmptyRow(t[k1]);
      var k2 :| k2 in t[k1];
      assert k2 in Inner(t, k1);
    }
  }

  lemma AddNoEmpty<V>(t: Table<V>, k1: string, k2: string, v: V)
    requires NoEmpty(t)
    ensures NoEmpty(Add(t, k1, k2, v))
  {
  }

  /** The result of applying `Add` for every entry of `es`, in order. */
  function AddAll<V>(t: Table<V>, es: seq<Entry<V>>): Table<V>
    decreases |es|
  {
    if es == [] then t else AddAll(Add(t, es[0].key1, es[0].key2, es[0].value), es[1..])
  }

  /** The values of the entries of `es` registered under (k1, k2), in order. */
  function Select<V>(es: seq<Entry<V>>, k1: string, k2: string): seq<V>
    decreases |es|
  {
    if es == [] then []
    else (if es[0].key1 == k1 && es[0].key2 == k2 then [es[0].value] else []) + Select(es[1..], k1, k2)
  }

  /** The outer keys mentioned by a list of entries. */
  function Keys1<V>(es: seq<Entry<V>>): set<string>
  {
    set i | 0 <= i < |es| :: es[i].key1
  }

  lemma {:induction false} SelectAppend<V>(a: seq<Entry<V>>, b: seq<Entry<V>>, k1: string, k2: string)
    ensures Select(a + b, k1, k2) == Select(a, k1, k2) + Select(b, k1, k2)
    decreases |a|
  {
    if a == [] {
      assert a + b == b;
    } else {
      assert (a + b)[0] == a[0] && (a + b)[1..] == a[1..] + b;
      SelectAppend(a[1..], b, k1, k2);
    }
  }

  /** Inserting a list of entries appends, under every key pair, exactly the values registered for that pair, in order. */
  lemma {:induction false} AddAllLookup<V>(t: Table<V>, es: seq<Entry<V>>, k1: string, k2: string)
    ensures Lookup(AddAll(t, es), k1, k2) == Lookup(t, k1, k2) + Select(es, k1, k2)
    decreases |es|
  {
    if es != [] {
      AddAllLookup(Add(t, es[0].key1, es[0].key2, es[0].value), es[1..], k1, k2);
    }
  }

  /** Inserting entries adds exactly their outer keys to the table's outer keys. */
  lemma {:induction false} AddAllKeys<V>(t: Table<V>, es: seq<Entry<V>>)
    ensures AddAll(t, es).Keys == t.Keys + Keys1(es)
    decreases |es|
  {
    if es != [] {
      AddAllKeys(Add(t, es[0].key1, es[0].key2, es[0].value), es[1..]);
      assert Keys1(es) == {es[0].key1} + Keys1(es[1..]) by {
        forall i | 1 <= i < |es| ensures es[1..][i - 1] == es[i] { }
      }
    }
  }

  /** Tables built by inserts never hold an empty inner mapping or an empty list. */
  lemma {:induction false} AddAllNoEmpty<V>(t: Table<V>, es: seq<Entry<V>>)
    requires NoEmpty(t)
    ensures NoEmpty(AddAll(t, es))
    decreases |es|
  {
    if es != [] {
      AddNoEmpty(t, es[0].key1, es[0].key2, es[0].value);
      AddAllNoEmpty(Add(t, es[0].key1, es[0].key2, es[0].value), es[1..]);
    }
  }

  /** Inserting `a` and then `b` is inserting `a + b`. */
  lemma {:induction false} AddAllConcat<V>(t: Table<V>, a: seq<Entry<V>>, b: seq<Entry<V>>)
    ensures AddAll(AddAll(t, a), b) == AddAll(t, a + b)
    decreases |a|
  {
    if a == [] {
      assert a + b == b;
    } else {
      assert (a + b)[0] == a[0] && (a + b)[1..] == a[1..] + b;
      AddAllConcat(Add(t, a[0].key1, a[0].key2, a[0].value), a[1..], b);
    }
  }

  /** In a table built by inserts, an outer key is present exactly when some pair under it holds a value. */
  lemma OuterKeysOccupied<V>(t: Table<V>)
    ensures NoEmpty(t) ==> forall k1 :: k1 in t <==> exists k2 :: Lookup(t, k1, k2) != []
  {
    if NoEmpty(t) {
      forall k1 | k1 in t ensures exists k2 :: Lookup(t, k1, k2) != [] {
        assert NoEmptyRow(t[k1]);
        var k2 :| k2 in t[k1];
        assert Lookup(t, k1, k2) != [];
      }
    }
  }

  /** Inserting one more entry after a list of entries is one more `Add`. */
  lemma AddAllSnoc<V>(t: Table<V>, es: seq<Entry<V>>, e: Entry<V>)
    ensures AddAll(t, es + [e]) == Add(AddAll(t, es), e.key1, e.key2, e.value)
  {
    AddAllConcat(t, es, [e]);
    assert [e][1..] == [];
  }

  /** Two tables without empty parts that agree on every lookup are the same table. */
  lemma NoEmptyExtensional<V>(s: Table<V>, t: Table<V>)
    requires NoEmpty(s) && NoEmpty(t)
    requires forall k1, k2 :: Lookup(s, k1, k2) == Lookup(t, k1, k2)
    ensures s == t
  {
    forall k1 | k1 in s ensures k1 in t {
      var k2 :| k2 in s[k1];
      assert Lookup(s, k1, k2) != [];
    }
    forall k1 | k1 in t ensures k1 in s && s[k1] == t[k1] {
      var k2 :| k2 in t[k1];
      assert Lookup(t, k1, k2) != [];
      forall k2 | k2 in t[k1] ensures k2 in s[k1] && s[k1][k2] == t[k1][k2] {
        assert Lookup(t, k1, k2) != [];
      }
      forall k2 | k2 in s[k1] ensures k2 in t[k1] {
        assert Lookup(s, k1, k2) != [];
      }
    }
  }

  /** The innermost loop of `deepish_clone_dict`: append every value of `l`, in order, under (k1, k2). */
  method AppendEach<V>(r0: Table<V>, k1: string, k2: string, l: seq<V>) returns (r: Table<V>)
    requires NoEmpty(r0)
    ensures NoEmpty(r)
    ensures Lookup(r, k1, k2) == Lookup(r0, k1, k2) + l
    ensures forall a, b :: a != k1 || b != k2 ==> Lookup(r, a, b) == Lookup(r0, a, b)
  {
    r := r0;
    var i := 0;
    while i < |l|
      invariant i <= |l| && NoEmpty(r)
      invariant Lookup(r, k1, k2) == Lookup(r0, k1, k2) + l[..i]
      invariant forall a, b :: a != k1 || b != k2 ==> Lookup(r, a, b) == Lookup(r0, a, b)
    {
      assert l[..i + 1] == l[..i] + [l[i]];
      AddNoEmpty(r, k1, k2, l[i]);
      r := Add(r, k1, k2, l[i]);
      i := i + 1;
    }
    assert l[..i] == l;
  }

  /** The middle loop of `deepish_clone_dict`: copy every list of one inner mapping under outer key `k1`. */
  method CopyRow<V>(r0: Table<V>, k1: string, row: map<string, seq<V>>) returns (r: Table<V>)
    requires NoEmpty(r0)
    ensures NoEmpty(r)
    ensures forall a, b :: Lookup(r, a, b) == if a == k1 && b in row then Lookup(r0, a, b) + row[b] else Lookup(r0, a, b)
  {
    r := r0;
    var inner := row.Keys;
    while inner != {}
      invariant inner <= row.Keys && NoEmpty(r)
      invariant forall a, b :: Lookup(r, a, b) ==
                               if a == k1 && b in row && b !in inner then Lookup(r0, a, b) + row[b] else Lookup(r0, a, b)
      decreases |inner|
    {
      var k2 :| k2 in inner;
      r := AppendEach(r, k1, k2, row[k2]);
      inner := inner - {k2};
    }
  }

  /**
   * The nested `deepish_clone_dict`: new outer and inner mappings and new lists, holding
   * the same values in the same order; pairs whose list is empty (and outer keys left
   * with no pair) do not appear in the copy.
   */
  method DeepishClone<V>(t: Table<V>) returns (r: Table<V>)
    ensures NoEmpty(r)
    ensures forall k1, k2 :: Lookup(r, k1, k2) == Lookup(t, k1, k2)
  {
    r := map[];
    var outer := t.Keys;
    while outer != {}
      invariant outer <= t.Keys && NoEmpty(r)
      invariant forall a, b :: Lookup(r, a, b) == if a !in outer then Lookup(t, a, b) else []
      decreases |outer|
    {
      var k1 :| k1 in outer;
      r := CopyRow(r, k1, t[k1]);
      outer := outer - {k1};
    }
  }
}
