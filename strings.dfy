/** String operations the registry relies on: substring search and Python's code-point ordering of strings. */
module Strings {

  import opened Seqs

  /** `sub` occurs in `s` starting at index `i`. */
  predicate OccursAt(s: string, sub: string, i: int)
  {
    0 <= i && i + |sub| <= |s| && s[i..i + |sub|] == sub
  }

  /** Python's `s.find(sub)`: the first index at which `sub` occurs in `s`, or -1. */
  function Find(s: string, sub: string): (r: int)
    ensures r == -1 || OccursAt(s, sub, r)
    ensures r >= 0 ==> forall i :: 0 <= i < r ==> !OccursAt(s, sub, i)
    ensures r == -1 ==> forall i :: !OccursAt(s, sub, i)
    decreases |s|
  {
    if |s| < |sub| then -1
    else if s[..|sub|] == sub then 0
    else
      OccursShift(s, sub);
      var k := Find(s[1..], sub);
      if k < 0 then -1 else k + 1
  }

  /** An occurrence at index i >= 1 is an occurrence at i - 1 in the tail. */
  lemma OccursShift(s: string, sub: string)
    requires s != []
    ensures forall i {:trigger OccursAt(s, sub, i)} :: 1 <= i ==> (OccursAt(s, sub, i) <==> OccursAt(s[1..], sub, i - 1))
  {
    forall i | 1 <= i
      ensures OccursAt(s, sub, i) <==> OccursAt(s[1..], sub, i - 1)
    {
      if i + |sub| <= |s| {
        var a, b := s[i..i + |sub|], s[1..][i - 1..i - 1 + |sub|];
        assert |a| == |b|;
        forall k | 0 <= k < |a| ensures a[k] == b[k] { }
        assert a == b;
      }
    }
  }

  /** Python's `a < b` on str: lexicographic comparison by code point, a proper prefix being smaller. */
  predicate Less(a: string, b: string)
    decreases |a|
  {
    if a == [] then b != []
    else if b == [] then false
    else if a[0] != b[0] then a[0] < b[0]
    else Less(a[1..], b[1..])
  }

  lemma {:induction false} LessIrreflexive(a: string)
    ensures !Less(a, a)
    decreases |a|
  {
    if a != [] {
      LessIrreflexive(a[1..]);
    }
  }

  lemma {:induction false} LessTransitive(a: string, b: string, c: string)
    requires Less(a, b) && Less(b, c)
    ensures Less(a, c)
    decreases |a|
  {
    if a != [] && b != [] && c != [] && a[0] == b[0] == c[0] {
      LessTransitive(a[1..], b[1..], c[1..]);
    }
  }

  lemma {:induction false} LessTotal(a: string, b: string)
    requires a != b
    ensures Less(a, b) || Less(b, a)
    decreases |a|
  {
    if a != [] && b != [] && a[0] == b[0] {
      assert a == [a[0]] + a[1..] && b == [b[0]] + b[1..];
      LessTotal(a[1..], b[1..]);
    }
  }

  lemma LessAsymmetric(a: string, b: string)
    requires Less(a, b)
    ensures !Less(b, a)
  {
    if Less(b, a) {
      LessTransitive(a, b, a);
      LessIrreflexive(a);
    }
  }

  /** Strictly ascending, as the keys of `sorted(d.items())` come out of a dict. */
  predicate Ascending(s: seq<string>)
  {
    forall i, j :: 0 <= i < j < |s| ==> Less(s[i], s[j])
  }

  /** Keeping some elements of an ascending sequence leaves it ascending. */
  lemma {:induction false} FilterAscending(s: seq<string>, p: string -> bool)
    requires Ascending(s)
    ensures Ascending(Filter(s, p))
  {
    if s != [] {
      FilterAscending(s[1..], p);
      var rest := Filter(s[1..], p);
      if p(s[0]) {
        forall x | x in rest ensures Less(s[0], x) {
          var k :| 0 <= k < |s[1..]| && s[1..][k] == x;
          assert s[k + 1] == x;
        }
        var r := [s[0]] + rest;
        forall i, j | 0 <= i < j < |r| ensures Less(r[i], r[j]) {
          if i == 0 {
            assert r[j] == rest[j - 1];
          } else {
            assert r[i] == rest[i - 1] && r[j] == rest[j - 1];
          }
        }
      }
    }
  }

  /** In an ascending sequence no element occurs before its own position. */
  lemma AscendingFresh(s: seq<string>, j: int)
    requires Ascending(s) && 0 <= j < |s|
    ensures s[j] !in s[..j]
  {
    LessIrreflexive(s[j]);
    forall k | 0 <= k < j ensures s[..j][k] != s[j] {
      assert Less(s[k], s[j]);
    }
  }

  /** `m` is the least element of `s`. */
  predicate IsLeast(m: string, s: set<string>)
  {
    m in s && forall o :: o in s && o != m ==> Less(m, o)
  }

  /** Every non-empty finite set of strings has a least element. */
  lemma {:induction false} LeastExists(s: set<string>)
    requires s != {}
    ensures exists m :: IsLeast(m, s)
    decreases |s|
  {
    var x :| x in s;
    var rest := s - {x};
    if rest == {} {
      assert s == {x};
      assert IsLeast(x, s);
    } else {
      LeastExists(rest);
      var m :| IsLeast(m, rest);
      if Less(m, x) {
        assert IsLeast(m, s);
      } else {
        LessTotal(m, x);
        forall o | o in s && o != x
          ensures Less(x, o)
        {
          if o != m {
            LessTransitive(x, m, o);
          }
        }
        assert IsLeast(x, s);
      }
    }
  }

  /** An ascending sequence is determined by its set of elements. */
  lemma {:induction false} AscendingUnique(a: seq<string>, b: seq<string>)
    requires Ascending(a) && Ascending(b) && Elems(a) == Elems(b)
    ensures a == b
    decreases |a|
  {
    ElemsEmpty(a);
    ElemsEmpty(b);
    if a != [] && b != [] {
      assert a[0] in Elems(b) && b[0] in Elems(a);
      if a[0] != b[0] {
        var i :| 0 <= i < |b| && b[i] == a[0];
        var j :| 0 <= j < |a| && a[j] == b[0];
        assert Less(b[0], a[0]) && Less(a[0], b[0]);
        LessAsymmetric(a[0], b[0]);
      }
      forall x | x in a[1..] ensures x in b[1..] {
        var i :| 1 <= i < |a| && a[i] == x;
        assert Less(a[0], x);
        assert x in Elems(b);
        var k :| 0 <= k < |b| && b[k] == x;
        if k == 0 { LessIrreflexive(x); }
        assert b[1..][k - 1] == x;
      }
      forall x | x in b[1..] ensures x in a[1..] {
        var i :| 1 <= i < |b| && b[i] == x;
        assert Less(b[0], x);
        assert x in Elems(a);
        var k :| 0 <= k < |a| && a[k] == x;
        if k == 0 { LessIrreflexive(x); }
        assert a[1..][k - 1] == x;
      }
      AscendingUnique(a[1..], b[1..]);
    }
  }

  /** Appending the least remaining element keeps the output ascending and below what remains. */
  lemma SortedStep(r: seq<string>, rest: set<string>, m: string)
    requires Ascending(r) && IsLeast(m, rest)
    requires forall i, o :: 0 <= i < |r| && o in rest ==> Less(r[i], o)
    ensures Ascending(r + [m]) && Elems(r + [m]) == Elems(r) + {m}
    ensures forall i, o :: 0 <= i < |r| + 1 && o in rest - {m} ==> Less((r + [m])[i], o)
  {
    assert Elems(r + [m]) == Elems(r) + {m};
  }

  /** `sorted(keys)`: the elements of a set of strings in ascending order. */
  method SortedKeys(s: set<string>) returns (r: seq<string>)
    ensures Ascending(r) && Elems(r) == s
  {
    r := [];
    var rest := s;
    while rest != {}
      invariant rest <= s && Elems(r) == s - rest
      invariant Ascending(r)
      invariant forall i, o :: 0 <= i < |r| && o in rest ==> Less(r[i], o)
      decreases |rest|
    {
      LeastExists(rest);
      var m :| IsLeast(m, rest);
      SortedStep(r, rest, m);
      r := r + [m];
      rest := rest - {m};
    }
  }
}
