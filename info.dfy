/**
 * The diagnostic report of `get_info`: per format pair, the names of what is
 * registered for it, and a status for every catalog module.
 */
module Info {

  import opened Tables

  /** The report. A "%s_to_%s" key is kept as the pair of its two formats. */
  datatype Info = Info(
    encoding: map<(string, string), seq<string>>,
    decoding: map<(string, string), seq<string>>,
    csc: map<(string, string), seq<string>>,
    videoEncoder: map<string, ModuleStatus>,
    cscModule: map<string, ModuleStatus>)

  datatype ModuleStatus = Active | Disabled | NotFound

  /** `modstatus`: selected wins over installed-by-default, which wins over absent. */
  function ModStatus(x: string, defList: seq<string>, activeList: seq<string>): (r: ModuleStatus)
    ensures r == Active <==> x in activeList
    ensures r == Disabled <==> x !in activeList && x in defList
    ensures r == NotFound <==> x !in activeList && x !in defList
  {
    if x in activeList then Active
    else if x in defList then Disabled
    else NotFound
  }

  /** With at most one default, as for video encoders, at most one module can be reported disabled. */
  lemma AtMostOneDisabled(defList: seq<string>, activeList: seq<string>, x: string, y: string)
    requires |defList| <= 1
    requires ModStatus(x, defList, activeList) == Disabled && ModStatus(y, defList, activeList) == Disabled
    ensures x == y
  {
    assert defList == [defList[0]];
  }

  /** The names of the values in a list, in order. */
  function Names<V>(l: seq<V>, name: V -> string): (r: seq<string>)
    ensures |r| == |l| && forall i :: 0 <= i < |l| ==> r[i] == name(l[i])
  {
    seq(|l|, i requires 0 <= i < |l| => name(l[i]))
  }

  /** The report key for a table pair: the encoding section lists the colorspace first. */
  function Swap(p: (string, string), swap: bool): (string, string)
  {
    if swap then (p.1, p.0) else p
  }

  /** The table pair behind report key `p` is present (with a non-empty list unless `keepEmpty`). */
  predicate Present<V>(t: Table<V>, p: (string, string), keepEmpty: bool)
  {
    p.0 in t && p.1 in t[p.0] && (keepEmpty || t[p.0][p.1] != [])
  }

  /**
   * `r` reports table `t`: one key per present pair (swapped when `swap`),
   * mapped to the names of the pair's values in order.
   */
  ghost predicate Summarizes<V>(r: map<(string, string), seq<string>>, t: Table<V>, name: V -> string, keepEmpty: bool, swap: bool)
  {
    (forall p :: p in r <==> Present(t, Swap(p, swap), keepEmpty)) &&
    (forall p :: p in r ==> r[p] == Names(Lookup(t, Swap(p, swap).0, Swap(p, swap).1), name))
  }

  /** A report section is determined by the table it summarizes. */
  lemma SummaryUnique<V>(r1: map<(string, string), seq<string>>, r2: map<(string, string), seq<string>>,
                         t: Table<V>, name: V -> string, keepEmpty: bool, swap: bool)
    requires Summarizes(r1, t, name, keepEmpty, swap) && Summarizes(r2, t, name, keepEmpty, swap)
    ensures r1 == r2
  {
    assert r1.Keys == r2.Keys;
  }

  /**
   * Sections that skip empty lists depend only on the lists stored: two tables
   * that agree on every lookup, such as a registry and its clone, report the same.
   */
  lemma SummaryFollowsLookups<V>(r: map<(string, string), seq<string>>, s: Table<V>, t: Table<V>,
                                 name: V -> string, swap: bool)
    requires forall k1, k2 :: Lookup(s, k1, k2) == Lookup(t, k1, k2)
    requires Summarizes(r, s, name, false, swap)
    ensures Summarizes(r, t, name, false, swap)
  {
    forall p ensures Present(s, Swap(p, swap), false) <==> Present(t, Swap(p, swap), false) {
      var q := Swap(p, swap);
      assert Lookup(s, q.0, q.1) == Lookup(t, q.0, q.1);
    }
  }

  /** On a table without empty lists, keeping or skipping empty lists makes no difference. */
  lemma KeepEmptyIrrelevant<V>(r: map<(string, string), seq<string>>, t: Table<V>, name: V -> string, swap: bool)
    requires NoEmpty(t)
    ensures Summarizes(r, t, name, true, swap) <==> Summarizes(r, t, name, false, swap)
  {
    forall p ensures Present(t, Swap(p, swap), true) <==> Present(t, Swap(p, swap), false) {
      var q := Swap(p, swap);
      if q.0 in t {
        assert NoEmptyRow(t[q.0]);
      }
    }
  }

  /** `einfo.setdefault(key, []).append(...)` for every value of one list. */
  method AppendNames<V>(r0: map<(string, string), seq<string>>, key: (string, string), l: seq<V>, name: V -> string)
    returns (r: map<(string, string), seq<string>>)
    requires key !in r0
    ensures r == if l == [] then r0 else r0[key := Names(l, name)]
  {
    r := r0;
    var i := 0;
    while i < |l|
      invariant 0 <= i <= |l|
      invariant r == if i == 0 then r0 else r0[key := Names(l[..i], name)]
    {
      var existing := if key in r then r[key] else [];
      assert Names(l[..i + 1], name) == Names(l[..i], name) + [name(l[i])];
      r := r[key := existing + [name(l[i])]];
      i := i + 1;
    }
    assert l[..i] == l;
  }

  /** The report entries for one outer key of a table. */
  method SummarizeRow<V>(r0: map<(string, string), seq<string>>, t: Table<V>, k1: string,
                         name: V -> string, keepEmpty: bool, swap: bool)
    returns (r: map<(string, string), seq<string>>)
    requires k1 in t
    requires forall p :: p in r0 ==> Swap(p, swap).0 != k1
    ensures forall p :: p in r <==> p in r0 || (Swap(p, swap).0 == k1 && Present(t, Swap(p, swap), keepEmpty))
    ensures forall p :: p in r ==> r[p] == if p in r0 then r0[p] else Names(Lookup(t, Swap(p, swap).0, Swap(p, swap).1), name)
  {
    r := r0;
    var row := t[k1];
    var todo := row.Keys;
    while todo != {}
      invariant todo <= row.Keys
      invariant forall p :: p in r <==> p in r0 || (Swap(p, swap).0 == k1 && Swap(p, swap).1 !in todo && Present(t, Swap(p, swap), keepEmpty))
      invariant forall p :: p in r ==> r[p] == if p in r0 then r0[p] else Names(Lookup(t, Swap(p, swap).0, Swap(p, swap).1), name)
      decreases |todo|
    {
      var k2 :| k2 in todo;
      var key := Swap((k1, k2), swap);
      assert Swap(key, swap) == (k1, k2);
      if keepEmpty {
        r := r[key := Names(row[k2], name)];
      } else {
        r := AppendNames(r, key, row[k2], name);
      }
      todo := todo - {k2};
    }
  }

  /**
   * One section of `get_info`: every pair of the table, under its report key,
   * mapped to the names of its values. The csc section assigns whole lists
   * (`keepEmpty`); the encoding and decoding sections append value by value.
   */
  method Summarize<V>(t: Table<V>, name: V -> string, keepEmpty: bool, swap: bool)
    returns (r: map<(string, string), seq<string>>)
    ensures Summarizes(r, t, name, keepEmpty, swap)
  {
    r := map[];
    var todo := t.Keys;
    while todo != {}
      invariant todo <= t.Keys
      invariant forall p :: p in r <==> Swap(p, swap).0 !in todo && Present(t, Swap(p, swap), keepEmpty)
      invariant forall p :: p in r ==> r[p] == Names(Lookup(t, Swap(p, swap).0, Swap(p, swap).1), name)
      decreases |todo|
    {
      var k1 :| k1 in todo;
      r := SummarizeRow(r, t, k1, name, keepEmpty, swap);
      todo := todo - {k1};
    }
  }
}
