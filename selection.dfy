/**
 * The selection filter of `set_modules`: turns a user list such as
 * ["all", "-x265"] into the module names the registry will try to load.
 */
module Selection {

  import opened Seqs

  /** An entry of the form "-name", which excludes `name`. */
  predicate IsExclusion(x: string)
  {
    x != "" && x[0] == '-'
  }

  /** An entry that names a module to include: non-empty and not starting with "-". */
  predicate IsInclusion(x: string)
  {
    x != "" && x[0] != '-'
  }

  /** The excluded names: every "-name" entry with its dash removed, in order. */
  function Exclusions(inlist: seq<string>): (r: seq<string>)
    ensures forall x :: x in r <==> "-" + x in inlist
  {
    if inlist == [] then []
    else
      var head := inlist[0];
      var rest := Exclusions(inlist[1..]);
      assert forall x :: "-" + x in inlist <==> "-" + x == head || "-" + x in inlist[1..];
      if IsExclusion(head) then
        assert forall x :: "-" + x == head <==> x == head[1..] by {
          forall x ensures "-" + x == head <==> x == head[1..] {
            if "-" + x == head { assert head[1..] == ("-" + x)[1..] == x; }
            if x == head[1..] { assert head == [head[0]] + head[1..]; }
          }
        }
        [head[1..]] + rest
      else
        assert forall x :: ("-" + x)[0] == '-';
        rest
  }

  /** The included names, in order. */
  function Inclusions(inlist: seq<string>): (r: seq<string>)
    ensures forall x :: x in r <==> x in inlist && IsInclusion(x)
  {
    Filter(inlist, IsInclusion)
  }

  /**
   * `filt`: with "all" among the inclusions the whole catalog list is taken,
   * otherwise the inclusions themselves; then every excluded name is removed.
   * Names unknown to the catalog are not dropped (they are only reported).
   */
  function Filt(inlist: seq<string>, allList: seq<string>): (r: seq<string>)
    ensures |r| <= (if "all" in Inclusions(inlist) then |allList| else |Inclusions(inlist)|)
    ensures forall x :: x in r <==>
      x !in Exclusions(inlist) &&
      (if "all" in Inclusions(inlist) then x in allList else x in Inclusions(inlist))
  {
    var exclist := Exclusions(inlist);
    var inclist := if "all" in Inclusions(inlist) then allList else Inclusions(inlist);
    Filter(inclist, x => x !in exclist)
  }

  /** `notfound`: the names the warning reports, computed only when "all" is not asked for. */
  function Unknown(inlist: seq<string>, allList: seq<string>): (r: seq<string>)
    ensures "all" in Inclusions(inlist) ==> r == []
    ensures forall x :: x in r <==>
      "all" !in Inclusions(inlist) && x != "" && x !in allList &&
      (x in Exclusions(inlist) || x in Inclusions(inlist))
  {
    if "all" in Inclusions(inlist) then []
    else Filter(Exclusions(inlist) + Inclusions(inlist), x => x != "" && x !in allList)
  }

  lemma {:induction false} ExclusionsAppend(a: seq<string>, b: seq<string>)
    ensures Exclusions(a + b) == Exclusions(a) + Exclusions(b)
  {
    if a == [] {
      assert a + b == b;
    } else {
      assert (a + b)[0] == a[0];
      assert (a + b)[1..] == a[1..] + b;
      ExclusionsAppend(a[1..], b);
    }
  }

  /** ["all"] selects the whole catalog list, in catalog order. */
  lemma AllSelectsCatalog(allList: seq<string>)
    ensures Filt(["all"], allList) == allList
  {
    assert Exclusions(["all"]) == [] by {
      assert ["all"][1..] == [];
    }
    FilterKeepsAll(allList, x => x !in Exclusions(["all"]));
  }

  /** ["all", "-name"] selects every catalog entry except `name`, in catalog order. */
  lemma AllButOne(allList: seq<string>, name: string)
    ensures Filt(["all", "-" + name], allList) == Filter(allList, x => x != name)
  {
    var inlist := ["all", "-" + name];
    assert ("-" + name)[0] == '-';
    assert ("-" + name)[1..] == name;
    assert IsInclusion("all");
    assert "all" in Inclusions(inlist);
    ExclusionsAppend(["all"], ["-" + name]);
    assert inlist == ["all"] + ["-" + name];
    assert ["all"][1..] == [] && ["-" + name][1..] == [];
    assert Exclusions(inlist) == [name];
    FilterSame(allList, x => x !in [name], x => x != name);
  }

  /** Empty entries are ignored wherever they appear. */
  lemma EmptyEntryIgnored(a: seq<string>, b: seq<string>, allList: seq<string>)
    ensures Filt(a + [""] + b, allList) == Filt(a + b, allList)
  {
    EmptyEntryNeutral(a, b);
  }

  lemma EmptyEntryNeutral(a: seq<string>, b: seq<string>)
    ensures Exclusions(a + [""] + b) == Exclusions(a + b)
    ensures Inclusions(a + [""] + b) == Inclusions(a + b)
  {
    assert a + [""] + b == (a + [""]) + b;
    assert Exclusions([""]) == [] by { assert [""][1..] == []; }
    assert Filter([""], IsInclusion) == [] by { assert [""][1..] == []; }
    ExclusionsAppend(a + [""], b);
    ExclusionsAppend(a, [""]);
    ExclusionsAppend(a, b);
    FilterAppend(a + [""], b, IsInclusion);
    FilterAppend(a, [""], IsInclusion);
    FilterAppend(a, b, IsInclusion);
    assert Exclusions(a) + [] == Exclusions(a);
    assert Filter(a, IsInclusion) + [] == Filter(a, IsInclusion);
  }

  /**
   * A name the catalog does not know, requested without "all" and not excluded,
   * is kept in the selection and is also reported as unknown.
   */
  lemma UnknownNameKept(inlist: seq<string>, allList: seq<string>, x: string)
    requires x in inlist && IsInclusion(x) && x !in allList
    requires "all" !in inlist && "-" + x !in inlist
    ensures x in Filt(inlist, allList)
    ensures x in Unknown(inlist, allList)
  {
  }
}
