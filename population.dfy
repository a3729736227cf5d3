/**
 * What `init` adds to the three tables: the entries every module contributes,
 * in the order the registry visits the module's declarations. The registry
 * methods are proved to add exactly these entries.
 */
module Population {

  import opened Wrappers
  import opened Seqs
  import opened Tables
  import opened Codecs
  import opened ModuleNames

  /**
   * The entries a spec module contributed, and whether its enumeration
   * finished. A raising `get_spec` aborts the module: what was added before stays.
   */
  datatype Attempt = Attempt(entries: seq<Entry<Spec>>, completed: bool)

  /** The entries for one first key, over its second keys `k2s`. */
  function InnerAttempt(m: SpecModule, k1: string, k2s: seq<string>): (r: Attempt)
    ensures |r.entries| <= |k2s|
    ensures r.completed ==> |r.entries| == |k2s|
  {
    if k2s == [] then Attempt([], true)
    else match m.getSpec(k1, k2s[0])
      case None => Attempt([], false)
      case Some(spec) =>
        var rest := InnerAttempt(m, k1, k2s[1..]);
        Attempt([Entry(k1, k2s[0], spec)] + rest.entries, rest.completed)
  }

  /** The entries for the first keys `k1s`; stops at the first failing first key. */
  function OuterAttempt(m: SpecModule, k1s: seq<string>): Attempt
  {
    if k1s == [] then Attempt([], true)
    else
      var inner := InnerAttempt(m, k1s[0], m.keys2(k1s[0]));
      if !inner.completed then inner
      else
        var rest := OuterAttempt(m, k1s[1..]);
        Attempt(inner.entries + rest.entries, rest.completed)
  }

  /** A row split in two: when the first part finishes, the second part continues it. */
  lemma {:induction false} InnerConcat(m: SpecModule, k1: string, a: seq<string>, b: seq<string>)
    requires InnerAttempt(m, k1, a).completed
    ensures InnerAttempt(m, k1, a + b) ==
            Attempt(InnerAttempt(m, k1, a).entries + InnerAttempt(m, k1, b).entries, InnerAttempt(m, k1, b).completed)
  {
    if a == [] {
      assert a + b == b;
    } else {
      assert (a + b)[0] == a[0] && (a + b)[1..] == a[1..] + b;
      InnerConcat(m, k1, a[1..], b);
    }
  }

  /** The row prefix up to position `j`, extended by one successful `get_spec` call. */
  lemma InnerPrefixStep(m: SpecModule, k1: string, k2s: seq<string>, j: int, spec: Spec)
    requires 0 <= j < |k2s| && InnerAttempt(m, k1, k2s[..j]).completed
    requires m.getSpec(k1, k2s[j]) == Some(spec)
    ensures InnerAttempt(m, k1, k2s[..j + 1]) ==
            Attempt(InnerAttempt(m, k1, k2s[..j]).entries + [Entry(k1, k2s[j], spec)], true)
  {
    assert k2s[..j + 1] == k2s[..j] + [k2s[j]];
    InnerConcat(m, k1, k2s[..j], [k2s[j]]);
    assert [k2s[j]][1..] == [];
  }

  /** A row whose call at position `j` fails ends with the entries of the prefix before it. */
  lemma InnerPrefixStop(m: SpecModule, k1: string, k2s: seq<string>, j: int)
    requires 0 <= j < |k2s| && InnerAttempt(m, k1, k2s[..j]).completed
    requires m.getSpec(k1, k2s[j]).None?
    ensures InnerAttempt(m, k1, k2s) == Attempt(InnerAttempt(m, k1, k2s[..j]).entries, false)
  {
    assert k2s == k2s[..j] + k2s[j..];
    InnerConcat(m, k1, k2s[..j], k2s[j..]);
    assert InnerAttempt(m, k1, k2s[..j]).entries + [] == InnerAttempt(m, k1, k2s[..j]).entries;
  }

  /** One step of a module's first keys: a finished first row is followed by the rest. */
  lemma OuterUnfold(m: SpecModule, k1s: seq<string>)
    requires k1s != [] && InnerAttempt(m, k1s[0], m.keys2(k1s[0])).completed
    ensures OuterAttempt(m, k1s) ==
            Attempt(InnerAttempt(m, k1s[0], m.keys2(k1s[0])).entries + OuterAttempt(m, k1s[1..]).entries,
                    OuterAttempt(m, k1s[1..]).completed)
  {
  }

  /** A module's first keys split in two: when the first part finishes, the second part continues it. */
  lemma {:induction false} OuterConcat(m: SpecModule, a: seq<string>, b: seq<string>)
    requires OuterAttempt(m, a).completed
    ensures OuterAttempt(m, a + b) ==
            Attempt(OuterAttempt(m, a).entries + OuterAttempt(m, b).entries, OuterAttempt(m, b).completed)
  {
    if a == [] {
      assert a + b == b;
    } else {
      assert (a + b)[0] == a[0] && (a + b)[1..] == a[1..] + b;
      var inner := InnerAttempt(m, a[0], m.keys2(a[0]));
      var restA, restB := OuterAttempt(m, a[1..]), OuterAttempt(m, b);
      assert inner.completed;
      OuterUnfold(m, a);
      OuterUnfold(m, a + b);
      OuterConcat(m, a[1..], b);
      AppendAssoc(inner.entries, restA.entries, restB.entries);
    }
  }

  /** The first keys up to position `i`, extended by the row of the next one. */
  lemma OuterPrefixStep(m: SpecModule, k1s: seq<string>, i: int)
    requires 0 <= i < |k1s| && OuterAttempt(m, k1s[..i]).completed
    ensures var row := InnerAttempt(m, k1s[i], m.keys2(k1s[i]));
      row.completed ==>
        OuterAttempt(m, k1s[..i + 1]) == Attempt(OuterAttempt(m, k1s[..i]).entries + row.entries, true)
    ensures var row := InnerAttempt(m, k1s[i], m.keys2(k1s[i]));
      !row.completed ==>
        OuterAttempt(m, k1s) == Attempt(OuterAttempt(m, k1s[..i]).entries + row.entries, false)
  {
    var row := InnerAttempt(m, k1s[i], m.keys2(k1s[i]));
    assert k1s[..i + 1] == k1s[..i] + [k1s[i]];
    assert k1s == k1s[..i] + k1s[i..];
    assert k1s[i..][0] == k1s[i];
    assert [k1s[i]][1..] == [];
    OuterConcat(m, k1s[..i], [k1s[i]]);
    OuterConcat(m, k1s[..i], k1s[i..]);
    assert row.entries + [] == row.entries;
  }

  /** Everything one spec module contributes. */
  function ModuleAttempt(m: SpecModule): Attempt
  {
    OuterAttempt(m, m.keys1)
  }

  /** The entries of a module, or none when it could not be loaded. */
  function LoadedSpecEntries(om: Option<SpecModule>): seq<Entry<Spec>>
  {
    match om
      case None => []
      case Some(m) => ModuleAttempt(m).entries
  }

  /** Entries for the selected encoders, module after module. */
  function EncoderEntries(loader: Loader, names: seq<string>): seq<Entry<Spec>>
  {
    if names == [] then []
    else LoadedSpecEntries(loader.encoderCodec(EncoderModuleName(names[0]))) + EncoderEntries(loader, names[1..])
  }

  /** Entries for the selected csc modules, module after module. */
  function CscEntries(loader: Loader, names: seq<string>): seq<Entry<Spec>>
  {
    if names == [] then []
    else LoadedSpecEntries(loader.cscCodec(CscModuleName(names[0]))) + CscEntries(loader, names[1..])
  }

  /** The decoder entries for one encoding, over its input colorspaces. */
  function DecoderInner(name: string, m: DecoderModule, encoding: string, css: seq<string>): seq<Entry<DecoderEntry>>
  {
    if css == [] then []
    else (if m.hasDecoder then [Entry(encoding, css[0], DecoderEntry(name, m))] else []) +
         DecoderInner(name, m, encoding, css[1..])
  }

  /** The decoder entries for the encodings `encs`. */
  function DecoderOuter(name: string, m: DecoderModule, encs: seq<string>): seq<Entry<DecoderEntry>>
  {
    if encs == [] then []
    else DecoderInner(name, m, encs[0], m.inputColorspaces(encs[0])) + DecoderOuter(name, m, encs[1..])
  }

  lemma {:induction false} DecoderInnerConcat(name: string, m: DecoderModule, encoding: string, a: seq<string>, b: seq<string>)
    ensures DecoderInner(name, m, encoding, a + b) == DecoderInner(name, m, encoding, a) + DecoderInner(name, m, encoding, b)
  {
    if a == [] {
      assert a + b == b;
    } else {
      assert (a + b)[0] == a[0] && (a + b)[1..] == a[1..] + b;
      DecoderInnerConcat(name, m, encoding, a[1..], b);
    }
  }

  lemma {:induction false} DecoderOuterConcat(name: string, m: DecoderModule, a: seq<string>, b: seq<string>)
    ensures DecoderOuter(name, m, a + b) == DecoderOuter(name, m, a) + DecoderOuter(name, m, b)
  {
    if a == [] {
      assert a + b == b;
    } else {
      assert (a + b)[0] == a[0] && (a + b)[1..] == a[1..] + b;
      DecoderOuterConcat(name, m, a[1..], b);
    }
  }

  /** The decoder entries for a prefix of the input colorspaces, extended by one more colorspace. */
  lemma DecoderInnerPrefixStep(name: string, m: DecoderModule, encoding: string, css: seq<string>, j: int)
    requires 0 <= j < |css|
    ensures DecoderInner(name, m, encoding, css[..j + 1]) ==
            DecoderInner(name, m, encoding, css[..j]) + (if m.hasDecoder then [Entry(encoding, css[j], DecoderEntry(name, m))] else [])
  {
    assert css[..j + 1] == css[..j] + [css[j]];
    DecoderInnerConcat(name, m, encoding, css[..j], [css[j]]);
    assert [css[j]][1..] == [];
  }

  /** The decoder entries for a prefix of the encodings, extended by one more encoding. */
  lemma DecoderOuterPrefixStep(name: string, m: DecoderModule, encs: seq<string>, i: int)
    requires 0 <= i < |encs|
    ensures DecoderOuter(name, m, encs[..i + 1]) ==
            DecoderOuter(name, m, encs[..i]) + DecoderInner(name, m, encs[i], m.inputColorspaces(encs[i]))
  {
    assert encs[..i + 1] == encs[..i] + [encs[i]];
    DecoderOuterConcat(name, m, encs[..i], [encs[i]]);
    assert [encs[i]][1..] == [];
  }

  /** The entries of a decoder module registered under `name`, or none when it could not be loaded. */
  function LoadedDecoderEntries(name: string, om: Option<DecoderModule>): seq<Entry<DecoderEntry>>
  {
    match om
      case None => []
      case Some(m) => DecoderOuter(name, m, m.encodings)
  }

  /** Entries for the selected decoders, module after module. */
  function DecoderEntries(loader: Loader, names: seq<string>): seq<Entry<DecoderEntry>>
  {
    if names == [] then []
    else
      var mod := DecoderModuleName(names[0]);
      LoadedDecoderEntries(mod, loader.decoderCodec(mod)) + DecoderEntries(loader, names[1..])
  }

  // ---- What a spec module contributes ----

  /** A declared pair of a spec module, with the spec the module gives for it. */
  predicate Declared(m: SpecModule, e: Entry<Spec>)
  {
    e.key1 in m.keys1 && e.key2 in m.keys2(e.key1) && m.getSpec(e.key1, e.key2) == Some(e.value)
  }

  lemma {:induction false} InnerDeclared(m: SpecModule, k1: string, k2s: seq<string>)
    ensures forall e :: e in InnerAttempt(m, k1, k2s).entries ==>
      e.key1 == k1 && e.key2 in k2s && m.getSpec(e.key1, e.key2) == Some(e.value)
  {
    if k2s != [] && m.getSpec(k1, k2s[0]).Some? {
      InnerDeclared(m, k1, k2s[1..]);
    }
  }

  lemma {:induction false} OuterDeclared(m: SpecModule, k1s: seq<string>)
    ensures forall e :: e in OuterAttempt(m, k1s).entries ==>
      e.key1 in k1s && e.key2 in m.keys2(e.key1) && m.getSpec(e.key1, e.key2) == Some(e.value)
  {
    if k1s != [] {
      InnerDeclared(m, k1s[0], m.keys2(k1s[0]));
      OuterDeclared(m, k1s[1..]);
    }
  }

  /** A module registers only pairs it declares, each with the spec it returns for that pair. */
  lemma ModuleEntriesDeclared(m: SpecModule)
    ensures forall e :: e in ModuleAttempt(m).entries ==> Declared(m, e)
  {
    OuterDeclared(m, m.keys1);
  }

  /** A module whose every `get_spec` call succeeds registers every pair it declares, and finishes. */
  lemma ModuleEntriesComplete(m: SpecModule)
    requires forall k1, k2 :: k1 in m.keys1 && k2 in m.keys2(k1) ==> m.getSpec(k1, k2).Some?
    ensures ModuleAttempt(m).completed
    ensures forall k1, k2 :: k1 in m.keys1 && k2 in m.keys2(k1) ==>
      Entry(k1, k2, m.getSpec(k1, k2).value) in ModuleAttempt(m).entries
  {
    OuterComplete(m, m.keys1);
  }

  lemma {:induction false} InnerComplete(m: SpecModule, k1: string, k2s: seq<string>)
    requires forall k2 :: k2 in k2s ==> m.getSpec(k1, k2).Some?
    ensures InnerAttempt(m, k1, k2s).completed
    ensures forall k2 :: k2 in k2s ==> Entry(k1, k2, m.getSpec(k1, k2).value) in InnerAttempt(m, k1, k2s).entries
  {
    if k2s != [] {
      InnerComplete(m, k1, k2s[1..]);
    }
  }

  lemma {:induction false} OuterComplete(m: SpecModule, k1s: seq<string>)
    requires forall k1, k2 :: k1 in k1s && k2 in m.keys2(k1) ==> m.getSpec(k1, k2).Some?
    ensures OuterAttempt(m, k1s).completed
    ensures forall k1, k2 :: k1 in k1s && k2 in m.keys2(k1) ==>
      Entry(k1, k2, m.getSpec(k1, k2).value) in OuterAttempt(m, k1s).entries
  {
    if k1s != [] {
      InnerComplete(m, k1s[0], m.keys2(k1s[0]));
      OuterComplete(m, k1s[1..]);
    }
  }

  /** An enumeration that did not finish was stopped by a declared pair whose `get_spec` failed. */
  lemma {:induction false} IncompleteHasFailure(m: SpecModule, k1s: seq<string>)
    requires !OuterAttempt(m, k1s).completed
    ensures exists k1, k2 :: k1 in k1s && k2 in m.keys2(k1) && m.getSpec(k1, k2).None?
  {
    if forall k1, k2 :: k1 in k1s && k2 in m.keys2(k1) ==> m.getSpec(k1, k2).Some? {
      OuterComplete(m, k1s);
      assert false;
    }
  }

  // ---- What a decoder module contributes ----

  /** A decoder module without a usable `Decoder` contributes nothing. */
  lemma {:induction false} NoDecoderNoEntries(name: string, m: DecoderModule, encs: seq<string>)
    requires !m.hasDecoder
    ensures DecoderOuter(name, m, encs) == []
  {
    if encs != [] {
      NoInnerEntries(name, m, encs[0], m.inputColorspaces(encs[0]));
      NoDecoderNoEntries(name, m, encs[1..]);
    }
  }

  lemma {:induction false} NoInnerEntries(name: string, m: DecoderModule, encoding: string, css: seq<string>)
    requires !m.hasDecoder
    ensures DecoderInner(name, m, encoding, css) == []
  {
    if css != [] {
      NoInnerEntries(name, m, encoding, css[1..]);
    }
  }

  lemma {:induction false} DecoderInnerExact(name: string, m: DecoderModule, encoding: string, css: seq<string>)
    requires m.hasDecoder
    ensures forall e :: e in DecoderInner(name, m, encoding, css) <==>
      e.key1 == encoding && e.key2 in css && e.value == DecoderEntry(name, m)
  {
    if css != [] {
      DecoderInnerExact(name, m, encoding, css[1..]);
    }
  }

  /**
   * A decoder module with a usable `Decoder` registers itself, under its
   * module name, for exactly the pairs it declares.
   */
  lemma {:induction false} DecoderEntriesExact(name: string, m: DecoderModule, encs: seq<string>)
    requires m.hasDecoder
    ensures forall e :: e in DecoderOuter(name, m, encs) <==>
      e.key1 in encs && e.key2 in m.inputColorspaces(e.key1) && e.value == DecoderEntry(name, m)
  {
    if encs != [] {
      DecoderInnerExact(name, m, encs[0], m.inputColorspaces(encs[0]));
      DecoderEntriesExact(name, m, encs[1..]);
    }
  }

  // ---- Modules are independent ----

  /**
   * Modules are handled one after the other and independently: the entries for a
   * list of names are those for its parts, so a module that is missing or
   * fails does not affect the others.
   */
  lemma {:induction false} EncoderEntriesAppend(loader: Loader, a: seq<string>, b: seq<string>)
    ensures EncoderEntries(loader, a + b) == EncoderEntries(loader, a) + EncoderEntries(loader, b)
  {
    if a == [] {
      assert a + b == b;
    } else {
      assert (a + b)[0] == a[0] && (a + b)[1..] == a[1..] + b;
      EncoderEntriesAppend(loader, a[1..], b);
    }
  }

  lemma {:induction false} CscEntriesAppend(loader: Loader, a: seq<string>, b: seq<string>)
    ensures CscEntries(loader, a + b) == CscEntries(loader, a) + CscEntries(loader, b)
  {
    if a == [] {
      assert a + b == b;
    } else {
      assert (a + b)[0] == a[0] && (a + b)[1..] == a[1..] + b;
      CscEntriesAppend(loader, a[1..], b);
    }
  }

  lemma {:induction false} DecoderEntriesAppend(loader: Loader, a: seq<string>, b: seq<string>)
    ensures DecoderEntries(loader, a + b) == DecoderEntries(loader, a) + DecoderEntries(loader, b)
  {
    if a == [] {
      assert a + b == b;
    } else {
      assert (a + b)[0] == a[0] && (a + b)[1..] == a[1..] + b;
      DecoderEntriesAppend(loader, a[1..], b);
    }
  }

  lemma EncoderEntriesPrefixStep(loader: Loader, names: seq<string>, k: int)
    requires 0 <= k < |names|
    ensures EncoderEntries(loader, names[..k + 1]) ==
            EncoderEntries(loader, names[..k]) + LoadedSpecEntries(loader.encoderCodec(EncoderModuleName(names[k])))
  {
    assert names[..k + 1] == names[..k] + [names[k]];
    EncoderEntriesAppend(loader, names[..k], [names[k]]);
    assert [names[k]][1..] == [];
    assert EncoderEntries(loader, [names[k]]) == LoadedSpecEntries(loader.encoderCodec(EncoderModuleName(names[k]))) + [];
  }

  lemma CscEntriesPrefixStep(loader: Loader, names: seq<string>, k: int)
    requires 0 <= k < |names|
    ensures CscEntries(loader, names[..k + 1]) ==
            CscEntries(loader, names[..k]) + LoadedSpecEntries(loader.cscCodec(CscModuleName(names[k])))
  {
    assert names[..k + 1] == names[..k] + [names[k]];
    CscEntriesAppend(loader, names[..k], [names[k]]);
    assert [names[k]][1..] == [];
    assert CscEntries(loader, [names[k]]) == LoadedSpecEntries(loader.cscCodec(CscModuleName(names[k]))) + [];
  }

  lemma DecoderEntriesPrefixStep(loader: Loader, names: seq<string>, k: int)
    requires 0 <= k < |names|
    ensures DecoderEntries(loader, names[..k + 1]) ==
            DecoderEntries(loader, names[..k]) +
            LoadedDecoderEntries(DecoderModuleName(names[k]), loader.decoderCodec(DecoderModuleName(names[k])))
  {
    assert names[..k + 1] == names[..k] + [names[k]];
    DecoderEntriesAppend(loader, names[..k], [names[k]]);
    assert [names[k]][1..] == [];
    var mod := DecoderModuleName(names[k]);
    assert DecoderEntries(loader, [names[k]]) == LoadedDecoderEntries(mod, loader.decoderCodec(mod)) + [];
  }

  /** An encoder whose module cannot be loaded contributes nothing: dropping it from the selection changes nothing. */
  lemma MissingEncoderSkipped(loader: Loader, a: seq<string>, x: string, b: seq<string>)
    requires loader.encoderCodec(EncoderModuleName(x)).None?
    ensures EncoderEntries(loader, a + [x] + b) == EncoderEntries(loader, a + b)
  {
    assert EncoderEntries(loader, [x]) == [] by {
      assert [x][1..] == [];
      assert EncoderEntries(loader, [x]) == LoadedSpecEntries(None) + EncoderEntries(loader, []);
    }
    EncoderEntriesAppend(loader, a + [x], b);
    EncoderEntriesAppend(loader, a, [x]);
    assert EncoderEntries(loader, a) + [] == EncoderEntries(loader, a);
    EncoderEntriesAppend(loader, a, b);
  }
}
