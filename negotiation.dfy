/**
 * The colorspace negotiation queries: for each encoding, the input colorspaces
 * the server may encode in so that some decoder outputs a colorspace the
 * client can handle, optionally widened through csc conversions to RGB.
 */
module Negotiation {

  import opened Seqs
  import opened Strings
  import opened Tables
  import opened Codecs

  /** Some decoder registered for (encoding, cs) outputs a colorspace in `modes`. */
  predicate DecodesInto(encoding: string, cs: string, ds: seq<DecoderEntry>, modes: set<string>)
  {
    exists i :: 0 <= i < |ds| && ds[i].codec.outputColorspace(encoding, cs) in modes
  }

  predicate ViableIn(encoding: string, row: map<string, seq<DecoderEntry>>, modes: set<string>, cs: string)
  {
    cs in row && DecodesInto(encoding, cs, row[cs], modes)
  }

  /** The input colorspaces of one encoding's row that some decoder turns into a mode in `modes`. */
  function ViableRow(encoding: string, row: map<string, seq<DecoderEntry>>, modes: set<string>): set<string>
  {
    set cs | cs in row && DecodesInto(encoding, cs, row[cs], modes)
  }

  /**
   * The meaning of `get_server_full_csc_modes`: every encoding with at least one
   * viable input colorspace, mapped to the set of those colorspaces.
   */
  function FullCscModeSets(t: Table<DecoderEntry>, modes: set<string>): map<string, set<string>>
  {
    map e | e in t && ViableRow(e, t[e], modes) != {} :: ViableRow(e, t[e], modes)
  }

  /** A result of the query represents `s`: same encodings, each list ascending and holding exactly the set. */
  predicate Represents(r: map<string, seq<string>>, s: map<string, set<string>>)
  {
    r.Keys == s.Keys && forall e :: e in r ==> Ascending(r[e]) && Elems(r[e]) == s[e]
  }

  /** The representation is unique, so the query's contract fixes its result entirely. */
  lemma RepresentsUnique(r1: map<string, seq<string>>, r2: map<string, seq<string>>, s: map<string, set<string>>)
    requires Represents(r1, s) && Represents(r2, s)
    ensures r1 == r2
  {
    forall e | e in r1 ensures r1[e] == r2[e] {
      AscendingUnique(r1[e], r2[e]);
    }
  }

  /** A csc row has a non-empty spec list for some output colorspace in `targets`. */
  predicate FeedsTargets(row: map<string, seq<Spec>>, targets: set<string>)
  {
    exists dst :: dst in row && dst in targets && row[dst] != []
  }

  /** The modes `get_server_full_csc_modes_for_rgb` asks for: the targets plus every csc source feeding a target. */
  function RgbModes(csc: Table<Spec>, targets: set<string>): (r: set<string>)
    ensures targets <= r
  {
    targets + set src | src in csc && FeedsTargets(csc[src], targets)
  }

  /** Accepting more client modes never removes an encoding or a colorspace from the answer. */
  lemma ModesMonotone(t: Table<DecoderEntry>, m1: set<string>, m2: set<string>)
    requires m1 <= m2
    ensures forall e :: e in FullCscModeSets(t, m1) ==>
      e in FullCscModeSets(t, m2) && FullCscModeSets(t, m1)[e] <= FullCscModeSets(t, m2)[e]
  {
    forall e | e in FullCscModeSets(t, m1)
      ensures ViableRow(e, t[e], m1) <= ViableRow(e, t[e], m2)
    {
      forall cs | cs in ViableRow(e, t[e], m1) ensures cs in ViableRow(e, t[e], m2) {
        var i :| 0 <= i < |t[e][cs]| && t[e][cs][i].codec.outputColorspace(e, cs) in m1;
      }
    }
  }

  /** The RGB variant answers at least what the plain query answers for the same targets. */
  lemma RgbWidens(t: Table<DecoderEntry>, csc: Table<Spec>, targets: set<string>)
    ensures forall e :: e in FullCscModeSets(t, targets) ==>
      e in FullCscModeSets(t, RgbModes(csc, targets)) &&
      FullCscModeSets(t, targets)[e] <= FullCscModeSets(t, RgbModes(csc, targets))[e]
  {
    ModesMonotone(t, targets, RgbModes(csc, targets));
  }

  /** The list of colorspaces recorded so far for `encoding`, empty when none. */
  function Recorded(full: map<string, seq<string>>, encoding: string): seq<string>
  {
    if encoding in full then full[encoding] else []
  }

  /**
   * The innermost loop of `get_server_full_csc_modes`: go through the decoders of
   * (encoding, cs); when one outputs a client mode, `cs` is recorded for the
   * encoding, at most once.
   */
  method RecordIfDecodable(full0: map<string, seq<string>>, encoding: string, cs: string,
                           ds: seq<DecoderEntry>, modes: seq<string>) returns (full: map<string, seq<string>>)
    requires cs !in Recorded(full0, encoding)
    ensures full == if DecodesInto(encoding, cs, ds, Elems(modes)) then full0[encoding := Recorded(full0, encoding) + [cs]] else full0
  {
    full := full0;
    var i := 0;
    while i < |ds|
      invariant 0 <= i <= |ds|
      invariant full == if exists k :: 0 <= k < i && ds[k].codec.outputColorspace(encoding, cs) in modes
                        then full0[encoding := Recorded(full0, encoding) + [cs]] else full0
    {
      var outputColorspace := ds[i].codec.outputColorspace(encoding, cs);
      if outputColorspace in modes {
        var encodingColorspaces := Recorded(full, encoding);
        if cs !in encodingColorspaces {
          encodingColorspaces := encodingColorspaces + [cs];
        }
        full := full[encoding := encodingColorspaces];
      }
      i := i + 1;
    }
  }

  /**
   * One encoding of `get_server_full_csc_modes`: its input colorspaces in sorted
   * order, each recorded when some decoder of it outputs a client mode.
   */
  method RecordEncoding(full0: map<string, seq<string>>, encoding: string,
                        row: map<string, seq<DecoderEntry>>, modes: seq<string>) returns (full: map<string, seq<string>>)
    requires encoding !in full0
    ensures full.Keys == full0.Keys + (if ViableRow(encoding, row, Elems(modes)) != {} then {encoding} else {})
    ensures forall e :: e in full0 ==> full[e] == full0[e]
    ensures encoding in full ==> Ascending(full[encoding]) && Elems(full[encoding]) == ViableRow(encoding, row, Elems(modes))
  {
    var css := SortedKeys(row.Keys);
    var viable := cs => ViableIn(encoding, row, Elems(modes), cs);
    full := full0;
    var j := 0;
    while j < |css|
      invariant 0 <= j <= |css|
      invariant full == WithRecorded(full0, encoding, Filter(css[..j], viable))
    {
      var cs := css[j];
      assert cs in row by { assert cs in Elems(css); }
      PrefixNotRecorded(full0, encoding, css, j, viable, full);
      ghost var prev := full;
      full := RecordIfDecodable(full, encoding, cs, row[cs], modes);
      PrefixAdvance(full0, encoding, css, j, viable, prev, full, DecodesInto(encoding, cs, row[cs], Elems(modes)));
      j := j + 1;
    }
    assert css[..j] == css;
    SortedViable(css, encoding, row, Elems(modes), viable);
  }

  /** The query's map once the colorspaces `done` are recorded for `encoding`: no key while none is. */
  function WithRecorded(full0: map<string, seq<string>>, encoding: string, done: seq<string>): map<string, seq<string>>
  {
    if done == [] then full0 else full0[encoding := done]
  }

  /** A sorted colorspace has not been recorded by the colorspaces before it. */
  lemma PrefixNotRecorded(full0: map<string, seq<string>>, encoding: string, css: seq<string>, j: int,
                          viable: string -> bool, full: map<string, seq<string>>)
    requires encoding !in full0 && Ascending(css) && 0 <= j < |css|
    requires full == WithRecorded(full0, encoding, Filter(css[..j], viable))
    ensures css[j] !in Recorded(full, encoding)
  {
    AscendingFresh(css, j);
  }

  /** One pass of the colorspace loop records the next sorted colorspace exactly when it is viable. */
  lemma PrefixAdvance(full0: map<string, seq<string>>, encoding: string, css: seq<string>, j: int,
                      viable: string -> bool, prev: map<string, seq<string>>, next: map<string, seq<string>>, d: bool)
    requires encoding !in full0 && 0 <= j < |css|
    requires prev == WithRecorded(full0, encoding, Filter(css[..j], viable))
    requires d == viable(css[j])
    requires next == if d then prev[encoding := Recorded(prev, encoding) + [css[j]]] else prev
    ensures next == WithRecorded(full0, encoding, Filter(css[..j + 1], viable))
  {
    RecordStep(full0, encoding, prev, next, Filter(css[..j], viable), css[j], d);
    assert css[..j + 1] == css[..j] + [css[j]];
    FilterSnoc(css[..j], css[j], viable);
  }

  lemma RecordStep(full0: map<string, seq<string>>, encoding: string, prev: map<string, seq<string>>,
                   next: map<string, seq<string>>, done: seq<string>, cs: string, d: bool)
    requires prev == if done == [] then full0 else full0[encoding := done]
    requires encoding !in full0
    requires next == if d then prev[encoding := Recorded(prev, encoding) + [cs]] else prev
    ensures var done' := done + (if d then [cs] else []);
      next == if done' == [] then full0 else full0[encoding := done']
  {
    assert Recorded(prev, encoding) == done;
    if d {
      assert done + [cs] != [];
      assert prev[encoding := done + [cs]] == full0[encoding := done + [cs]];
    } else {
      assert done + [] == done;
    }
  }

  lemma SortedViable(css: seq<string>, encoding: string, row: map<string, seq<DecoderEntry>>,
                     modes: set<string>, viable: string -> bool)
    requires Ascending(css) && Elems(css) == row.Keys
    requires forall cs :: viable(cs) == ViableIn(encoding, row, modes, cs)
    ensures Ascending(Filter(css, viable))
    ensures Elems(Filter(css, viable)) == ViableRow(encoding, row, modes)
    ensures Filter(css, viable) != [] <==> ViableRow(encoding, row, modes) != {}
  {
    FilterAscending(css, viable);
    ElemsEmpty(Filter(css, viable));
  }

  /**
   * The inner loop of `get_server_full_csc_modes_for_rgb` for one csc source:
   * stop at the first output colorspace that is a target and has specs.
   */
  method FeedsAny(row: map<string, seq<Spec>>, targets: seq<string>) returns (b: bool)
    ensures b == FeedsTargets(row, Elems(targets))
  {
    b := false;
    var todo := row.Keys;
    while todo != {}
      invariant todo <= row.Keys
      invariant forall dst :: dst in row && dst !in todo ==> !(dst in targets && row[dst] != [])
      decreases |todo|
    {
      var dst :| dst in todo;
      if dst in targets && row[dst] != [] {
        b := true;
        break;
      }
      todo := todo - {dst};
    }
  }
}
