/**
 * Concrete scenarios and multi-call properties of the registry: negotiation on
 * small tables, clone independence, and the init / cleanup life cycle.
 */
module Scenarios {

  import opened Seqs
  import opened Strings
  import opened Tables
  import opened Codecs
  import opened Negotiation
  import opened Registry
  import Selection
  import Population

  /** A decoder for "V1" from `input` whose actual output colorspace is always `output`. */
  function FixedOutputDecoder(input: string, output: string): DecoderModule
  {
    DecoderModule(["V1"], e => [input], (e, cs) => output, true)
  }

  /** A decoder table with one entry, for ("V1", `input`). */
  function OneDecoderTable(input: string, output: string): Table<DecoderEntry>
  {
    map["V1" := map[input := [DecoderEntry("dec_example", FixedOutputDecoder(input, output))]]]
  }

  /** A decoder for ("V1", "YUV420P") that outputs RGB is offered to an RGB client, and to no RGB2 client. */
  lemma ResolveByColorspaceExample()
    ensures FullCscModeSets(OneDecoderTable("YUV420P", "RGB"), {"RGB"}) == map["V1" := {"YUV420P"}]
    ensures FullCscModeSets(OneDecoderTable("YUV420P", "RGB"), {"RGB2"}) == map[]
  {
    var t: Table<DecoderEntry> := OneDecoderTable("YUV420P", "RGB");
    assert t["V1"]["YUV420P"][0].codec.outputColorspace("V1", "YUV420P") == "RGB";
    assert DecodesInto("V1", "YUV420P", t["V1"]["YUV420P"], {"RGB"});
    assert ViableRow("V1", t["V1"], {"RGB"}) == {"YUV420P"};
    assert ViableRow("V1", t["V1"], {"RGB2"}) == {};
  }

  /** So the query's answer is exactly {"V1": ["YUV420P"]}. */
  lemma ResolveByColorspaceAnswer(r: map<string, seq<string>>)
    requires Represents(r, FullCscModeSets(OneDecoderTable("YUV420P", "RGB"), {"RGB"}))
    ensures r == map["V1" := ["YUV420P"]]
  {
    ResolveByColorspaceExample();
    var expected := map["V1" := ["YUV420P"]];
    assert Elems(["YUV420P"]) == {"YUV420P"};
    assert Represents(expected, FullCscModeSets(OneDecoderTable("YUV420P", "RGB"), {"RGB"}));
    RepresentsUnique(r, expected, FullCscModeSets(OneDecoderTable("YUV420P", "RGB"), {"RGB"}));
  }

  /** A csc table with one conversion, YUV444P to RGB. */
  function YuvToRgbCsc(): Table<Spec>
  {
    map["YUV444P" := map["RGB" := [Spec("csc_example", map[])]]]
  }

  /**
   * A decoder keyed on YUV444P that outputs YUV444P is missed by the plain
   * query for RGB, and found by the RGB variant thanks to the csc step.
   */
  lemma ResolveByRgbExample()
    ensures "YUV444P" in RgbModes(YuvToRgbCsc(), {"RGB"})
    ensures FullCscModeSets(OneDecoderTable("YUV444P", "YUV444P"), {"RGB"}) == map[]
    ensures FullCscModeSets(OneDecoderTable("YUV444P", "YUV444P"), RgbModes(YuvToRgbCsc(), {"RGB"})) == map["V1" := {"YUV444P"}]
  {
    var csc := YuvToRgbCsc();
    assert FeedsTargets(csc["YUV444P"], {"RGB"});
    var t: Table<DecoderEntry> := OneDecoderTable("YUV444P", "YUV444P");
    var modes := RgbModes(csc, {"RGB"});
    assert ViableRow("V1", t["V1"], {"RGB"}) == {};
    assert t["V1"]["YUV444P"][0].codec.outputColorspace("V1", "YUV444P") == "YUV444P";
    assert DecodesInto("V1", "YUV444P", t["V1"]["YUV444P"], modes);
    assert ViableRow("V1", t["V1"], modes) == {"YUV444P"};
  }

  /**
   * After cloning, registering a spec in the clone and another in the source
   * leaves each helper with its own insert only: the clone sees `toClone` and
   * not `toSource`, the source sees `toSource` and not `toClone`. `cloned` is
   * the source's encoder table at the moment of cloning.
   */
  method CloneIsIndependent(h: VideoHelper, loader: Loader, encoding: string, colorspace: string,
                            toClone: Spec, toSource: Spec)
    returns (c: VideoHelper, cloned: Table<Spec>)
    modifies h
    ensures fresh(c)
    ensures cloned == if old(h.initialized) then old(h.encoderSpecs)
                      else AddAll(old(h.encoderSpecs), Population.EncoderEntries(loader, h.videoEncoders))
    ensures h.encoderSpecs == Add(cloned, encoding, colorspace, toSource)
    ensures forall a, b :: Lookup(c.encoderSpecs, a, b) == Lookup(Add(cloned, encoding, colorspace, toClone), a, b)
  {
    c := h.Clone(loader);
    cloned := h.encoderSpecs;
    c.AddEncoderSpec(encoding, colorspace, toClone);
    h.AddEncoderSpec(encoding, colorspace, toSource);
  }

  /**
   * `cleanup`, then `set_modules` with some lists, then `init`, leaves the helper
   * with exactly the tables a new, empty helper over the same catalog gets from
   * the same `set_modules` and `init`: each is what the selected modules contribute.
   */
  method CleanupSetModulesInit(h: VideoHelper, loader: Loader,
                               videoEncoderList: seq<string>, cscModuleList: seq<string>, videoDecoderList: seq<string>)
    returns (f: VideoHelper)
    modifies h
    requires h.initialized
    ensures fresh(f) && h.initialized && f.initialized
    ensures h.encoderSpecs == f.encoderSpecs ==
            AddAll(map[], Population.EncoderEntries(loader, Selection.Filt(videoEncoderList, h.catalog.encoders)))
    ensures h.cscSpecs == f.cscSpecs ==
            AddAll(map[], Population.CscEntries(loader, Selection.Filt(cscModuleList, h.catalog.csc)))
    ensures h.decoderSpecs == f.decoderSpecs ==
            AddAll(map[], Population.DecoderEntries(loader, Selection.Filt(videoDecoderList, h.catalog.decoders)))
  {
    h.Cleanup();
    var ok := h.SetModules(videoEncoderList, cscModuleList, videoDecoderList);
    h.Init(loader);
    f := new VideoHelper(h.catalog, map[], map[], map[], false);
    ok := f.SetModules(videoEncoderList, cscModuleList, videoDecoderList);
    f.Init(loader);
  }

  /**
   * `cleanup` forgets the selections as well as the tables, so a following
   * `init` (without a new `set_modules`) registers nothing at all.
   */
  method CleanupThenInit(h: VideoHelper, loader: Loader)
    modifies h
    requires h.initialized
    ensures h.initialized
    ensures h.encoderSpecs == map[] && h.cscSpecs == map[] && h.decoderSpecs == map[]
  {
    h.Cleanup();
    h.Init(loader);
    assert Population.EncoderEntries(loader, []) == [];
  }

  /** A second `init` changes nothing: the tables are populated once. */
  method InitTwice(h: VideoHelper, loader: Loader)
    modifies h
    ensures h.initialized
    ensures h.encoderSpecs == if old(h.initialized) then old(h.encoderSpecs)
                              else AddAll(old(h.encoderSpecs), Population.EncoderEntries(loader, h.videoEncoders))
    ensures h.cscSpecs == if old(h.initialized) then old(h.cscSpecs)
                          else AddAll(old(h.cscSpecs), Population.CscEntries(loader, h.cscModules))
    ensures h.decoderSpecs == if old(h.initialized) then old(h.decoderSpecs)
                              else AddAll(old(h.decoderSpecs), Population.DecoderEntries(loader, h.videoDecoders))
  {
    h.Init(loader);
    h.Init(loader);
  }
}
