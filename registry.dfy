/**
 * The video helper: a registry of the video encoders, csc modules and decoders
 * that were selected and could be loaded, with the format pairs each supports.
 */
module Registry {

  import opened Wrappers
  import opened Seqs
  import opened Strings
  import opened Tables
  import opened Codecs
  import opened ModuleNames
  import opened Catalog
  import opened Selection
  import opened Population
  import opened Negotiation
  import opened Info

  /** The codec type of a spec, as the report shows it. */
  function CodecTypeOf(s: Spec): string
  {
    s.codecType
  }

  /** The decoder name of a decoder entry, as the report shows it. */
  function DecoderNameOf(d: DecoderEntry): string
  {
    d.name
  }

  /** The "video-encoder" part of `get_info`: the status of every catalog encoder. */
  method EncoderStatuses(catalog: AllOptions, loader: Loader, active: seq<string>) returns (venc: map<string, ModuleStatus>)
    ensures venc.Keys == Elems(catalog.encoders)
    ensures forall x :: x in venc ==>
      (venc[x] == Active <==> x in active) &&
      (venc[x] == Disabled <==> x !in active && FirstLoadedEncoder(catalog, loader, x))
  {
    venc := map[];
    var i := 0;
    while i < |catalog.encoders|
      invariant 0 <= i <= |catalog.encoders|
      invariant venc.Keys == Elems(catalog.encoders[..i])
      invariant forall x :: x in venc ==>
        (venc[x] == Active <==> x in active) &&
        (venc[x] == Disabled <==> x !in active && FirstLoadedEncoder(catalog, loader, x))
    {
      var x := catalog.encoders[i];
      var defaults := DefaultVideoEncoders(catalog, loader);
      venc := venc[x := ModStatus(x, defaults, active)];
      assert catalog.encoders[..i + 1] == catalog.encoders[..i] + [x];
      i := i + 1;
    }
    assert catalog.encoders[..i] == catalog.encoders;
  }

  /** The "csc-module" part of `get_info`: the status of every catalog csc module. */
  method CscStatuses(catalog: AllOptions, loader: Loader, active: seq<string>) returns (cscm: map<string, ModuleStatus>)
    ensures cscm.Keys == Elems(catalog.csc)
    ensures forall x :: x in cscm ==>
      (cscm[x] == Active <==> x in active) &&
      (cscm[x] == Disabled <==> x !in active && CscLoaded(loader, x))
  {
    cscm := map[];
    var i := 0;
    while i < |catalog.csc|
      invariant 0 <= i <= |catalog.csc|
      invariant cscm.Keys == Elems(catalog.csc[..i])
      invariant forall x :: x in cscm ==>
        (cscm[x] == Active <==> x in active) &&
        (cscm[x] == Disabled <==> x !in active && CscLoaded(loader, x))
    {
      var x := catalog.csc[i];
      var defaults := DefaultCscModules(catalog, loader);
      cscm := cscm[x := ModStatus(x, defaults, active)];
      assert catalog.csc[..i + 1] == catalog.csc[..i] + [x];
      i := i + 1;
    }
    assert catalog.csc[..i] == catalog.csc;
  }

  class VideoHelper {

    /** The catalog of known module names the selection is checked against. */
    const catalog: AllOptions

    /** encoding -> input colorspace -> encoder specs */
    var encoderSpecs: Table<Spec>
    /** input colorspace -> output colorspace -> csc specs */
    var cscSpecs: Table<Spec>
    /** encoding -> input colorspace -> (decoder name, decoder module) */
    var decoderSpecs: Table<DecoderEntry>

    /** The selected module names, as `set_modules` left them. */
    var videoEncoders: seq<string>
    var cscModules: seq<string>
    var videoDecoders: seq<string>

    /** Modules to tear down on cleanup. */
    var cleanupModules: seq<string>

    /** Whether `init` has run (and `cleanup` has not run since). */
    var initialized: bool

    /** A helper over the given tables, with nothing selected. */
    constructor (options: AllOptions, vencspecs: Table<Spec>, cscspecs: Table<Spec>, vdecspecs: Table<DecoderEntry>, init: bool)
      ensures catalog == options
      ensures encoderSpecs == vencspecs && cscSpecs == cscspecs && decoderSpecs == vdecspecs
      ensures videoEncoders == [] && cscModules == [] && videoDecoders == [] && cleanupModules == []
      ensures initialized == init
    {
      catalog := options;
      encoderSpecs := vencspecs;
      cscSpecs := cscspecs;
      decoderSpecs := vdecspecs;
      videoEncoders := [];
      cscModules := [];
      videoDecoders := [];
      cleanupModules := [];
      initialized := init;
    }

    /**
     * `set_modules`: refused (false, nothing changes) once initialized; otherwise
     * each selection is the user's list run through the selection filter against its catalog list.
     */
    method SetModules(videoEncoderList: seq<string>, cscModuleList: seq<string>, videoDecoderList: seq<string>)
      returns (ok: bool)
      modifies this`videoEncoders, this`cscModules, this`videoDecoders
      ensures ok == !initialized
      ensures ok ==> videoEncoders == Filt(videoEncoderList, catalog.encoders) &&
                     cscModules == Filt(cscModuleList, catalog.csc) &&
                     videoDecoders == Filt(videoDecoderList, catalog.decoders)
      ensures !ok ==> videoEncoders == old(videoEncoders) && cscModules == old(cscModules) &&
                      videoDecoders == old(videoDecoders)
    {
      if initialized {
        return false;
      }
      videoEncoders := Filt(videoEncoderList, catalog.encoders);
      cscModules := Filt(cscModuleList, catalog.csc);
      videoDecoders := Filt(videoDecoderList, catalog.decoders);
      return true;
    }

    // ---- Queries ----

    /** `get_encodings`: on a table built by inserts, exactly the encodings with at least one spec. */
    function GetEncodings(): (r: set<string>)
      reads this
      ensures NoEmpty(encoderSpecs) ==> forall e :: e in r <==> exists cs :: Lookup(encoderSpecs, e, cs) != []
    {
      OuterKeysOccupied(encoderSpecs);
      encoderSpecs.Keys
    }

    /** `get_decodings`: on a table built by inserts, exactly the encodings with at least one decoder. */
    function GetDecodings(): (r: set<string>)
      reads this
      ensures NoEmpty(decoderSpecs) ==> forall e :: e in r <==> exists cs :: Lookup(decoderSpecs, e, cs) != []
    {
      OuterKeysOccupied(decoderSpecs);
      decoderSpecs.Keys
    }

    /** `get_csc_inputs`: on a table built by inserts, exactly the input colorspaces with at least one csc spec. */
    function GetCscInputs(): (r: set<string>)
      reads this
      ensures NoEmpty(cscSpecs) ==> forall i :: i in r <==> exists o :: Lookup(cscSpecs, i, o) != []
    {
      OuterKeysOccupied(cscSpecs);
      cscSpecs.Keys
    }

    /** `get_encoder_specs`: the input colorspaces of an encoding with their specs; empty for an unknown encoding. */
    function GetEncoderSpecs(encoding: string): (r: map<string, seq<Spec>>)
      reads this
      ensures r.Keys == (if encoding in encoderSpecs then encoderSpecs[encoding].Keys else {})
      ensures forall cs :: cs in r ==> r[cs] == Lookup(encoderSpecs, encoding, cs)
    {
      Inner(encoderSpecs, encoding)
    }

    /** `get_csc_specs`: the output colorspaces of an input colorspace with their specs; empty for an unknown one. */
    function GetCscSpecs(srcFormat: string): (r: map<string, seq<Spec>>)
      reads this
      ensures r.Keys == (if srcFormat in cscSpecs then cscSpecs[srcFormat].Keys else {})
      ensures forall o :: o in r ==> r[o] == Lookup(cscSpecs, srcFormat, o)
    {
      Inner(cscSpecs, srcFormat)
    }

    /** `get_decoder_specs`: the input colorspaces of an encoding with their decoders; empty for an unknown encoding. */
    function GetDecoderSpecs(encoding: string): (r: map<string, seq<DecoderEntry>>)
      reads this
      ensures r.Keys == (if encoding in decoderSpecs then decoderSpecs[encoding].Keys else {})
      ensures forall cs :: cs in r ==> r[cs] == Lookup(decoderSpecs, encoding, cs)
    {
      Inner(decoderSpecs, encoding)
    }

    // ---- Registration ----

    /** `add_encoder_spec`: the spec is appended under (encoding, colorspace). */
    method AddEncoderSpec(encoding: string, colorspace: string, spec: Spec)
      modifies this`encoderSpecs
      ensures encoderSpecs == Add(old(encoderSpecs), encoding, colorspace, spec)
    {
      encoderSpecs := Add(encoderSpecs, encoding, colorspace, spec);
    }

    /** `add_csc_spec`: the spec is appended under (in_csc, out_csc). */
    method AddCscSpec(inCsc: string, outCsc: string, spec: Spec)
      modifies this`cscSpecs
      ensures cscSpecs == Add(old(cscSpecs), inCsc, outCsc, spec)
    {
      cscSpecs := Add(cscSpecs, inCsc, outCsc, spec);
    }

    /** `add_decoder`: the (name, module) pair is appended under (encoding, colorspace). */
    method AddDecoder(encoding: string, colorspace: string, decoderName: string, decoderModule: DecoderModule)
      modifies this`decoderSpecs
      ensures decoderSpecs == Add(old(decoderSpecs), encoding, colorspace, DecoderEntry(decoderName, decoderModule))
    {
      decoderSpecs := Add(decoderSpecs, encoding, colorspace, DecoderEntry(decoderName, decoderModule));
    }

    /**
     * The inner loop of `init_video_encoder_option`, for one encoding: the spec of
     * every declared input colorspace, in order, until a `get_spec` call fails.
     */
    method AddEncodingSpecs(m: SpecModule, encoding: string) returns (ok: bool)
      modifies this`encoderSpecs
      ensures encoderSpecs == AddAll(old(encoderSpecs), InnerAttempt(m, encoding, m.keys2(encoding)).entries)
      ensures ok == InnerAttempt(m, encoding, m.keys2(encoding)).completed
    {
      var colorspaces := m.keys2(encoding);
      ghost var t0 := encoderSpecs;
      var j := 0;
      while j < |colorspaces|
        invariant 0 <= j <= |colorspaces|
        invariant InnerAttempt(m, encoding, colorspaces[..j]).completed
        invariant encoderSpecs == AddAll(t0, InnerAttempt(m, encoding, colorspaces[..j]).entries)
      {
        var colorspace := colorspaces[j];
        var spec := m.getSpec(encoding, colorspace);
        if spec.None? {
          InnerPrefixStop(m, encoding, colorspaces, j);
          return false;
        }
        InnerPrefixStep(m, encoding, colorspaces, j, spec.value);
        AddAllSnoc(t0, InnerAttempt(m, encoding, colorspaces[..j]).entries, Entry(encoding, colorspace, spec.value));
        AddEncoderSpec(encoding, colorspace, spec.value);
        j := j + 1;
      }
      assert colorspaces[..j] == colorspaces;
      return true;
    }

    /**
     * `init_video_encoder_option`: every declared (encoding, input colorspace) pair
     * of the module gets its spec, in declaration order; a failing `get_spec`
     * ends the module (false) and keeps what was added before it.
     */
    method InitVideoEncoderOption(loader: Loader, encoderName: string) returns (ok: bool)
      modifies this`encoderSpecs
      ensures encoderSpecs == AddAll(old(encoderSpecs), LoadedSpecEntries(loader.encoderCodec(encoderName)))
      ensures ok <==> match loader.encoderCodec(encoderName)
                        case None => true
                        case Some(m) => ModuleAttempt(m).completed
    {
      var encoderModule := loader.encoderCodec(encoderName);
      if encoderModule.None? {
        return true;
      }
      var m := encoderModule.value;
      var encodings := m.keys1;
      ghost var t0 := encoderSpecs;
      var i := 0;
      while i < |encodings|
        invariant 0 <= i <= |encodings|
        invariant OuterAttempt(m, encodings[..i]).completed
        invariant encoderSpecs == AddAll(t0, OuterAttempt(m, encodings[..i]).entries)
      {
        var encoding := encodings[i];
        ghost var done := OuterAttempt(m, encodings[..i]).entries;
        OuterPrefixStep(m, encodings, i);
        var rowOk := AddEncodingSpecs(m, encoding);
        AddAllConcat(t0, done, InnerAttempt(m, encoding, m.keys2(encoding)).entries);
        if !rowOk {
          return false;
        }
        i := i + 1;
      }
      assert encodings[..i] == encodings;
      return true;
    }

    /**
     * `init_video_encoders_options`: every selected encoder in turn; a module that
     * is missing or fails part-way does not stop the others.
     */
    method InitVideoEncodersOptions(loader: Loader)
      modifies this`encoderSpecs
      ensures encoderSpecs == AddAll(old(encoderSpecs), EncoderEntries(loader, videoEncoders))
    {
      ghost var t0 := encoderSpecs;
      var names := videoEncoders;
      var k := 0;
      while k < |names|
        invariant 0 <= k <= |names|
        invariant encoderSpecs == AddAll(t0, EncoderEntries(loader, names[..k]))
      {
        var mod := EncoderModuleName(names[k]);
        EncoderEntriesPrefixStep(loader, names, k);
        AddAllConcat(t0, EncoderEntries(loader, names[..k]), LoadedSpecEntries(loader.encoderCodec(mod)));
        var _ := InitVideoEncoderOption(loader, mod);
        k := k + 1;
      }
      assert names[..k] == names;
    }

    /**
     * The inner loop of `init_csc_option`, for one input colorspace: the spec of
     * every declared output colorspace, in order, until a `get_spec` call fails.
     */
    method AddCscRowSpecs(m: SpecModule, inCsc: string) returns (ok: bool)
      modifies this`cscSpecs
      ensures cscSpecs == AddAll(old(cscSpecs), InnerAttempt(m, inCsc, m.keys2(inCsc)).entries)
      ensures ok == InnerAttempt(m, inCsc, m.keys2(inCsc)).completed
    {
      var outCscs := m.keys2(inCsc);
      ghost var t0 := cscSpecs;
      var j := 0;
      while j < |outCscs|
        invariant 0 <= j <= |outCscs|
        invariant InnerAttempt(m, inCsc, outCscs[..j]).completed
        invariant cscSpecs == AddAll(t0, InnerAttempt(m, inCsc, outCscs[..j]).entries)
      {
        var outCsc := outCscs[j];
        var spec := m.getSpec(inCsc, outCsc);
        if spec.None? {
          InnerPrefixStop(m, inCsc, outCscs, j);
          return false;
        }
        InnerPrefixStep(m, inCsc, outCscs, j, spec.value);
        AddAllSnoc(t0, InnerAttempt(m, inCsc, outCscs[..j]).entries, Entry(inCsc, outCsc, spec.value));
        AddCscSpec(inCsc, outCsc, spec.value);
        j := j + 1;
      }
      assert outCscs[..j] == outCscs;
      return true;
    }

    /**
     * `init_csc_option`: every declared (input, output) colorspace pair of the
     * module gets its spec, in declaration order; a failing `get_spec` ends the
     * module (false) and keeps what was added before it.
     */
    method InitCscOption(loader: Loader, cscName: string) returns (ok: bool)
      modifies this`cscSpecs
      ensures cscSpecs == AddAll(old(cscSpecs), LoadedSpecEntries(loader.cscCodec(cscName)))
      ensures ok <==> match loader.cscCodec(cscName)
                        case None => true
                        case Some(m) => ModuleAttempt(m).completed
    {
      var cscModule := loader.cscCodec(cscName);
      if cscModule.None? {
        return true;
      }
      var m := cscModule.value;
      var inCscs := m.keys1;
      ghost var t0 := cscSpecs;
      var i := 0;
      while i < |inCscs|
        invariant 0 <= i <= |inCscs|
        invariant OuterAttempt(m, inCscs[..i]).completed
        invariant cscSpecs == AddAll(t0, OuterAttempt(m, inCscs[..i]).entries)
      {
        var inCsc := inCscs[i];
        ghost var done := OuterAttempt(m, inCscs[..i]).entries;
        OuterPrefixStep(m, inCscs, i);
        var rowOk := AddCscRowSpecs(m, inCsc);
        AddAllConcat(t0, done, InnerAttempt(m, inCsc, m.keys2(inCsc)).entries);
        if !rowOk {
          return false;
        }
        i := i + 1;
      }
      assert inCscs[..i] == inCscs;
      return true;
    }

    /** `init_csc_options`: every selected csc module in turn, independently of the others. */
    method InitCscOptions(loader: Loader)
      modifies this`cscSpecs
      ensures cscSpecs == AddAll(old(cscSpecs), CscEntries(loader, cscModules))
    {
      ghost var t0 := cscSpecs;
      var names := cscModules;
      var k := 0;
      while k < |names|
        invariant 0 <= k <= |names|
        invariant cscSpecs == AddAll(t0, CscEntries(loader, names[..k]))
      {
        var mod := CscModuleName(names[k]);
        CscEntriesPrefixStep(loader, names, k);
        AddAllConcat(t0, CscEntries(loader, names[..k]), LoadedSpecEntries(loader.cscCodec(mod)));
        var _ := InitCscOption(loader, mod);
        k := k + 1;
      }
      assert names[..k] == names;
    }

    /**
     * The inner loop of `init_video_decoder_option`, for one encoding: the module
     * is added for every declared input colorspace when its `Decoder` is usable.
     */
    method AddDecoderRow(decoderName: string, m: DecoderModule, encoding: string)
      modifies this`decoderSpecs
      ensures decoderSpecs == AddAll(old(decoderSpecs), DecoderInner(decoderName, m, encoding, m.inputColorspaces(encoding)))
    {
      var colorspaces := m.inputColorspaces(encoding);
      ghost var t0 := decoderSpecs;
      var j := 0;
      while j < |colorspaces|
        invariant 0 <= j <= |colorspaces|
        invariant decoderSpecs == AddAll(t0, DecoderInner(decoderName, m, encoding, colorspaces[..j]))
      {
        var colorspace := colorspaces[j];
        DecoderInnerPrefixStep(decoderName, m, encoding, colorspaces, j);
        if m.hasDecoder {
          AddAllSnoc(t0, DecoderInner(decoderName, m, encoding, colorspaces[..j]),
                     Entry(encoding, colorspace, DecoderEntry(decoderName, m)));
          AddDecoder(encoding, colorspace, decoderName, m);
        } else {
          assert DecoderInner(decoderName, m, encoding, colorspaces[..j]) + [] ==
                 DecoderInner(decoderName, m, encoding, colorspaces[..j]);
        }
        j := j + 1;
      }
      assert colorspaces[..j] == colorspaces;
    }

    /** `init_video_decoder_option`: the module is registered for every pair it declares, when usable. */
    method InitVideoDecoderOption(loader: Loader, decoderName: string)
      modifies this`decoderSpecs
      ensures decoderSpecs == AddAll(old(decoderSpecs), LoadedDecoderEntries(decoderName, loader.decoderCodec(decoderName)))
    {
      var decoderModule := loader.decoderCodec(decoderName);
      if decoderModule.None? {
        return;
      }
      var m := decoderModule.value;
      var encodings := m.encodings;
      ghost var t0 := decoderSpecs;
      var i := 0;
      while i < |encodings|
        invariant 0 <= i <= |encodings|
        invariant decoderSpecs == AddAll(t0, DecoderOuter(decoderName, m, encodings[..i]))
      {
        var encoding := encodings[i];
        DecoderOuterPrefixStep(decoderName, m, encodings, i);
        AddAllConcat(t0, DecoderOuter(decoderName, m, encodings[..i]),
                     DecoderInner(decoderName, m, encoding, m.inputColorspaces(encoding)));
        AddDecoderRow(decoderName, m, encoding);
        i := i + 1;
      }
      assert encodings[..i] == encodings;
    }

    /** `init_video_decoders_options`: every selected decoder in turn, independently of the others. */
    method InitVideoDecodersOptions(loader: Loader)
      modifies this`decoderSpecs
      ensures decoderSpecs == AddAll(old(decoderSpecs), DecoderEntries(loader, videoDecoders))
    {
      ghost var t0 := decoderSpecs;
      var names := videoDecoders;
      var k := 0;
      while k < |names|
        invariant 0 <= k <= |names|
        invariant decoderSpecs == AddAll(t0, DecoderEntries(loader, names[..k]))
      {
        var mod := DecoderModuleName(names[k]);
        DecoderEntriesPrefixStep(loader, names, k);
        AddAllConcat(t0, DecoderEntries(loader, names[..k]), LoadedDecoderEntries(mod, loader.decoderCodec(mod)));
        InitVideoDecoderOption(loader, mod);
        k := k + 1;
      }
      assert names[..k] == names;
    }

    /**
     * `init`: once only. The first call registers, for every selected module
     * that loads, the entries it contributes; later calls change nothing.
     */
    method Init(loader: Loader)
      modifies this`encoderSpecs, this`cscSpecs, this`decoderSpecs, this`initialized
      ensures initialized
      ensures encoderSpecs == if old(initialized) then old(encoderSpecs)
                              else AddAll(old(encoderSpecs), EncoderEntries(loader, videoEncoders))
      ensures cscSpecs == if old(initialized) then old(cscSpecs)
                          else AddAll(old(cscSpecs), CscEntries(loader, cscModules))
      ensures decoderSpecs == if old(initialized) then old(decoderSpecs)
                              else AddAll(old(decoderSpecs), DecoderEntries(loader, videoDecoders))
    {
      if initialized {
        return;
      }
      InitVideoEncodersOptions(loader);
      InitCscOptions(loader);
      InitVideoDecodersOptions(loader);
      initialized := true;
    }

    /**
     * `cleanup`: a no-op unless initialized; otherwise every table and selection
     * is emptied, the teardown list is consumed, and the helper is uninitialized.
     */
    method Cleanup()
      modifies this
      ensures !initialized
      ensures !old(initialized) ==> unchanged(this)
      ensures old(initialized) ==>
        encoderSpecs == map[] && cscSpecs == map[] && decoderSpecs == map[] &&
        videoEncoders == [] && cscModules == [] && videoDecoders == [] && cleanupModules == []
    {
      if !initialized {
        return;
      }
      cleanupModules := [];
      encoderSpecs := map[];
      cscSpecs := map[];
      decoderSpecs := map[];
      videoEncoders := [];
      cscModules := [];
      videoDecoders := [];
      initialized := false;
    }

    /**
     * `clone`: initializes this helper first if needed, then returns a new,
     * initialized helper with its own copies of the three tables (the same
     * values in the same order) and nothing selected.
     */
    method Clone(loader: Loader) returns (c: VideoHelper)
      modifies this`encoderSpecs, this`cscSpecs, this`decoderSpecs, this`initialized
      ensures initialized
      ensures encoderSpecs == if old(initialized) then old(encoderSpecs)
                              else AddAll(old(encoderSpecs), EncoderEntries(loader, videoEncoders))
      ensures cscSpecs == if old(initialized) then old(cscSpecs)
                          else AddAll(old(cscSpecs), CscEntries(loader, cscModules))
      ensures decoderSpecs == if old(initialized) then old(decoderSpecs)
                              else AddAll(old(decoderSpecs), DecoderEntries(loader, videoDecoders))
      ensures fresh(c) && c.initialized && c.catalog == catalog
      ensures c.videoEncoders == [] && c.cscModules == [] && c.videoDecoders == [] && c.cleanupModules == []
      ensures NoEmpty(c.encoderSpecs) && forall k1, k2 :: Lookup(c.encoderSpecs, k1, k2) == Lookup(encoderSpecs, k1, k2)
      ensures NoEmpty(c.cscSpecs) && forall k1, k2 :: Lookup(c.cscSpecs, k1, k2) == Lookup(cscSpecs, k1, k2)
      ensures NoEmpty(c.decoderSpecs) && forall k1, k2 :: Lookup(c.decoderSpecs, k1, k2) == Lookup(decoderSpecs, k1, k2)
    {
      if !initialized {
        Init(loader);
      }
      var ves := DeepishClone(encoderSpecs);
      var ces := DeepishClone(cscSpecs);
      var vds := DeepishClone(decoderSpecs);
      c := new VideoHelper(catalog, ves, ces, vds, true);
    }

    /**
     * `get_info`: one section per table (the encoding section keyed by input
     * colorspace first; only the csc section lists pairs with no spec), and the
     * status of every catalog encoder and csc module.
     */
    method GetInfo(loader: Loader) returns (info: Info)
      ensures Summarizes(info.encoding, encoderSpecs, CodecTypeOf, false, true)
      ensures Summarizes(info.csc, cscSpecs, CodecTypeOf, true, false)
      ensures Summarizes(info.decoding, decoderSpecs, DecoderNameOf, false, false)
      ensures info.videoEncoder.Keys == Elems(catalog.encoders)
      ensures forall x :: x in info.videoEncoder ==>
        (info.videoEncoder[x] == Active <==> x in videoEncoders) &&
        (info.videoEncoder[x] == Disabled <==> x !in videoEncoders && FirstLoadedEncoder(catalog, loader, x))
      ensures info.cscModule.Keys == Elems(catalog.csc)
      ensures forall x :: x in info.cscModule ==>
        (info.cscModule[x] == Active <==> x in cscModules) &&
        (info.cscModule[x] == Disabled <==> x !in cscModules && CscLoaded(loader, x))
    {
      var einfo := Summarize(encoderSpecs, CodecTypeOf, false, true);
      var cinfo := Summarize(cscSpecs, CodecTypeOf, true, false);
      var dinfo := Summarize(decoderSpecs, DecoderNameOf, false, false);
      var venc := EncoderStatuses(catalog, loader, videoEncoders);
      var cscm := CscStatuses(catalog, loader, cscModules);
      info := Info(einfo, dinfo, cinfo, venc, cscm);
    }

    /**
     * `get_server_full_csc_modes`: for each encoding, its input colorspaces in
     * sorted order for which some registered decoder outputs a client mode;
     * encodings with none are left out.
     */
    method GetServerFullCscModes(clientModes: seq<string>) returns (r: map<string, seq<string>>)
      ensures Represents(r, FullCscModeSets(decoderSpecs, Elems(clientModes)))
    {
      r := map[];
      var todo := decoderSpecs.Keys;
      while todo != {}
        invariant todo <= decoderSpecs.Keys
        invariant forall e :: e in r <==> e !in todo && e in FullCscModeSets(decoderSpecs, Elems(clientModes))
        invariant forall e :: e in r ==>
          Ascending(r[e]) && Elems(r[e]) == FullCscModeSets(decoderSpecs, Elems(clientModes))[e]
        decreases |todo|
      {
        var encoding :| encoding in todo;
        r := RecordEncoding(r, encoding, decoderSpecs[encoding], clientModes);
        todo := todo - {encoding};
      }
    }

    /**
     * `get_server_full_csc_modes_for_rgb`: the plain query, asked for the target
     * modes plus every csc input colorspace that has a csc spec producing a target.
     */
    method GetServerFullCscModesForRgb(targetModes: seq<string>) returns (r: map<string, seq<string>>)
      ensures Represents(r, FullCscModeSets(decoderSpecs, RgbModes(cscSpecs, Elems(targetModes))))
    {
      var supported := targetModes;
      var todo := cscSpecs.Keys;
      while todo != {}
        invariant todo <= cscSpecs.Keys
        invariant forall x :: x in supported <==>
          x in targetModes || (x in cscSpecs && x !in todo && FeedsTargets(cscSpecs[x], Elems(targetModes)))
        decreases |todo|
      {
        var srcFormat :| srcFormat in todo;
        var feeds := FeedsAny(cscSpecs[srcFormat], targetModes);
        if feeds {
          supported := supported + [srcFormat];
        }
        todo := todo - {srcFormat};
      }
      assert Elems(supported) == RgbModes(cscSpecs, Elems(targetModes));
      r := GetServerFullCscModes(supported);
    }
  }
}
