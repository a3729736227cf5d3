/**
 * The process-wide catalog of codec names (the ALL_*_OPTIONS lists), how it is
 * probed, and the "installed defaults" the status report compares against.
 */
module Catalog {

  import opened Wrappers
  import opened Seqs
  import opened Codecs
  import opened ModuleNames

  /** ALL_VIDEO_ENCODER_OPTIONS, ALL_CSC_MODULE_OPTIONS and ALL_VIDEO_DECODER_OPTIONS. */
  datatype AllOptions = AllOptions(encoders: seq<string>, csc: seq<string>, decoders: seq<string>)

  /** CODEC_TO_MODULE: the module to probe for each codec name. */
  const CodecToModule: map<string, string> := map[
    "vpx" := "vpx",
    "x264" := "enc_x264",
    "x265" := "enc_x265",
    "nvenc" := "nvenc",
    "swscale" := "csc_swscale",
    "cython" := "csc_cython",
    "libyuv" := "csc_libyuv",
    "avcodec2" := "dec_avcodec2",
    "ffmpeg" := "enc_ffmpeg"
  ]

  /** A codec name whose module the prober reports as importable. */
  predicate Importable(probe: string -> bool, name: string)
  {
    name in CodecToModule && probe(CodecToModule[name])
  }

  /**
   * `try_import_modules`: the names whose module is importable, in the given order.
   * A name missing from CODEC_TO_MODULE raises KeyError: the first such name is the failure.
   */
  method TryImportModules(probe: string -> bool, codecNames: seq<string>) returns (r: Result<seq<string>, string>)
    ensures r.Success? <==> forall i :: 0 <= i < |codecNames| ==> codecNames[i] in CodecToModule
    ensures r.Success? ==> r.value == Filter(codecNames, n => Importable(probe, n))
    ensures r.Failure? ==> exists i :: 0 <= i < |codecNames| && codecNames[i] == r.error && r.error !in CodecToModule &&
                                      forall j :: 0 <= j < i ==> codecNames[j] in CodecToModule
  {
    var names: seq<string> := [];
    var i := 0;
    while i < |codecNames|
      invariant 0 <= i <= |codecNames|
      invariant forall j :: 0 <= j < i ==> codecNames[j] in CodecToModule
      invariant names == Filter(codecNames[..i], n => Importable(probe, n))
    {
      var codecName := codecNames[i];
      if codecName !in CodecToModule {
        return Failure(codecName);
      }
      var moduleName := CodecToModule[codecName];
      assert codecNames[..i + 1] == codecNames[..i] + [codecName];
      FilterAppend(codecNames[..i], [codecName], n => Importable(probe, n));
      if probe(moduleName) {
        names := names + [codecName];
      }
      i := i + 1;
    }
    assert codecNames[..i] == codecNames;
    return Success(names);
  }

  /** The encoder, csc and decoder names the module-level catalog is probed for, in order. */
  const EncoderNames: seq<string> := ["x264", "vpx", "x265", "nvenc", "ffmpeg"]
  const CscNames: seq<string> := ["swscale", "cython", "libyuv"]
  const DecoderNames: seq<string> := ["avcodec2", "vpx"]

  /** Every name the catalog is probed for has an entry in CODEC_TO_MODULE, so probing never raises. */
  lemma CatalogNamesKnown()
    ensures forall i :: 0 <= i < |EncoderNames| ==> EncoderNames[i] in CodecToModule
    ensures forall i :: 0 <= i < |CscNames| ==> CscNames[i] in CodecToModule
    ensures forall i :: 0 <= i < |DecoderNames| ==> DecoderNames[i] in CodecToModule
  {
  }

  /** The module-level catalog: every known codec whose module can be imported, in the source's fixed order. */
  method ProbeCatalog(probe: string -> bool) returns (c: AllOptions)
    ensures c.encoders == Filter(EncoderNames, n => Importable(probe, n))
    ensures c.csc == Filter(CscNames, n => Importable(probe, n))
    ensures c.decoders == Filter(DecoderNames, n => Importable(probe, n))
  {
    CatalogNamesKnown();
    var encoders := TryImportModules(probe, EncoderNames);
    var csc := TryImportModules(probe, CscNames);
    var decoders := TryImportModules(probe, DecoderNames);
    c := AllOptions(encoders.value, csc.value, decoders.value);
  }

  /** `get_codec(get_encoder_module_name(x))` is truthy. */
  predicate EncoderLoaded(loader: Loader, x: string)
  {
    loader.encoderCodec(EncoderModuleName(x)).Some?
  }

  /** `get_codec(get_csc_module_name(x))` is truthy. */
  predicate CscLoaded(loader: Loader, x: string)
  {
    loader.cscCodec(CscModuleName(x)).Some?
  }

  /** `get_codec(get_decoder_module_name(x))` is truthy. */
  predicate DecoderLoaded(loader: Loader, x: string)
  {
    loader.decoderCodec(DecoderModuleName(x)).Some?
  }

  /** `x` is the first catalog encoder whose module is loaded. */
  predicate FirstLoadedEncoder(catalog: AllOptions, loader: Loader, x: string)
  {
    exists i :: 0 <= i < |catalog.encoders| && catalog.encoders[i] == x && EncoderLoaded(loader, x) &&
                forall j :: 0 <= j < i ==> !EncoderLoaded(loader, catalog.encoders[j])
  }

  /** A loaded encoder with no loaded encoder before it is the only first loaded encoder. */
  lemma FirstLoadedAt(catalog: AllOptions, loader: Loader, i: int)
    requires 0 <= i < |catalog.encoders| && EncoderLoaded(loader, catalog.encoders[i])
    requires forall j :: 0 <= j < i ==> !EncoderLoaded(loader, catalog.encoders[j])
    ensures forall x :: FirstLoadedEncoder(catalog, loader, x) <==> x == catalog.encoders[i]
  {
    forall x | FirstLoadedEncoder(catalog, loader, x) ensures x == catalog.encoders[i] {
      var k :| 0 <= k < |catalog.encoders| && catalog.encoders[k] == x && EncoderLoaded(loader, x) &&
               forall j :: 0 <= j < k ==> !EncoderLoaded(loader, catalog.encoders[j]);
    }
  }

  /** With no encoder module loaded there is no first loaded encoder. */
  lemma NoneLoaded(catalog: AllOptions, loader: Loader)
    requires forall j :: 0 <= j < |catalog.encoders| ==> !EncoderLoaded(loader, catalog.encoders[j])
    ensures forall x :: x in catalog.encoders ==> !EncoderLoaded(loader, x)
    ensures forall x :: !FirstLoadedEncoder(catalog, loader, x)
  {
  }

  /**
   * `get_DEFAULT_VIDEO_ENCODERS`: because the loop breaks after its first hit, the
   * result is the first loaded encoder of the catalog, or nothing.
   */
  method DefaultVideoEncoders(catalog: AllOptions, loader: Loader) returns (r: seq<string>)
    ensures |r| <= 1
    ensures r == [] <==> forall x :: x in catalog.encoders ==> !EncoderLoaded(loader, x)
    ensures forall x :: x in r <==> FirstLoadedEncoder(catalog, loader, x)
  {
    var all := catalog.encoders;
    r := [];
    var i := 0;
    while i < |all|
      invariant 0 <= i <= |all|
      invariant forall j :: 0 <= j < i ==> !EncoderLoaded(loader, all[j])
    {
      if loader.encoderCodec(EncoderModuleName(all[i])).Some? {
        r := [all[i]];
        assert all[i] in catalog.encoders && EncoderLoaded(loader, all[i]);
        FirstLoadedAt(catalog, loader, i);
        return;
      }
      i := i + 1;
    }
    NoneLoaded(catalog, loader);
  }

  /** `get_DEFAULT_CSC_MODULES`: every catalog csc module that is loaded, in catalog order. */
  method DefaultCscModules(catalog: AllOptions, loader: Loader) returns (r: seq<string>)
    ensures r == Filter(catalog.csc, y => CscLoaded(loader, y))
  {
    var all := catalog.csc;
    var loaded := y => CscLoaded(loader, y);
    r := [];
    var i := 0;
    while i < |all|
      invariant 0 <= i <= |all|
      invariant r == Filter(all[..i], loaded)
    {
      var x := all[i];
      assert all[..i + 1] == all[..i] + [x];
      FilterSnoc(all[..i], x, loaded);
      if loader.cscCodec(CscModuleName(x)).Some? {
        r := r + [x];
      }
      i := i + 1;
    }
    assert all[..i] == all;
  }

  /** `get_DEFAULT_VIDEO_DECODERS`: every catalog decoder that is loaded, in catalog order. */
  method DefaultVideoDecoders(catalog: AllOptions, loader: Loader) returns (r: seq<string>)
    ensures r == Filter(catalog.decoders, y => DecoderLoaded(loader, y))
  {
    var all := catalog.decoders;
    var loaded := y => DecoderLoaded(loader, y);
    r := [];
    var i := 0;
    while i < |all|
      invariant 0 <= i <= |all|
      invariant r == Filter(all[..i], loaded)
    {
      var x := all[i];
      assert all[..i + 1] == all[..i] + [x];
      FilterSnoc(all[..i], x, loaded);
      if loader.decoderCodec(DecoderModuleName(x)).Some? {
        r := r + [x];
      }
      i := i + 1;
    }
    assert all[..i] == all;
  }
}
