/**
 * What the registry knows about codec modules. Loading and probing happen outside
 * the registry; here they are an oracle: for a module name, the loaded module or None.
 */
module Codecs {

  import opened Wrappers

  /**
   * A capability spec made by a module for one format pair. The registry reads only
   * its codec type; the cost and quality figures are carried, never inspected.
   */
  datatype Spec = Spec(codecType: string, attributes: map<string, int>)

  /**
   * A loaded encoder or csc module, by the declarations the registry asks it for.
   * Encoder: `keys1` = get_encodings(), `keys2(encoding)` = get_input_colorspaces(encoding).
   * Csc: `keys1` = get_input_colorspaces(), `keys2(in_csc)` = get_output_colorspaces(in_csc).
   * `getSpec(k1, k2)` = get_spec(k1, k2); None stands for a call that raises.
   */
  datatype SpecModule = SpecModule(
    keys1: seq<string>,
    keys2: string -> seq<string>,
    getSpec: (string, string) -> Option<Spec>)

  /**
   * A loaded decoder module: its declared encodings and input colorspaces, the
   * output colorspace it actually produces for an (encoding, input colorspace)
   * pair, and whether its `Decoder` attribute is present and truthy.
   */
  datatype DecoderModule = DecoderModule(
    encodings: seq<string>,
    inputColorspaces: string -> seq<string>,
    outputColorspace: (string, string) -> string,
    hasDecoder: bool)

  /** The `(decoder_name, decoder_module)` pair stored in the decoder table. */
  datatype DecoderEntry = DecoderEntry(name: string, codec: DecoderModule)

  /**
   * The codec loader as the registry sees it: `load_codec(mod)` followed by
   * `get_codec(mod)`, per module kind. None means the module is missing or failed to load.
   */
  datatype Loader = Loader(
    encoderCodec: string -> Option<SpecModule>,
    cscCodec: string -> Option<SpecModule>,
    decoderCodec: string -> Option<DecoderModule>)
}
