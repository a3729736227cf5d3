/** The mapping from codec names to the names of the modules that implement them. */
module ModuleNames {

  import opened Strings

  /** `get_encoder_module_name`: a name that already mentions "enc" is kept, any other gets the "enc_" prefix. */
  function EncoderModuleName(x: string): (r: string)
    ensures Find(r, "enc") >= 0
    ensures r == x <==> Find(x, "enc") >= 0
    ensures r != x ==> r == "enc_" + x
  {
    if Find(x, "enc") >= 0 then x
    else
      assert OccursAt("enc_" + x, "enc", 0) by {
        assert ("enc_" + x)[0..3] == "enc";
      }
      "enc_" + x
  }

  /** `get_decoder_module_name`. */
  function DecoderModuleName(x: string): (r: string)
    ensures |r| == |x| + 4 && r[..4] == "dec_" && r[4..] == x
  {
    "dec_" + x
  }

  /** `get_csc_module_name`. */
  function CscModuleName(x: string): (r: string)
    ensures |r| == |x| + 4 && r[..4] == "csc_" && r[4..] == x
  {
    "csc_" + x
  }

  /** Mapping a name to its encoder module name twice gives the same name as once. */
  lemma EncoderModuleNameIdempotent(x: string)
    ensures EncoderModuleName(EncoderModuleName(x)) == EncoderModuleName(x)
  {
  }

  /** Decoder and csc module names are injective and never collide with each other. */
  lemma ModuleNamesDistinct(x: string, y: string)
    ensures DecoderModuleName(x) != CscModuleName(y)
    ensures DecoderModuleName(x) == DecoderModuleName(y) ==> x == y
    ensures CscModuleName(x) == CscModuleName(y) ==> x == y
  {
    assert DecoderModuleName(x)[0] == 'd' && CscModuleName(y)[0] == 'c';
  }
}
