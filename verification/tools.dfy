/**
 * The label tables of tools.py: the user-interface labels for the compression ratio and the
 * photo size, and the device byte codes they stand for.
 */
module Tools {
  import opened Bytes

  /** The outcome of a table lookup: the code, or the KeyError an unknown label raises. */
  datatype Lookup = Found(code: Byte) | KeyError(key: string)

  /** `set_compr_ratio`: the compression code for a ratio label. */
  function SetComprRatio(ratio: string): (r: Lookup)
    ensures r.Found? <==> ratio == "1X" || ratio == "2X" || ratio == "4X"
    ensures r.KeyError? ==> r.key == ratio
  {
    var ratioDict := map["1X" := 0x36, "2X" := 0x72, "4X" := 0xFF];
    if ratio in ratioDict then Found(ratioDict[ratio]) else KeyError(ratio)
  }

  /** `choose_photo_size`: the size code for a resolution label. */
  function ChoosePhotoSize(size: string): (r: Lookup)
    ensures r.Found? <==> size == "320x240" || size == "640x480"
    ensures r.KeyError? ==> r.key == size
  {
    var sizeDict := map["320x240" := 0x00, "640x480" := 0x11];
    if size in sizeDict then Found(sizeDict[size]) else KeyError(size)
  }

  /** The documented codes of each label. */
  lemma LabelCodes()
    ensures SetComprRatio("1X") == Found(0x36)
    ensures SetComprRatio("2X") == Found(0x72)
    ensures SetComprRatio("4X") == Found(0xFF)
    ensures ChoosePhotoSize("320x240") == Found(0x00)
    ensures ChoosePhotoSize("640x480") == Found(0x11)
  {
  }

  /** Distinct ratio labels give distinct codes, so a code names its label. */
  lemma ComprRatioInjective(a: string, b: string)
    requires SetComprRatio(a).Found? && SetComprRatio(a) == SetComprRatio(b)
    ensures a == b
  {
  }

  /** Distinct size labels give distinct codes, so a code names its label. */
  lemma PhotoSizeInjective(a: string, b: string)
    requires ChoosePhotoSize(a).Found? && ChoosePhotoSize(a) == ChoosePhotoSize(b)
    ensures a == b
  {
  }
}
