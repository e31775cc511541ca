/** The size arithmetic of base/util/EncodingHelper.cpp when the encoding is "b64". */
module EncodingHelper {
  import opened Bytes
  import B64 = Base64

  /** `getMaxDataSizeToEncode` */
  function MaxDataSizeToEncode(size: nat): (raw: nat) {
    size / 4 * 3
  }

  /** `getDataSizeAfterEncoding` */
  function DataSizeAfterEncoding(size: nat): (encoded: nat) {
    if size % 3 == 0 then 4 * (size / 3) else 4 * (size / 3 + 1)
  }

  lemma StartedGroups(n: nat)
    ensures (n + 2) / 3 * 4 == DataSizeAfterEncoding(n)
  {
  }

  /** The declared size of an encoded text is its real size. */
  lemma EncodedSize(s: bytes)
    ensures |B64.Encode(s)| == DataSizeAfterEncoding(|s|)
  {
    hide B64.Encode, DataSizeAfterEncoding;
    B64.EncodeLength(s);
    StartedGroups(|s|);
  }

  /** Data of the maximum raw size, or less, fits once encoded; nothing longer is sure to. */
  lemma MaxDataSizeFits(size: nat, raw: nat)
    ensures DataSizeAfterEncoding(raw) <= size <==> raw <= MaxDataSizeToEncode(size)
  {
  }
}
