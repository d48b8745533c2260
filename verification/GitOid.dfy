/** gitmesh-git: SHA-1 object ids and their text. */
module GitOid {
  import opened Prelude
  import opened Core

  type Oid = d: Bytes | |d| == 20 witness seq(20, _ => 0)

  /** `FromStr`: forty hexadecimal digits of either case. */
  function ParseOid(text: string): Option<Oid> {
    if |text| != 40 then None
    else
      match DecodeHex(text)
      case Some(digest) => Some(digest)
      case None => None
  }

  lemma ParseOidOfHex(oid: Oid)
    ensures ParseOid(Hex(oid)) == Some(oid)
  {
    DecodeHexOfHex(oid);
  }
}
