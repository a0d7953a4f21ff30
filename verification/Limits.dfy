/** The integer bounds and the identifier alphabet that several components share. */
module Limits {

  /** Number.MAX_SAFE_INTEGER */
  const MAX_SAFE_INTEGER: nat := 0x1f_ffff_ffff_ffff

  const MAX_U64: nat := 0xffff_ffff_ffff_ffff

  /** Letters, digits, underscore and hyphen. */
  predicate UrlSafe(text: string) {
    forall i :: 0 <= i < |text| ==>
      var c := text[i];
      'A' <= c <= 'Z' || 'a' <= c <= 'z' || '0' <= c <= '9' || c == '_' || c == '-'
  }
}
