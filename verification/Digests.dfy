/**
 SHA-256 as a free constructor: two digests are equal exactly when their preimages are.
 A preimage is a sequence of symbols.  A whole 32-byte digest inside a preimage is one
 symbol, either as raw bytes (`Raw`) or as its 71-character `sha256:<hex>` text (`Token`);
 both spellings have a fixed width, so nothing is lost by not spelling them out.
 */
module Digests {
  datatype Symbol =
    | Byte(b: nat)
    | Char(c: char)
    | Raw(d: Digest)
    | Token(d: Digest)

  /** `Zero` is the all-zero hash, the conventional predecessor of the first link. */
  datatype Digest = Zero | Sha256(preimage: seq<Symbol>)

  type Text = seq<Symbol>

  /** A field that should hold a hash: a well-formed one, or some other text. */
  datatype HashText = Hash(d: Digest) | Malformed(text: string)

  predicate IsHashToken(h: HashText) {
    h.Hash?
  }
}
