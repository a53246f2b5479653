/** Bytes and byte strings as the Go code sees them: a Go `string` is an
    immutable sequence of bytes, so every text value of the model is a
    `seq<byte>`. */
module Bytes {

  newtype byte = x: int | 0 <= x < 256

  const NL: byte := 10     // '\n'
  const COMMA: byte := 44  // ','
  const COLON: byte := 58  // ':'
  const EQ: byte := 61     // '='
  const PLUS: byte := 43   // '+'
  const MINUS: byte := 45  // '-'
  const LBRACKET: byte := 91  // '['
  const RBRACKET: byte := 93  // ']'
}
