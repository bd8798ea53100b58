/**
 * Opcode values, as the enum in internal.h assigns them (its own comments are one too low from
 * OP_XCLASS on).
 */
module Opcodes {
  import opened Bytes

  const OP_END: byte := 0
  const OP_NOT_DIGIT: byte := 5
  const OP_DIGIT: byte := 6
  const OP_NOT_WHITESPACE: byte := 7
  const OP_WHITESPACE: byte := 8
  const OP_NOT_WORDCHAR: byte := 9
  const OP_WORDCHAR: byte := 10
  const OP_ANY: byte := 11
  const OP_CIRC: byte := 16
  const OP_DOLL: byte := 17
  const OP_CHARS: byte := 18
  const OP_NOT: byte := 19
  const OP_STAR: byte := 20
  const OP_PLUS: byte := 22
  const OP_QUERY: byte := 24
  const OP_UPTO: byte := 26
  const OP_EXACT: byte := 28
  const OP_NOTSTAR: byte := 29
  const OP_TYPESTAR: byte := 38
  const OP_TYPEEXACT: byte := 46
  const OP_CRSTAR: byte := 47
  const OP_CRPLUS: byte := 49
  const OP_CRQUERY: byte := 51
  const OP_CRRANGE: byte := 53
  const OP_CLASS: byte := 55
  const OP_NCLASS: byte := 56
  const OP_ALT: byte := 61
  const OP_KET: byte := 62
  const OP_KETRMAX: byte := 63
  const OP_KETRMIN: byte := 64
  const OP_REVERSE: byte := 69
  const OP_BRAZERO: byte := 73
  const OP_BRANUMBER: byte := 75
  const OP_BRA: byte := 76

  const EXTRACT_BASIC_MAX := 150
}
