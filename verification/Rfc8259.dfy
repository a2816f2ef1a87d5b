/** Octets as RFC 8259 and RFC 3629 list them. What the lexer, the parser and the string codec of deps/yajl/src do
    is proved against these tables; none of their own is used here. */
module Rfc8259 {
  import opened Bytes
  import opened Optional

  /** The white space of RFC 8259 section 2, and vertical tab and form feed, which the code takes too. */
  predicate IsWhite(c: byte) { c == 0x20 || c == 0x09 || c == 0x0A || c == 0x0D || c == 0x0B || c == 0x0C }

  /** RFC 8259 section 7: what a letter behind a backslash stands for. */
  function ShortEscape(c: byte): Option<byte> {
    match c
    case 0x22 => Some(0x22)
    case 0x5C => Some(0x5C)
    case 0x2F => Some(0x2F)
    case 0x62 => Some(0x08)
    case 0x66 => Some(0x0C)
    case 0x6E => Some(0x0A)
    case 0x72 => Some(0x0D)
    case 0x74 => Some(0x09)
    case _ => None
  }

  function HexValue(c: byte): Option<nat> {
    if 0x30 <= c <= 0x39 then Some(c - 0x30)
    else if 0x41 <= c <= 0x46 then Some(10 + (c - 0x41))
    else if 0x61 <= c <= 0x66 then Some(10 + (c - 0x61))
    else None
  }

  /** RFC 3629 section 3: how many octets follow a lead octet; None for one that does not lead. The limits that
      section 4 sets to what follows are not part of it. */
  function Leads(c: byte): Option<nat> {
    if c <= 0x7F then Some(0)
    else if 0xC0 <= c <= 0xDF then Some(1)
    else if 0xE0 <= c <= 0xEF then Some(2)
    else if 0xF0 <= c <= 0xF7 then Some(3)
    else None
  }

  predicate IsTrail(c: byte) { 0x80 <= c <= 0xBF }
}
