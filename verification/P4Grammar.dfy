/** The characters, digits and names of P4 written out, independently of the scanner's predicates. */
module P4Grammar {
  import opened Common

  /** `isspace`: space, tab, line feed, vertical tab, form feed, carriage return. */
  predicate Blank(c: char) {
    c in {' ', '\t', '\n', '\U{000B}', '\U{000C}', '\r'}
  }

  predicate Letter(c: char) { 'a' <= c <= 'z' || 'A' <= c <= 'Z' }

  predicate Numeric(c: char) { '0' <= c <= '9' }

  predicate WordHead(c: char) { Letter(c) || c == '_' }

  predicate WordTail(c: char) { Letter(c) || Numeric(c) || c == '_' }

  predicate NumberTail(c: char) {
    Numeric(c) || 'a' <= c <= 'f' || 'A' <= c <= 'F' || c in {'_', 'w', 's', 'o', 'O', 'x', 'X'}
  }

  const LOWER_DIGITS := "0123456789abcdef"
  const UPPER_DIGITS := "0123456789ABCDEF"

  predicate DigitIs(c: char, d: nat) {
    d < 16 && (c == LOWER_DIGITS[d] || c == UPPER_DIGITS[d])
  }

  predicate DigitBelow(c: char, base: nat)
    requires base <= 16
  {
    exists d :: 0 <= d < base && DigitIs(c, d)
  }

  predicate PrefixLetter(c: char) {
    c in {'b', 'B', 'o', 'O', 'd', 'D', 'x', 'X'}
  }

  function BaseNamed(c: char): (base: nat)
    ensures 2 <= base <= 16
  {
    if c in {'b', 'B'} then 2 else if c in {'o', 'O'} then 8 else if c in {'x', 'X'} then 16 else 10
  }

  /** The digits `s` spell `n` in the base. */
  predicate Denotes(s: string, base: nat, n: nat)
    requires base > 0
  {
    if s == "" then n == 0 else DigitIs(s[|s| - 1], n % base) && Denotes(s[..|s| - 1], base, n / base)
  }

  const RESERVED: set<string> := {
    "abstract", "action", "actions", "apply", "bit", "bool", "const", "control", "default", "else", "entries", "enum",
    "error", "exit", "extern", "false", "header", "header_union", "if", "in", "inout", "int", "key", "match_kind", "out",
    "package", "parser", "return", "select", "state", "struct", "switch", "table", "this", "transition", "true", "tuple",
    "type", "typedef", "value_set", "varbit", "void", "_" }

  const SYMBOLS: set<string> := {
    "!", "!=", "%", "&", "&&", "&&&", "(", ")", "*", "+", "++", ",", "-", ".", "..", "/", ":", ";", "<", "<<", "<=",
    "=", "==", ">", ">=", "?", "@", "[", "]", "^", "{", "|", "|+|", "|-|", "||", "}", "~" }
}
