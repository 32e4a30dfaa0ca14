/**
 * Case mapping of characters and strings, as `String.prototype.toUpperCase` and
 * `String.prototype.toLowerCase` behave on ASCII text.
 */
module Text {
  function UpperChar(c: char): char
  {
    if 'a' <= c <= 'z' then (c as int - 32) as char else c
  }

  function LowerChar(c: char): char
  {
    if 'A' <= c <= 'Z' then (c as int + 32) as char else c
  }

  function Lower(s: string): string
  {
    seq(|s|, i requires 0 <= i < |s| => LowerChar(s[i]))
  }
}
