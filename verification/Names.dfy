/** Names of tables and columns, compared without regard to the case of ASCII letters. */
module Names {
  function LowerChar(c: char): char { if 'A' <= c <= 'Z' then c - 'A' + 'a' else c }

  function Lower(s: string): (r: string)
    ensures |r| == |s|
  { seq(|s|, i requires 0 <= i < |s| => LowerChar(s[i])) }

  predicate SameName(a: string, b: string) { Lower(a) == Lower(b) }
}
