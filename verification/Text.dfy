/** String helpers the analyzer takes from Go's strings package, on ASCII letters. */
module Text {
  function LowerChar(c: char): char {
    if 'A' <= c <= 'Z' then c + 32 as char else c
  }

  function Lower(s: string): string {
    seq(|s|, i requires 0 <= i < |s| => LowerChar(s[i]))
  }

  predicate EqualFold(s: string, t: string) {
    Lower(s) == Lower(t)
  }

  /** strings.ReplaceAll(s, c, cc). */
  function Doubled(s: string, c: char): string {
    if s == [] then [] else (if s[0] == c then [c, c] else [s[0]]) + Doubled(s[1..], c)
  }

  /** strings.ReplaceAll(s, cc, c). */
  function Undoubled(s: string, c: char): string {
    if s == [] then []
    else if |s| >= 2 && s[0] == c && s[1] == c then [c] + Undoubled(s[2..], c)
    else [s[0]] + Undoubled(s[1..], c)
  }

  lemma {:induction false} UndoubledDoubled(s: string, c: char)
    ensures Undoubled(Doubled(s, c), c) == s
  {
    if s != [] {
      UndoubledDoubled(s[1..], c);
      var rest := Doubled(s[1..], c);
      if s[0] == c {
        assert ([c, c] + rest)[2..] == rest;
      } else {
        assert ([s[0]] + rest)[1..] == rest;
      }
    }
  }

  /** quotedYQLIdentifier. */
  function QuotedIdentifier(name: string): string {
    "`" + Doubled(name, '`') + "`"
  }
}
