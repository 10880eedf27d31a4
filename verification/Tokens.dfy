/** Caseless word tokens (`analytics::normalized_tokens`). */
module Tokens {
  import opened Text

  /** The folded maximal alphanumeric runs of a text. */
  function TokensOf(u: Unicode, s: string): seq<string> {
    Runs(u.isAlphanumeric, u.fold, s)
  }

  method NormalizedTokens(u: Unicode, content: string) returns (tokens: seq<string>)
    ensures tokens == TokensOf(u, content)
  {
    tokens := [];
    var current := "";
    for i := 0 to |content|
      invariant tokens + RunsFrom(u.isAlphanumeric, u.fold, content[i..], current) == TokensOf(u, content)
    {
      var ch := content[i];
      if u.isAlphanumeric(ch) {
        current := current + u.fold(ch);
      } else if current != "" {
        tokens := tokens + [current];
        current := "";
      }
    }
    if current != "" {
      tokens := tokens + [current];
    }
  }

  /** Tokenisation is a homomorphism over a character that is not alphanumeric. */
  lemma TokensSplit(u: Unicode, a: string, separator: char, b: string)
    requires !u.isAlphanumeric(separator)
    ensures TokensOf(u, a + [separator] + b) == TokensOf(u, a) + TokensOf(u, b)
  {
    RunsSplit(u.isAlphanumeric, u.fold, a, separator, b);
  }

  /** A text of alphanumeric characters only is one token, its caseless fold. */
  lemma TokensOfWord(u: Unicode, s: string)
    requires forall c | c in s :: u.isAlphanumeric(c)
    ensures TokensOf(u, s) == if MapChars(u.fold, s) == [] then [] else [MapChars(u.fold, s)]
  {
    RunsOfMembers(u.isAlphanumeric, u.fold, s, []);
    assert [] + MapChars(u.fold, s) == MapChars(u.fold, s);
  }

  /** No token is empty and none contains whitespace. */
  lemma TokensAreWords(u: Unicode, s: string)
    ensures forall t | t in TokensOf(u, s) :: IsWord(u, t)
  {
    RunsWellFormed(u.isAlphanumeric, u.fold, s, [], NonSpace(u));
  }
}
