/** Text cut at a separator: `text.split(separator)` and `.filter(Boolean)`. */
module Splitting {
  /** Never empty: without a separator in it, the text is its only token. */
  function Split(text: string, separator: char): (tokens: seq<string>)
    ensures |tokens| >= 1
  {
    if text == [] then [[]]
    else
      var rest := Split(text[1..], separator);
      if text[0] == separator then [[]] + rest else [[text[0]] + rest[0]] + rest[1..]
  }

  function NonEmpty(tokens: seq<string>): seq<string> {
    if tokens == [] then []
    else (if tokens[0] == [] then [] else [tokens[0]]) + NonEmpty(tokens[1..])
  }

  /** A token without separator goes through whole. */
  lemma {:induction false} SplitToken(token: string, separator: char, rest: string)
    requires separator !in token
    ensures Split(token, separator) == [token]
    ensures Split(token + [separator] + rest, separator) == [token] + Split(rest, separator)
  {
    var text := token + [separator] + rest;
    if token == [] {
      assert text[1..] == rest;
    } else {
      SplitToken(token[1..], separator, rest);
      assert text[1..] == token[1..] + [separator] + rest;
      assert [token[0]] + token[1..] == token;
    }
  }

  /** Splitting leaves no separator behind. */
  lemma {:induction false} SplitTokensAreClean(text: string, separator: char)
    ensures forall t | t in Split(text, separator) :: separator !in t
  {
    if text != [] {
      SplitTokensAreClean(text[1..], separator);
      assert Split(text[1..], separator)[0] in Split(text[1..], separator);
    }
  }

  lemma {:induction false} NonEmptyKeeps(tokens: seq<string>)
    ensures forall t | t in NonEmpty(tokens) :: t in tokens && t != []
    ensures [] !in tokens ==> NonEmpty(tokens) == tokens
  {
    if tokens != [] {
      NonEmptyKeeps(tokens[1..]);
      assert tokens == [tokens[0]] + tokens[1..];
    }
  }
}
