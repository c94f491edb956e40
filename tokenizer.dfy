/** The token counter `num_tokens` and `truncated_string` of textEmbedding.py.
    The tokenizer chosen by `tiktoken.encoding_for_model(model)` is a given
    pair of total functions: its encoding and decoding are not modelled. */
module Tokenizer {
  import opened Wrappers

  type Token = int

  /** An encoding: text to token ids and back. */
  datatype Encoding = Encoding(encode: string -> seq<Token>, decode: seq<Token> -> string)

  /** `num_tokens(text)`: the length of the encoding of `text`. */
  function Tokens(enc: Encoding, s: string): nat
  {
    |enc.encode(s)|
  }

  /** Decoding a token list and encoding it again never gives more tokens.
      This is the assumption under which truncation meets its budget. */
  ghost predicate RecodeBounded(enc: Encoding)
  {
    forall ts: seq<Token> :: |enc.encode(enc.decode(ts))| <= |ts|
  }

  /** The token counts of the warning `truncated_string` prints. */
  datatype Warning = Warning(fromTokens: nat, toTokens: nat)

  /** What `truncated_string` returns, with the warning it prints, if any. */
  datatype Truncation = Truncation(text: string, warning: Option<Warning>)

  /** `truncated_string(string, model, max_tokens, print_warning)`: decode the
      first `max_tokens` tokens of the encoding of `s`. */
  function TruncatedString(enc: Encoding, s: string, maxTokens: nat, printWarning: bool): (r: Truncation)
    ensures r.warning.Some? <==> printWarning && Tokens(enc, s) > maxTokens
    ensures r.warning.Some? ==> r.warning.value == Warning(Tokens(enc, s), maxTokens)
    ensures RecodeBounded(enc) ==> Tokens(enc, r.text) <= maxTokens
    ensures Tokens(enc, s) <= maxTokens ==> r.text == enc.decode(enc.encode(s))
    ensures Tokens(enc, s) > maxTokens ==> r.text == enc.decode(enc.encode(s)[..maxTokens])
  {
    var encoded := enc.encode(s);
    var kept := encoded[..Min(maxTokens, |encoded|)];
    assert |encoded| <= maxTokens ==> kept == encoded;
    assert RecodeBounded(enc) ==> |enc.encode(enc.decode(kept))| <= |kept|;
    Truncation(
      enc.decode(kept),
      if printWarning && |encoded| > maxTokens then Some(Warning(|encoded|, maxTokens)) else None)
  }
}
