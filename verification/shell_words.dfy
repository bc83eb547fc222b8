/**
  The `shellwords` crate's `split` and `join`. Their code is not part of this model, so a
  tokenizer is a pair of functions handed in by the caller: `split` fails only on
  mismatched quotes, `join` never fails.
 */
module ShellWords {
  import opened Wrappers

  datatype Tokenizer = Tokenizer(split: string -> Option<seq<string>>, join: seq<string> -> string)

  /** `split` gives back the tokens `join` was given. */
  predicate JoinRoundTrips(sh: Tokenizer, tokens: seq<string>) {
    sh.split(sh.join(tokens)) == Some(tokens)
  }

  /** `join` reproduces a command line `split` accepted. */
  predicate SplitRoundTrips(sh: Tokenizer, line: string) {
    sh.split(line).Some? && sh.join(sh.split(line).value) == line
  }
}
