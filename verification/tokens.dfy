/** Signup tokens: twenty symbols drawn from a 64-symbol alphabet
    (`random_token` in addons/auth_signup/res_users.py).

    The random number generator is not modelled: each call of `random.choice`
    becomes a `Draw`, the alphabet position it picked, supplied by the caller. */
module Tokens {

  /** Number of symbols in a token. */
  const TokenLength: nat := 20

  /** Number of symbols in the alphabet; each symbol carries 6 bits. */
  const AlphabetSize: nat := 64

  /** One pick of `random.choice` over the alphabet. */
  type Draw = i: int | 0 <= i < 64

  /** The symbol at alphabet position `i`, in the source's order:
      `A`..`Z`, then `a`..`z`, then `0`..`9`, then `+` and `/`. */
  function Symbol(i: Draw): (c: char)
    ensures IsTokenChar(c)
  {
    if i < 26 then ('A' as int + i) as char
    else if i < 52 then ('a' as int + (i - 26)) as char
    else if i < 62 then ('0' as int + (i - 52)) as char
    else if i == 62 then '+'
    else '/'
  }

  /** The alphabet `A-Z a-z 0-9 + /`. */
  function Alphabet(): (a: string)
    ensures |a| == AlphabetSize
    ensures forall i :: 0 <= i < |a| ==> IsTokenChar(a[i])
  {
    seq(AlphabetSize, i requires 0 <= i < AlphabetSize => Symbol(i))
  }

  /** Characters a token may contain. */
  predicate IsTokenChar(c: char) {
    || 'A' <= c <= 'Z'
    || 'a' <= c <= 'z'
    || '0' <= c <= '9'
    || c == '+'
    || c == '/'
  }

  /** The shape every generated token has. */
  predicate IsToken(t: string) {
    |t| == TokenLength && forall i :: 0 <= i < |t| ==> IsTokenChar(t[i])
  }

  /** Position of a token character in the alphabet: the inverse of `Symbol`. */
  function SymbolIndex(c: char): (i: Draw)
    requires IsTokenChar(c)
    ensures Symbol(i) == c
    ensures Alphabet()[i] == c
  {
    if 'A' <= c <= 'Z' then c as int - 'A' as int
    else if 'a' <= c <= 'z' then c as int - 'a' as int + 26
    else if '0' <= c <= '9' then c as int - '0' as int + 52
    else if c == '+' then 62
    else 63
  }

  /** `random_token`: the twenty symbols picked by `draws`. */
  function RandomToken(draws: seq<Draw>): (t: string)
    requires |draws| == TokenLength
    ensures IsToken(t)
  {
    var a := Alphabet();
    var t := seq(TokenLength, i requires 0 <= i < TokenLength => a[draws[i]]);
    assert forall i :: 0 <= i < |t| ==> t[i] == a[draws[i]];
    t
  }

  /** The picks that produce token `t`. */
  function DrawsOf(t: string): (d: seq<Draw>)
    requires IsToken(t)
    ensures |d| == TokenLength
  {
    seq(TokenLength, i requires 0 <= i < TokenLength => SymbolIndex(t[i]))
  }

  /** The 64 symbols are pairwise distinct, so a token carries 6 bits per symbol. */
  lemma AlphabetDistinct(i: Draw, j: Draw)
    requires Alphabet()[i] == Alphabet()[j]
    ensures i == j
  {
  }

  /** Distinct picks give distinct tokens: reading the picks back from the
      token recovers them. */
  lemma DrawsRoundTrip(d: seq<Draw>)
    requires |d| == TokenLength
    ensures DrawsOf(RandomToken(d)) == d
  {
  }

  /** Every string of the token shape is produced by some picks, so the
      generator ranges over all 64^20 tokens. */
  lemma TokenRoundTrip(t: string)
    requires IsToken(t)
    ensures RandomToken(DrawsOf(t)) == t
  {
  }
}
