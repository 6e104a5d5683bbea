/**
 * Short identifiers: six characters drawn from the base62 alphabet.
 *
 * The service draws each character with SecureRandom.nextInt(62). Here the
 * draws are supplied: for each attempt of the retry loop, the
 * SHORT_ID_LENGTH values nextInt returned, each below 62.
 */
module ShortId {

  const BASE62_CHARS: string := "abcdefghijklmnopqrstuvwxyzABCDEFGHIJKLMNOPQRSTUVWXYZ0123456789"

  const SHORT_ID_LENGTH: nat := 6

  /** A well-formed generated identifier: the right length, every character from the alphabet. */
  predicate IsShortId(s: string)
  {
    |s| == SHORT_ID_LENGTH && forall i | 0 <= i < |s| :: s[i] in BASE62_CHARS
  }

  /** Every draw is a value nextInt(62) can return. */
  predicate ValidDraws(draws: seq<nat>)
  {
    forall i | 0 <= i < |draws| :: draws[i] < |BASE62_CHARS|
  }

  /** The identifier spelled by a block of draws: the alphabet character at each drawn index. */
  function IdFromDraws(draws: seq<nat>): string
    requires ValidDraws(draws)
  {
    seq(|draws|, i requires 0 <= i < |draws| => BASE62_CHARS[draws[i]])
  }

  /** The draws of successive attempts of the retry loop: one full block of draws per attempt. */
  predicate ValidAttempts(attempts: seq<seq<nat>>)
  {
    forall j | 0 <= j < |attempts| :: |attempts[j]| == SHORT_ID_LENGTH && ValidDraws(attempts[j])
  }

  /** The identifier the j-th attempt of the retry loop generates. */
  function Candidate(attempts: seq<seq<nat>>, j: nat): (s: string)
    requires ValidAttempts(attempts)
    requires j < |attempts|
    ensures IsShortId(s)
  {
    IdFromDraws(attempts[j])
  }

  /**
   * generateRandomShortId: appends one alphabet character per draw, six
   * times. The result is the identifier the draws spell, and it has the
   * identifier format.
   */
  method GenerateRandomShortId(draws: seq<nat>) returns (shortId: string)
    requires |draws| == SHORT_ID_LENGTH
    requires ValidDraws(draws)
    ensures shortId == IdFromDraws(draws)
    ensures IsShortId(shortId)
  {
    shortId := "";
    for i := 0 to SHORT_ID_LENGTH
      invariant |shortId| == i
      invariant forall j | 0 <= j < i :: shortId[j] == BASE62_CHARS[draws[j]]
    {
      shortId := shortId + [BASE62_CHARS[draws[i]]];
    }
  }
}
