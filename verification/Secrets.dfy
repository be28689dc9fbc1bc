/** What an access token is: Meta's user tokens (`FRL...`) and app tokens (`OC|app|secret`), in so many letters. */
module Secrets {
  import opened Bytes

  /** A letter, a digit, `_` or `-`. */
  predicate SecretChar(c: byte) {
    0x41 <= c <= 0x5A || 0x61 <= c <= 0x7A || 0x30 <= c <= 0x39 || c == 0x5F || c == 0x2D
  }

  /** `FRL`; or `OC|`, one or more digits, `|`. */
  ghost predicate SecretHead(s: bytes) {
    s == [0x46, 0x52, 0x4C] ||
    (|s| >= 5 && s[..3] == [0x4F, 0x43, 0x7C] && s[|s| - 1] == 0x7C &&
     forall i | 3 <= i < |s| - 1 :: 0x30 <= s[i] <= 0x39)
  }

  /** The length of the head `s` starts with; zero when there is none. */
  ghost predicate SecretHeadLength(s: bytes, n: nat) {
    if n > 0 then n <= |s| && SecretHead(s[..n]) else forall h: nat | h <= |s| :: !SecretHead(s[..h])
  }

  /** A head and twenty or more such characters. */
  ghost predicate IsSecret(s: bytes) {
    exists h: nat :: SecretAt(s, h)
  }

  ghost predicate SecretAt(s: bytes, h: nat) {
    h + 20 <= |s| && SecretHead(s[..h]) && forall i | h <= i < |s| :: SecretChar(s[i])
  }

  /** No slice that does not continue a word is a token. */
  ghost predicate SecretFree(s: bytes) {
    forall i, j | 0 <= i <= j <= |s| && IsSecret(s[i..j]) :: i > 0 && SecretChar(s[i - 1])
  }
}
