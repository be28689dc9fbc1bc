/** Removing access tokens from log messages (src/common/log.cpp, `redact_tokens`). */
module Redaction {
  import opened Bytes
  import opened Secrets

  const FRL := Ascii("FRL")
  const OC := Ascii("OC|")
  const MARKER := Ascii("<redacted-token>")

  predicate Digit(c: byte) {
    '0' as int <= c <= '9' as int
  }

  predicate TokenChar(c: byte) {
    'A' as int <= c <= 'Z' as int || 'a' as int <= c <= 'z' as int || Digit(c) || c == '_' as int || c == '-' as int
  }

  function DigitRun(s: bytes): (n: nat)
    ensures n <= |s| && (forall i | 0 <= i < n :: Digit(s[i])) && (n < |s| ==> !Digit(s[n]))
  {
    if s == [] || !Digit(s[0]) then 0 else 1 + DigitRun(s[1..])
  }

  function TokenRun(s: bytes): (n: nat)
    ensures n <= |s| && (forall i | 0 <= i < n :: TokenChar(s[i])) && (n < |s| ==> !TokenChar(s[n]))
  {
    if s == [] || !TokenChar(s[0]) then 0 else 1 + TokenRun(s[1..])
  }

  /** The length of a token's head at the start of `s`: `FRL`, or `OC|`, digits and a bar. */
  function Head(s: bytes): (n: nat)
    ensures n <= |s|
  {
    if FRL <= s then 3
    else if OC <= s then
      var d := DigitRun(s[3..]);
      if d > 0 && 3 + d < |s| && s[3 + d] == '|' as int then 4 + d else 0
    else 0
  }

  /** The length of the token at the start of `s`; zero when there is none. */
  function TokenLength(s: bytes): (n: nat)
    ensures n <= |s|
  {
    var h := Head(s);
    if h > 0 && TokenRun(s[h..]) >= 20 then h + TokenRun(s[h..]) else 0
  }

  /** The message with its tokens replaced; `boundary` says whether a token may start here. */
  function Redact(s: bytes, boundary: bool): bytes {
    if s == [] then []
    else if boundary && TokenLength(s) > 0 then MARKER + Redact(s[TokenLength(s)..], false)
    else [s[0]] + Redact(s[1..], !TokenChar(s[0]))
  }

  function RedactTokens(message: bytes): bytes {
    Redact(message, true)
  }

  /** No position where a token may start has one. */
  predicate NoToken(s: bytes, boundary: bool) {
    s == [] || (!(boundary && TokenLength(s) > 0) && NoToken(s[1..], !TokenChar(s[0])))
  }

  // ---- What is left has no token ----

  lemma HeadChars(s: bytes)
    ensures Head(s) > 0 ==> s[0] == 'F' as int || s[0] == 'O' as int
    ensures forall i | 0 <= i < Head(s) :: TokenChar(s[i]) || s[i] == '|' as int
  {
    assert FRL <= s ==> s[0] == FRL[0] && s[1] == FRL[1] && s[2] == FRL[2];
    assert OC <= s ==> s[0] == OC[0] && s[1] == OC[1] && s[2] == OC[2];
  }

  /** Until the first `<` the output is the input. */
  lemma {:induction false} LiteralPrefix(s: bytes, boundary: bool, k: nat)
    requires k <= |Redact(s, boundary)| && '<' as int !in Redact(s, boundary)[..k]
    ensures k <= |s| && Redact(s, boundary)[..k] == s[..k]
  {
    hide TokenLength, TokenChar;
    var out := Redact(s, boundary);
    if k == 0 {
    } else {
      assert out[..k][0] == out[0] != MARKER[0];
      assert !(boundary && TokenLength(s) > 0);
      var rest := Redact(s[1..], !TokenChar(s[0]));
      assert out == [s[0]] + rest;
      assert out[..k] == [s[0]] + rest[..k - 1];
      LiteralPrefix(s[1..], !TokenChar(s[0]), k - 1);
    }
  }

  /** A token is recognised by its head and the twenty octets after it. */
  lemma TokenByPrefix(s: bytes, t: bytes, k: nat)
    requires TokenLength(t) > 0 && k == Head(t) + 20 && k <= |s| && s[..k] == t[..k]
    ensures TokenLength(s) > 0
  {
    var h := Head(t);
    assert forall i | 0 <= i < k :: s[i] == t[i];
    SameHead(s, t, h);
    assert forall i | 0 <= i < 20 :: TokenChar(s[h..][i]);
  }

  lemma SameHead(s: bytes, t: bytes, h: nat)
    requires Head(t) == h > 0 && h <= |s| && forall i | 0 <= i < h :: s[i] == t[i]
    ensures Head(s) == h
  {
    if FRL <= t {
      assert FRL <= s;
    } else {
      assert t[0] == OC[0] && OC <= s && !(FRL <= s);
      var d := h - 4;
      assert forall i | 0 <= i < d :: Digit(s[3..][i]);
      assert !Digit('|' as int) && s[3..][d] == '|' as int;
    }
  }

  lemma {:induction false} RedactedHasNoToken(s: bytes, boundary: bool, shown: bool)
    requires shown == boundary || s == [] || !TokenChar(s[0])
    ensures NoToken(Redact(s, boundary), shown)
  {
    var out := Redact(s, boundary);
    if s == [] {
    } else if boundary && TokenLength(s) > 0 {
      var n := TokenLength(s);
      RedactedHasNoToken(s[n..], false, true);
      MarkerHasNoToken(0, Redact(s[n..], false), shown);
      assert MARKER[0..] == MARKER;
    } else {
      if shown && TokenLength(out) > 0 {
        HeadChars(out);
        var k := Head(out) + 20;
        assert forall i | Head(out) <= i < k :: TokenChar(out[i]) by {
          assert forall i | 0 <= i < 20 :: TokenChar(out[Head(out)..][i]);
        }
        assert '<' as int !in out[..k];
        LiteralPrefix(s, boundary, k);
        TokenByPrefix(s, out, k);
        assert false;
      }
      RedactedHasNoToken(s[1..], !TokenChar(s[0]), !TokenChar(s[0]));
    }
  }

  lemma {:induction false} MarkerHasNoToken(i: nat, rest: bytes, shown: bool)
    requires i <= |MARKER| && NoToken(rest, true) && (i == |MARKER| ==> shown)
    ensures NoToken(MARKER[i..] + rest, shown)
    decreases |MARKER| - i
  {
    var s := MARKER[i..] + rest;
    if i == |MARKER| {
      assert s == rest;
    } else {
      HeadChars(s);
      assert s[0] == MARKER[i] && s[1..] == MARKER[i + 1..] + rest;
      assert MARKER[i] != 'F' as int && MARKER[i] != 'O' as int;
      assert i == |MARKER| - 1 ==> MARKER[i] == '>' as int;
      MarkerHasNoToken(i + 1, rest, !TokenChar(s[0]));
    }
  }

  lemma {:induction false} NothingToRedact(s: bytes, boundary: bool)
    requires NoToken(s, boundary)
    ensures Redact(s, boundary) == s
  {
    if s == [] {
    } else {
      NothingToRedact(s[1..], !TokenChar(s[0]));
    }
  }

  /** A redacted message has no token left, and redacting it again changes nothing. */
  lemma RedactionLeavesNoToken(message: bytes)
    ensures NoToken(RedactTokens(message), true)
    ensures RedactTokens(RedactTokens(message)) == RedactTokens(message)
  {
    RedactedHasNoToken(message, true, true);
    NothingToRedact(RedactTokens(message), true);
  }

  // ---- A NUL keeps texts apart ----

  lemma TokenHasNoNul(s: bytes)
    requires TokenLength(s) > 0
    ensures forall i | 0 <= i < Head(s) + 20 :: s[i] != 0
  {
    HeadChars(s);
    assert forall i | 0 <= i < 20 :: TokenChar(s[Head(s)..][i]);
  }

  lemma TokenBeforeNul(a: bytes, b: bytes)
    ensures TokenLength(a + [0] + b) > 0 <==> TokenLength(a) > 0
  {
    hide Head, TokenRun;
    var s := a + [0] + b;
    if TokenLength(a) > 0 {
      TokenByPrefix(s, a, Head(a) + 20);
    } else if TokenLength(s) > 0 {
      TokenHasNoNul(s);
      assert s[|a|] == 0;
      TokenByPrefix(a, s, Head(s) + 20);
    }
  }

  /** No token reaches over a NUL, and one may start behind it. */
  lemma {:induction false} NulSeparates(a: bytes, b: bytes, boundary: bool)
    ensures NoToken(a + [0] + b, boundary) <==> NoToken(a, boundary) && NoToken(b, true)
  {
    hide TokenLength, TokenChar;
    var s := a + [0] + b;
    TokenBeforeNul(a, b);
    if a == [] {
      NulIsNoToken();
      assert s[1..] == b;
    } else {
      assert s[1..] == a[1..] + [0] + b;
      NulSeparates(a[1..], b, !TokenChar(a[0]));
    }
  }

  lemma NulIsNoToken()
    ensures !TokenChar(0) && TokenLength([]) == 0
  {
  }

  // ---- Everything else is kept, in order ----

  datatype Piece = Plain(c: byte) | Secret(text: bytes)

  function Source(pieces: seq<Piece>): bytes {
    if pieces == [] then []
    else (match pieces[0] case Plain(c) => [c] case Secret(text) => text) + Source(pieces[1..])
  }

  function Shown(pieces: seq<Piece>): bytes {
    if pieces == [] then []
    else (match pieces[0] case Plain(c) => [c] case Secret(_) => MARKER) + Shown(pieces[1..])
  }

  /** A head followed by twenty or more token characters and nothing else. */
  predicate IsToken(text: bytes) {
    TokenLength(text) == |text| > 0
  }

  /** Secrets are whole tokens: they start at a boundary and no token character follows them. */
  ghost predicate WholeTokens(pieces: seq<Piece>, boundary: bool) {
    pieces == [] ||
    match pieces[0]
    case Plain(c) => WholeTokens(pieces[1..], !TokenChar(c))
    case Secret(text) =>
      boundary && IsToken(text) && (pieces[1..] == [] || (pieces[1].Plain? && !TokenChar(pieces[1].c))) &&
      WholeTokens(pieces[1..], false)
  }

  /** The output is the message with some whole tokens, and nothing else, replaced by the marker. */
  lemma {:induction false} RedactionKeepsTheRest(s: bytes, boundary: bool) returns (pieces: seq<Piece>)
    ensures Source(pieces) == s && Shown(pieces) == Redact(s, boundary) && WholeTokens(pieces, boundary)
    ensures s != [] && !(boundary && TokenLength(s) > 0) ==> pieces != [] && pieces[0] == Plain(s[0])
    ensures s == [] ==> pieces == []
  {
    hide TokenLength, TokenChar;
    if s == [] {
      pieces := [];
    } else if boundary && TokenLength(s) > 0 {
      var n := TokenLength(s);
      var rest := RedactionKeepsTheRest(s[n..], false);
      pieces := [Secret(s[..n])] + rest;
      assert s == s[..n] + s[n..] && pieces[1..] == rest;
      TokenAlone(s);
    } else {
      var rest := RedactionKeepsTheRest(s[1..], !TokenChar(s[0]));
      pieces := [Plain(s[0])] + rest;
      assert s == [s[0]] + s[1..] && pieces[1..] == rest;
    }
  }

  lemma TokenAlone(s: bytes)
    requires TokenLength(s) > 0
    ensures IsToken(s[..TokenLength(s)])
    ensures TokenLength(s) < |s| ==> !TokenChar(s[TokenLength(s)])
  {
    var n, h := TokenLength(s), Head(s);
    var t := s[..n];
    SameHead(t, s, h);
    assert t[h..] == s[h..][..n - h];
    assert s[h..][n - h..] == s[n..];
  }

  // ---- The code's tokens are the tokens ----

  lemma SameChars(c: byte)
    ensures TokenChar(c) <==> SecretChar(c)
  {
  }

  /** The code finds a head exactly where one is. */
  lemma HeadIsSecretHead(s: bytes)
    ensures SecretHeadLength(s, Head(s))
  {
    assert FRL == [0x46, 0x52, 0x4C] && OC == [0x4F, 0x43, 0x7C];
    if OC <= s {
      var d := DigitRun(s[3..]);
      assert forall i | 3 <= i < 3 + d :: Digit(s[3..][i - 3]) && s[i] == s[3..][i - 3];
    }
    if Head(s) == 0 {
      forall h: nat | h <= |s| ensures !SecretHead(s[..h]) {
        if SecretHead(s[..h]) {
          SecretHeadIsHead(s, h);
        }
      }
    }
  }

  lemma SecretHeadIsHead(s: bytes, h: nat)
    requires h <= |s| && SecretHead(s[..h])
    ensures Head(s) == h
  {
    var t := s[..h];
    assert FRL == [0x46, 0x52, 0x4C] && OC == [0x4F, 0x43, 0x7C];
    if t == [0x46, 0x52, 0x4C] {
      assert FRL <= s;
    } else {
      assert t[..3] == s[..3] && s[0] == 0x4F;
      assert OC <= s;
      var d := h - 4;
      assert forall i | 0 <= i < d :: Digit(s[3..][i]) by {
        assert forall i | 0 <= i < d :: s[3..][i] == t[i + 3];
      }
      assert s[3..][d] == t[h - 1] && !Digit(s[3..][d]);
    }
  }

  lemma TokenIsSecret(text: bytes)
    requires IsToken(text)
    ensures IsSecret(text)
  {
    var h := Head(text);
    HeadIsSecretHead(text);
    assert forall i | h <= i < |text| :: TokenChar(text[h..][i - h]) && text[i] == text[h..][i - h];
    assert SecretAt(text, h);
  }

  /** A token at the front is found, whatever follows. */
  lemma SecretIsFound(s: bytes, j: nat)
    requires j <= |s| && IsSecret(s[..j])
    ensures TokenLength(s) > 0
  {
    var h: nat :| SecretAt(s[..j], h);
    assert s[..j][..h] == s[..h];
    SecretHeadIsHead(s, h);
    assert forall i | 0 <= i < 20 :: TokenChar(s[h..][i]) by {
      assert forall i | 0 <= i < 20 :: s[h..][i] == s[..j][h + i];
    }
  }

  lemma {:induction false} NoTokenAnywhere(s: bytes, boundary: bool, i: nat)
    requires NoToken(s, boundary) && i < |s| && (if i == 0 then boundary else !TokenChar(s[i - 1]))
    ensures TokenLength(s[i..]) == 0
  {
    hide TokenLength, TokenChar;
    if i == 0 {
      assert s[0..] == s;
    } else {
      NoTokenAnywhere(s[1..], !TokenChar(s[0]), i - 1);
      assert s[1..][i - 1..] == s[i..];
    }
  }

  lemma NoTokenIsSecretFree(s: bytes)
    requires NoToken(s, true)
    ensures SecretFree(s)
  {
    hide NoToken, TokenLength;
    forall i, j | 0 <= i <= j <= |s| && IsSecret(s[i..j]) ensures i > 0 && SecretChar(s[i - 1]) {
      assert s[i..][..j - i] == s[i..j];
      SecretIsFound(s[i..], j - i);
      if i == 0 || !TokenChar(s[i - 1]) {
        NoTokenAnywhere(s, true, i);
      }
    }
  }

  lemma {:induction false} SecretFreeIsNoToken(s: bytes, k: nat)
    requires k <= |s| && SecretFree(s)
    ensures NoToken(s[k..], k == 0 || !SecretChar(s[k - 1]))
    decreases |s| - k
  {
    hide TokenLength, IsSecret;
    if k < |s| {
      var t := s[k..];
      SecretFreeIsNoToken(s, k + 1);
      assert t[1..] == s[k + 1..] && t[0] == s[k];
      if TokenLength(t) > 0 {
        TokenAlone(t);
        TokenIsSecret(t[..TokenLength(t)]);
        assert t[..TokenLength(t)] == s[k..k + TokenLength(t)];
      }
    }
  }

  /** What the logger guarantees of its output, in terms of the tokens themselves. */
  lemma NoTokenExactly(s: bytes)
    ensures NoToken(s, true) <==> SecretFree(s)
  {
    hide NoToken, SecretFree;
    if NoToken(s, true) {
      NoTokenIsSecretFree(s);
    }
    if SecretFree(s) {
      SecretFreeIsNoToken(s, 0);
      assert s[0..] == s;
    }
  }

  /** The message, cut into the tokens that are replaced and the characters that are kept. */
  ghost predicate Redacted(message: bytes, out: bytes) {
    exists pieces :: Source(pieces) == message && Marked(pieces) == out && OnlySecrets(pieces)
  }

  function Marked(pieces: seq<Piece>): bytes {
    if pieces == [] then []
    else (match pieces[0] case Plain(c) => [c] case Secret(_) => Ascii("<redacted-token>")) + Marked(pieces[1..])
  }

  /** Each is a whole token: neither side continues with a token's character. */
  ghost predicate OnlySecrets(pieces: seq<Piece>) {
    forall k | 0 <= k < |pieces| && pieces[k].Secret? ::
      && IsSecret(pieces[k].text)
      && (k > 0 ==> pieces[k - 1].Plain? && !SecretChar(pieces[k - 1].c))
      && (k + 1 < |pieces| ==> pieces[k + 1].Plain? && !SecretChar(pieces[k + 1].c))
  }

  lemma {:induction false} MarkedIsShown(pieces: seq<Piece>)
    ensures Marked(pieces) == Shown(pieces)
  {
    if pieces == [] {
    } else {
      MarkedIsShown(pieces[1..]);
    }
  }

  lemma {:induction false} WholeTokensAreSecrets(pieces: seq<Piece>, boundary: bool)
    requires WholeTokens(pieces, boundary)
    ensures OnlySecrets(pieces)
    ensures pieces != [] && pieces[0].Secret? ==> boundary
  {
    hide IsToken, IsSecret;
    if pieces == [] {
    } else {
      var c := if pieces[0].Plain? then !TokenChar(pieces[0].c) else false;
      WholeTokensAreSecrets(pieces[1..], c);
      if pieces[0].Secret? {
        TokenIsSecret(pieces[0].text);
      }
      forall k | 0 <= k < |pieces| && pieces[k].Secret?
        ensures IsSecret(pieces[k].text)
        ensures k > 0 ==> pieces[k - 1].Plain? && !SecretChar(pieces[k - 1].c)
        ensures k + 1 < |pieces| ==> pieces[k + 1].Plain? && !SecretChar(pieces[k + 1].c)
      {
        if k > 0 {
          assert pieces[1..][k - 1] == pieces[k];
        }
      }
    }
  }

  /** Only whole tokens are replaced, every one is, and nothing else is touched. */
  lemma RedactsExactly(message: bytes)
    ensures Redacted(message, RedactTokens(message)) && SecretFree(RedactTokens(message))
  {
    hide Redact, WholeTokens, NoToken, SecretFree, OnlySecrets;
    var pieces := RedactionKeepsTheRest(message, true);
    WholeTokensAreSecrets(pieces, true);
    MarkedIsShown(pieces);
    RedactionLeavesNoToken(message);
    NoTokenExactly(RedactTokens(message));
  }

  // ---- The program's loops ----

  /** The length of a token's head at position `i`; zero when there is none. */
  method ScanHead(message: bytes, i: nat) returns (n: nat)
    requires i < |message|
    ensures n == Head(message[i..])
    ensures SecretHeadLength(message[i..], n)
  {
    hide SecretHeadLength;
    ghost var s := message[i..];
    HeadIsSecretHead(s);
    if FRL <= message[i..] {
      return 3;
    }
    if !(OC <= message[i..]) {
      return 0;
    }
    var j := i + 3;
    while j < |message| && Digit(message[j])
      invariant i + 3 <= j <= |message|
      invariant DigitRun(s[3..]) == j - (i + 3) + DigitRun(s[j - i..])
    {
      assert s[j - i..][1..] == s[j - i + 1..];
      j := j + 1;
    }
    return if j > i + 3 && j < |message| && message[j] == '|' as int then j + 1 - i else 0;
  }

  /** Where the token characters from position `start` on end. */
  method ScanToken(message: bytes, start: nat) returns (end: nat)
    requires start <= |message|
    ensures end == start + TokenRun(message[start..])
    ensures start <= end <= |message| && (end > start ==> TokenChar(message[end - 1]))
  {
    end := start;
    while end < |message| && TokenChar(message[end])
      invariant start <= end <= |message|
      invariant start + TokenRun(message[start..]) == end + TokenRun(message[end..])
      invariant end > start ==> TokenChar(message[end - 1])
    {
      assert message[end..][1..] == message[end + 1..];
      end := end + 1;
    }
  }

  /** The length of the token at position `i`; zero when there is none. */
  method FindToken(message: bytes, i: nat) returns (n: nat)
    requires i < |message|
    ensures n == TokenLength(message[i..])
    ensures n > 0 ==> TokenChar(message[i + n - 1])
  {
    var head := ScanHead(message, i);
    if head > 0 {
      assert message[i..][head..] == message[i + head..];
      var end := ScanToken(message, i + head);
      if end - (i + head) >= 20 {
        return end - i;
      }
    }
    return 0;
  }

  lemma RedactNothing(boundary: bool)
    ensures Redact([], boundary) == []
  {
  }

  lemma RedactFromStart(message: bytes)
    ensures RedactTokens(message) == Redact(message, true)
  {
  }

  lemma NoHeadNothingToRedact(message: bytes)
    requires forall i | 0 <= i < |message| :: !(FRL <= message[i..]) && !(OC <= message[i..])
    ensures RedactTokens(message) == message
  {
    NoHeadNoToken(message, 0);
    assert message[0..] == message;
    NothingToRedact(message, true);
  }

  /** One turn of the loop, with `out` collected before it. */
  lemma RedactStep(out: bytes, s: bytes, boundary: bool)
    requires s != []
    ensures out + Redact(s, boundary) ==
            if boundary && TokenLength(s) > 0 then (out + MARKER) + Redact(s[TokenLength(s)..], false)
            else (out + [s[0]]) + Redact(s[1..], !TokenChar(s[0]))
  {
    hide TokenLength, TokenChar;
  }

  /** The same, by position in the whole message. */
  lemma RedactAt(out: bytes, message: bytes, i: nat, boundary: bool)
    requires i < |message|
    ensures var n := TokenLength(message[i..]);
            out + Redact(message[i..], boundary) ==
            if boundary && n > 0 then (out + MARKER) + Redact(message[i + n..], false)
            else (out + [message[i]]) + Redact(message[i + 1..], !TokenChar(message[i]))
  {
    hide TokenLength, Redact;
    var s := message[i..];
    RedactStep(out, s, boundary);
    assert s[TokenLength(s)..] == message[i + TokenLength(s)..] && s[1..] == message[i + 1..];
  }

  method RedactLoop(message: bytes) returns (out: bytes)
    ensures out == RedactTokens(message)
    ensures Redacted(message, out) && SecretFree(out)
  {
    hide *;
    RedactsExactly(message);
    if (forall i | 0 <= i < |message| :: !(FRL <= message[i..]) && !(OC <= message[i..])) {
      NoHeadNothingToRedact(message);
      return message;
    }
    out := [];
    var i := 0;
    assert message[0..] == message;
    RedactFromStart(message);
    RedactNothing(false);
    RedactNothing(true);
    while i < |message|
      invariant 0 <= i <= |message|
      invariant RedactTokens(message) == out + Redact(message[i..], i == 0 || !TokenChar(message[i - 1]))
    {
      RedactAt(out, message, i, i == 0 || !TokenChar(message[i - 1]));
      if i == 0 || !TokenChar(message[i - 1]) {
        var n := FindToken(message, i);
        if n > 0 {
          out := out + MARKER;
          i := i + n;
          continue;
        }
      }
      out := out + [message[i]];
      i := i + 1;
    }
    assert message[i..] == [] && out + [] == out;
  }

  lemma {:induction false} NoHeadNoToken(message: bytes, k: nat)
    requires k <= |message| && forall i | k <= i < |message| :: !(FRL <= message[i..]) && !(OC <= message[i..])
    ensures forall boundary :: NoToken(message[k..], boundary)
    decreases |message| - k
  {
    if k < |message| {
      NoHeadNoToken(message, k + 1);
      assert message[k..][1..] == message[k + 1..];
      assert Head(message[k..]) == 0;
    }
  }
}
