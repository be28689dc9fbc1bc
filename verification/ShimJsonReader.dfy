/**
  The loops of the shim's JSON reader, over a C string and an output buffer. A null buffer is one of length zero:
  the code writes to neither.
 */
module ShimJsonReader {
  import opened Bytes
  import opened ShimJson
  import Utf8

  /** The buffer holds as much of the text as fits before a terminator. */
  ghost predicate Holds(out: array<byte>, text: bytes)
    reads out
  {
    forall i | 0 <= i < |text| && i + 1 < out.Length :: out[i] == text[i]
  }

  /** The buffer holds the text (or its beginning) and its terminator. */
  ghost predicate Finished(out: array<byte>, text: bytes)
    reads out
  {
    Holds(out, text) && (out.Length > 0 ==> out[if |text| < out.Length then |text| else out.Length - 1] == 0)
  }

  method PutByte(out: array<byte>, length: nat, b: byte, ghost text: bytes) returns (next: nat)
    requires Holds(out, text) && length == |text|
    modifies out
    ensures Holds(out, text + [b]) && next == length + 1
  {
    if length + 1 < out.Length {
      out[length] := b;
    }
    next := length + 1;
  }

  method PutUtf8(out: array<byte>, length: nat, code: nat, ghost text: bytes) returns (next: nat)
    requires Holds(out, text) && length == |text| && code < 0x11_0000
    modifies out
    ensures Holds(out, text + Utf8.Encode(code)) && next == length + |Utf8.Encode(code)|
  {
    var encoded := Utf8.Encode(code);
    next := length;
    assert text + encoded[..0] == text;
    for i := 0 to |encoded|
      invariant Holds(out, text + encoded[..i]) && next == length + i
    {
      assert text + encoded[..i] + [encoded[i]] == text + encoded[..i + 1];
      next := PutByte(out, next, encoded[i], text + encoded[..i]);
    }
    assert encoded[..|encoded|] == encoded;
  }

  /** The code point of the escape whose `u` is before position `p`, and where the text goes on. */
  method ReadUnicode(s: bytes, p: nat) returns (r: Option<(nat, nat)>)
    requires p <= |s|
    ensures match UnicodeEscape(s[p..])
            case None => r == None
            case Some(u) => r.Some? && r.value.0 == u.value && p < r.value.1 <= |s| && s[r.value.1..] == u.rest
  {
    var code := Hex4(s[p..]);
    if code.None? {
      return None;
    }
    var q := p + 4;
    assert s[p..][4..] == s[q..];
    if HighSurrogate(code.value) && q + 1 < |s| && s[q] == BACKSLASH && s[q + 1] == 'u' as int {
      assert s[q..][2..] == s[q + 2..];
      var low := Hex4(s[q + 2..]);
      assert low.Some? ==> s[q..][6..] == s[q + 6..];
      if low.Some? && LowSurrogate(low.value) {
        return Some((Combine(code.value, low.value), q + 6));
      }
    }
    return Some((code.value, q));
  }

  /** `json_string`: reads the string at `p` into `out`; `next` is where the text goes on. */
  method ReadString(s: bytes, p: nat, out: array<byte>) returns (next: Option<nat>, length: nat)
    requires p <= |s| && NulFree(s)
    modifies out
    ensures match (if p < |s| && s[p] == QUOTE then StringText(s[p + 1..]) else None)
            case None => next == None
            case Some(r) =>
              && next.Some? && p < next.value <= |s| && s[next.value..] == r.rest
              && length == |r.value| && Finished(out, r.value)
  {
    hide StringText, UnicodeEscape, Utf8.Encode, ShortEscape;
    length := 0;
    if p == |s| || s[p] != QUOTE {
      return None, length;
    }
    var q := p + 1;
    ghost var done: bytes := [];
    ghost var whole := StringText(s[q..]);
    PrependNothing(whole);
    while q < |s| && s[q] != QUOTE
      invariant p < q <= |s| && length == |done| && Holds(out, done)
      invariant whole == ShimJson.Prepend(done, StringText(s[q..]))
    {
      StringStep(s[q..], done);
      if s[q] != BACKSLASH {
        assert s[q..][1..] == s[q + 1..];
        length := PutByte(out, length, s[q], done);
        done := done + [s[q]];
        q := q + 1;
        continue;
      }
      if q + 1 == |s| {
        return None, length;
      }
      var code: nat;
      assert s[q..][2..] == s[q + 2..];
      if s[q + 1] == 'u' as int {
        var u := ReadUnicode(s, q + 2);
        if u.None? {
          return None, length;
        }
        code, q := u.value.0, u.value.1;
      } else {
        var c := ShortEscape(s[q + 1]);
        if c.None? {
          return None, length;
        }
        code, q := c.value, q + 2;
      }
      length := PutUtf8(out, length, code, done);
      done := done + Utf8.Encode(code);
    }
    StringEnd(s[q..], done);
    if out.Length > 0 {
      out[if length < out.Length then length else out.Length - 1] := 0;
    }
    if q == |s| {
      return None, length;
    }
    assert s[q..][1..] == s[q + 1..];
    return Some(q + 1), length;
  }

  lemma PrependNothing(r: Option<Read<bytes>>)
    ensures ShimJson.Prepend([], r) == r
  {
    assert r.Some? ==> [] + r.value.value == r.value.value;
  }

  lemma PrependTwice(a: bytes, b: bytes, r: Option<Read<bytes>>)
    ensures ShimJson.Prepend(a, ShimJson.Prepend(b, r)) == ShimJson.Prepend(a + b, r)
  {
    assert r.Some? ==> a + (b + r.value.value) == (a + b) + r.value.value;
  }

  /** One turn of the loop, with `done` decoded before it. */
  lemma StringStep(t: bytes, done: bytes)
    requires t != [] && t[0] != QUOTE
    ensures ShimJson.Prepend(done, StringText(t)) ==
            if t[0] != BACKSLASH then ShimJson.Prepend(done + [t[0]], StringText(t[1..]))
            else if |t| < 2 then None
            else if t[1] == 'u' as int then
              match UnicodeEscape(t[2..])
              case None => None
              case Some(u) => ShimJson.Prepend(done + Utf8.Encode(u.value), StringText(u.rest))
            else
              match ShortEscape(t[1])
              case None => None
              case Some(c) => ShimJson.Prepend(done + Utf8.Encode(c), StringText(t[2..]))
  {
    hide UnicodeEscape, ShortEscape, Utf8.Encode;
    if t[0] != BACKSLASH {
      PrependTwice(done, [t[0]], StringText(t[1..]));
    } else if |t| >= 2 {
      if t[1] == 'u' as int {
        if UnicodeEscape(t[2..]).Some? {
          var u := UnicodeEscape(t[2..]).value;
          PrependTwice(done, Utf8.Encode(u.value), StringText(u.rest));
        }
      } else if ShortEscape(t[1]).Some? {
        PrependTwice(done, Utf8.Encode(ShortEscape(t[1]).value), StringText(t[2..]));
      }
    }
  }

  lemma StringEnd(t: bytes, done: bytes)
    requires t == [] || t[0] == QUOTE
    ensures ShimJson.Prepend(done, StringText(t)) == if t == [] then None else Some(Read(done, t[1..]))
  {
    assert done + [] == done;
  }

  method SkipSpaces(s: bytes, p: nat) returns (q: nat)
    requires p <= |s|
    ensures p <= q <= |s| && s[q..] == SkipSpace(s[p..])
  {
    q := p;
    while q < |s| && Space(s[q])
      invariant p <= q <= |s| && SkipSpace(s[p..]) == SkipSpace(s[q..])
    {
      assert s[q..][1..] == s[q + 1..];
      q := q + 1;
    }
  }

  /** `json_skip_value`. */
  method SkipJsonValue(s: bytes, p: nat) returns (next: Option<nat>)
    requires p <= |s| && NulFree(s)
    ensures match SkipValue(s[p..])
            case None => next == None
            case Some(rest) => next.Some? && p <= next.value <= |s| && s[next.value..] == rest
  {
    hide StringText;
    var q := SkipSpaces(s, p);
    var depth := 0;
    var nowhere := new byte[0];
    while true
      invariant p <= q <= |s| && SkipValue(s[p..]) == SkipText(s[q..], depth)
      decreases |s| - q
    {
      if q == |s| {
        return None;
      }
      assert s[q..][1..] == s[q + 1..];
      if s[q] == QUOTE {
        var end, _ := ReadString(s, q, nowhere);
        if end.None? {
          return None;
        }
        q := end.value;
      } else {
        if s[q] == OPEN || s[q] == OPEN_LIST {
          depth := depth + 1;
        } else if s[q] == CLOSE || s[q] == CLOSE_LIST {
          if depth == 0 {
            return Some(q);
          }
          depth := depth - 1;
        } else if depth == 0 && s[q] == COMMA {
          return Some(q);
        }
        q := q + 1;
      }
      if !(depth > 0 || (q < |s| && s[q] != COMMA && s[q] != CLOSE)) {
        return Some(q);
      }
    }
  }

  method ReadNumber(s: bytes, p: nat, out: array<byte>) returns (length: nat)
    requires p <= |s| && out.Length > 0
    modifies out
    ensures var text := NumberText(s[p..], out.Length - 1);
      length == |text| && Finished(out, text)
  {
    length := 0;
    var q := p;
    ghost var done: bytes := [];
    ghost var whole := NumberText(s[p..], out.Length - 1);
    assert [] + whole == whole;
    while q < |s| && NumberChar(s[q]) && length + 1 < out.Length
      invariant p <= q <= |s| && length == |done| < out.Length && Holds(out, done)
      invariant whole == done + NumberText(s[q..], out.Length - 1 - length)
    {
      assert s[q..][1..] == s[q + 1..];
      ghost var more := NumberText(s[q + 1..], out.Length - 2 - length);
      assert (done + [s[q]]) + more == done + ([s[q]] + more);
      out[length] := s[q];
      done := done + [s[q]];
      length, q := length + 1, q + 1;
    }
    assert done + [] == done;
    out[length] := 0;
  }

  /** A member's name and colon at `p`; returns where its value is and whether the name is `key`. */
  method ReadName(s: bytes, p: nat, key: bytes) returns (r: Option<(nat, bool)>)
    requires p < |s| && s[p] == QUOTE && NulFree(s)
    ensures match StringText(s[p + 1..])
            case None => r == None
            case Some(name) =>
              var c := SkipSpace(name.rest);
              if c == [] || c[0] != COLON then r == None
              else
                && r.Some? && p < r.value.0 <= |s| && s[r.value.0..] == SkipSpace(c[1..])
                && r.value.1 == (|name.value| < NAME_SIZE && CString(name.value) == key)
  {
    hide StringText, SkipSpace, CString;
    var buffer := new byte[NAME_SIZE];
    var next, length := ReadString(s, p, buffer);
    if next.None? {
      return None;
    }
    var q := SkipSpaces(s, next.value);
    if q == |s| || s[q] != COLON {
      return None;
    }
    assert s[q..][1..] == s[q + 1..];
    q := SkipSpaces(s, q + 1);
    var same := false;
    if length < NAME_SIZE {
      assert buffer[..length] == StringText(s[p + 1..]).value.value;
      same := CString(buffer[..length]) == key;
    }
    return Some((q, same));
  }

  /** The value at `p`, as text in `out`. */
  method ReadValue(s: bytes, p: nat, out: array<byte>) returns (found: bool)
    requires p <= |s| && NulFree(s) && out.Length > 0
    modifies out
    ensures found <==> ValueText(s[p..], out.Length).Some?
    ensures found ==> Finished(out, ValueText(s[p..], out.Length).value)
  {
    hide StringText, NumberText;
    if p < |s| && s[p] == QUOTE {
      assert s[p..][1..] == s[p + 1..];
      var end, size := ReadString(s, p, out);
      return end.Some? && size < out.Length;
    }
    var size := ReadNumber(s, p, out);
    return size > 0;
  }

  /** `json_get`: the value of `key`, as text in `out`. */
  method JsonGet(json: bytes, key: bytes, out: array<byte>) returns (found: bool)
    requires NulFree(json) && out.Length > 0
    modifies out
    ensures found <==> GetText(json, key, out.Length).Some?
    ensures found ==> Finished(out, GetText(json, key, out.Length).value)
  {
    hide StringText, SkipValue, CString, ValueText, SkipSpace, Finished;
    var p := SkipSpaces(json, 0);
    assert json[0..] == json;
    if p == |json| || json[p] != OPEN {
      return false;
    }
    assert json[p..][1..] == json[p + 1..];
    p := p + 1;
    while true
      invariant p <= |json|
      invariant GetText(json, key, out.Length) == MembersText(json[p..], key, out.Length)
      decreases |json| - p
    {
      p := SkipSpaces(json, p);
      if p == |json| || json[p] != QUOTE {
        return false;
      }
      assert json[p..][1..] == json[p + 1..];
      var name := ReadName(json, p, key);
      if name.None? {
        return false;
      }
      p := name.value.0;
      if name.value.1 {
        found := ReadValue(json, p, out);
        return;
      }
      var after := SkipJsonValue(json, p);
      if after.None? {
        return false;
      }
      p := SkipSpaces(json, after.value);
      if p == |json| || json[p] != COMMA {
        return false;
      }
      assert json[p..][1..] == json[p + 1..];
      p := p + 1;
    }
  }
}
