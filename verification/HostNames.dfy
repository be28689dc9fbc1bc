/**
  File names of Windows guests on a Windows host (src/common/paths.cpp): the octets the host refuses in names are
  stored as private-use code points and restored on the way back.
 */
module HostNames {
  import opened Bytes
  import Utf8

  predicate HostForbidden(c: byte) {
    || 0 < c < 0x20
    || c == 0x3A || c == 0x2A || c == 0x3F || c == 0x22 || c == 0x3C || c == 0x3E || c == 0x7C
  }

  /** U+F000 + c, in UTF-8. */
  function Escape(c: byte): bytes
    requires c < 0x80
  {
    [0xEF, 0x80 + c / 0x40, 0x80 + c % 0x40]
  }

  function HostName(guest: bytes): bytes {
    if guest == [] then []
    else (if HostForbidden(guest[0]) then Escape(guest[0]) else [guest[0]]) + HostName(guest[1..])
  }

  /** The octet a private-use code point at the front of `s` stands for, if the host forbids it. */
  function Escaped(s: bytes): (c: Option<byte>)
    ensures c.Some? ==> HostForbidden(c.value) && |s| >= 3 && s[..3] == Escape(c.value)
  {
    if |s| > 2 && s[0] == 0xEF && 0x80 <= s[1] <= 0x81 && 0x80 <= s[2] < 0xC0 then
      var c := (s[1] - 0x80) * 0x40 + (s[2] - 0x80);
      if HostForbidden(c) then Some(c) else None
    else None
  }

  function GuestName(host: bytes): bytes {
    if host == [] then []
    else if Escaped(host).Some? then [Escaped(host).value] + GuestName(host[3..])
    else [host[0]] + GuestName(host[1..])
  }

  predicate HostSafe(s: bytes) {
    forall i | 0 <= i < |s| :: !HostForbidden(s[i])
  }

  ghost predicate HasEscape(s: bytes) {
    exists i :: 0 <= i < |s| && Escaped(s[i..]).Some?
  }

  /** A stored name has no octet the host refuses. */
  lemma {:induction false} HostNameIsSafe(guest: bytes)
    ensures HostSafe(HostName(guest))
  {
    if guest == [] {
    } else {
      HostNameIsSafe(guest[1..]);
    }
  }

  lemma EscapeIsEscaped(c: byte, rest: bytes)
    requires HostForbidden(c)
    ensures Escaped(Escape(c) + rest) == Some(c)
  {
    var s := Escape(c) + rest;
    assert s[0] == 0xEF && s[1] == 0x80 + c / 0x40 && s[2] == 0x80 + c % 0x40;
  }

  lemma {:induction false} SafeIsKept(a: bytes, rest: bytes)
    requires HostSafe(a)
    ensures HostName(a + rest) == a + HostName(rest)
  {
    if a == [] {
      assert a + rest == rest;
    } else {
      assert (a + rest)[1..] == a[1..] + rest;
      SafeIsKept(a[1..], rest);
    }
  }

  lemma FirstOctet(guest: bytes)
    ensures guest == [] <==> HostName(guest) == []
    ensures guest != [] ==> HostName(guest)[0] == if HostForbidden(guest[0]) then 0xEF else guest[0]
  {
  }

  /** Storing a name makes no escape out of octets that were not one. */
  lemma NoNewEscape(guest: bytes)
    requires guest != [] && !HostForbidden(guest[0]) && Escaped(guest).None?
    ensures Escaped(HostName(guest)).None?
  {
    FirstOctet(guest[1..]);
    if |guest| > 1 {
      FirstOctet(guest[2..]);
    }
  }

  /** Storing a name and reading it back decodes the escapes it had already, and changes nothing else. */
  lemma {:induction false} GuestOfHost(guest: bytes)
    ensures GuestName(HostName(guest)) == GuestName(guest)
    decreases |guest|
  {
    if guest == [] {
    } else {
      var host := HostName(guest);
      if HostForbidden(guest[0]) {
        EscapeIsEscaped(guest[0], HostName(guest[1..]));
        assert host[3..] == HostName(guest[1..]);
        GuestOfHost(guest[1..]);
      } else if Escaped(guest).Some? {
        assert guest == guest[..3] + guest[3..];
        SafeIsKept(guest[..3], guest[3..]);
        EscapeIsEscaped(Escaped(guest).value, HostName(guest[3..]));
        assert host[3..] == HostName(guest[3..]);
        GuestOfHost(guest[3..]);
      } else {
        NoNewEscape(guest);
        assert host[1..] == HostName(guest[1..]);
        GuestOfHost(guest[1..]);
      }
    }
  }

  lemma {:induction false} GuestNameShrinks(host: bytes)
    ensures |GuestName(host)| <= |host|
    ensures HasEscape(host) ==> |GuestName(host)| < |host|
    ensures !HasEscape(host) ==> GuestName(host) == host
    decreases |host|
  {
    if host == [] {
    } else {
      if Escaped(host).Some? {
        assert Escaped(host[0..]).Some?;
        GuestNameShrinks(host[3..]);
      } else {
        GuestNameShrinks(host[1..]);
        if HasEscape(host) {
          var i :| 0 <= i < |host| && Escaped(host[i..]).Some?;
          assert i != 0;
          assert host[1..][i - 1..] == host[i..];
        }
        if HasEscape(host[1..]) {
          var i :| 0 <= i < |host[1..]| && Escaped(host[1..][i..]).Some?;
          assert host[1..][i..] == host[i + 1..];
        }
      }
    }
  }

  /** A guest's name survives exactly when it has no escape of a forbidden octet in it. */
  lemma GuestRoundTrip(guest: bytes)
    ensures GuestName(HostName(guest)) == guest <==> !HasEscape(guest)
  {
    GuestOfHost(guest);
    GuestNameShrinks(guest);
  }

  /** So names without one never share a stored name. */
  lemma StoredNamesDiffer(a: bytes, b: bytes)
    requires !HasEscape(a) && !HasEscape(b) && a != b
    ensures HostName(a) != HostName(b)
  {
    GuestRoundTrip(a);
    GuestRoundTrip(b);
  }

  lemma {:induction false} SafeHostReturns(host: bytes)
    requires HostSafe(host)
    ensures HostName(GuestName(host)) == host
    decreases |host|
  {
    if host == [] {
    } else {
      if Escaped(host).Some? {
        SafeHostReturns(host[3..]);
        assert host == host[..3] + host[3..];
        assert GuestName(host)[1..] == GuestName(host[3..]);
      } else {
        SafeHostReturns(host[1..]);
        assert GuestName(host)[1..] == GuestName(host[1..]);
      }
    }
  }

  /** A host's name survives exactly when it is one the host accepts. */
  lemma HostRoundTrip(host: bytes)
    ensures HostName(GuestName(host)) == host <==> HostSafe(host)
  {
    HostNameIsSafe(GuestName(host));
    if HostSafe(host) {
      SafeHostReturns(host);
    }
  }

  // ---- The same in characters and code points ----

  /** What Windows refuses in a name: control characters and `< > : " | ? *`. */
  predicate Refused(c: byte) {
    || 1 <= c <= 31 || c == '<' as int || c == '>' as int || c == ':' as int || c == '"' as int || c == '|' as int
    || c == '?' as int || c == '*' as int
  }

  /** Each of these is stored as the code point U+F000 higher, and nothing else is touched. */
  function Stored(guest: bytes): bytes {
    if guest == [] then []
    else (if Refused(guest[0]) then Utf8.Encode(0xF000 + guest[0] as int) else [guest[0]]) + Stored(guest[1..])
  }

  lemma EscapeIsUtf8(c: byte)
    requires c < 0x80
    ensures Escape(c) == Utf8.Encode(0xF000 + c as int)
  {
    var cp := 0xF000 + c as int;
    assert cp / 0x1000 == 15 && cp / 0x40 == 0x3C0 + c / 0x40 && cp % 0x40 == c % 0x40;
    assert (0x3C0 + c / 0x40) % 0x40 == c / 0x40;
  }

  lemma SameRefused(c: byte)
    ensures HostForbidden(c) <==> Refused(c)
  {
  }

  /** A stored name, and that Windows accepts it. */
  lemma {:induction false} StoredInPrivateUse(guest: bytes)
    ensures HostName(guest) == Stored(guest)
    ensures forall i | 0 <= i < |HostName(guest)| :: !Refused(HostName(guest)[i])
  {
    hide HostForbidden, Refused, Escape, Utf8.Encode;
    HostNameIsSafe(guest);
    forall i | 0 <= i < |HostName(guest)| ensures !Refused(HostName(guest)[i]) {
      SameRefused(HostName(guest)[i]);
    }
    if guest == [] {
    } else {
      StoredInPrivateUse(guest[1..]);
      SameRefused(guest[0]);
      if Refused(guest[0]) {
        RefusedIsAscii(guest[0]);
        EscapeIsUtf8(guest[0]);
      }
    }
  }

  lemma RefusedIsAscii(c: byte)
    requires Refused(c)
    ensures c < 0x80
  {
  }

  ghost predicate HasPrivateUse(s: bytes) {
    exists i, c: byte :: PrivateUseAt(s, i, c)
  }

  ghost predicate PrivateUseAt(s: bytes, i: int, c: byte) {
    0 <= i && i + 3 <= |s| && Refused(c) && s[i..i + 3] == Utf8.Encode(0xF000 + c as int)
  }

  /** The names that do not survive are those that have such a code point already. */
  lemma EscapesArePrivateUse(s: bytes)
    ensures HasEscape(s) <==> HasPrivateUse(s)
  {
    hide HostForbidden, Refused, Utf8.Encode, Escape;
    if HasEscape(s) {
      var i :| 0 <= i < |s| && Escaped(s[i..]).Some?;
      var c := Escaped(s[i..]).value;
      SameRefused(c);
      RefusedIsAscii(c);
      EscapeIsUtf8(c);
      assert s[i..][..3] == s[i..i + 3];
      assert PrivateUseAt(s, i, c);
    }
    if HasPrivateUse(s) {
      var i, c: byte :| PrivateUseAt(s, i, c);
      SameRefused(c);
      RefusedIsAscii(c);
      EscapeIsUtf8(c);
      assert s[i..] == Escape(c) + s[i + 3..];
      EscapeIsEscaped(c, s[i + 3..]);
    }
  }

  // ---- The loops ----

  lemma {:induction false} HostNameAppend(a: bytes, b: bytes)
    ensures HostName(a + b) == HostName(a) + HostName(b)
  {
    if a == [] {
      assert a + b == b;
    } else {
      assert (a + b)[1..] == a[1..] + b;
      HostNameAppend(a[1..], b);
    }
  }

  method ToHost(guest: bytes) returns (out: bytes)
    ensures out == HostName(guest) && HostSafe(out)
  {
    out := [];
    for i := 0 to |guest|
      invariant out == HostName(guest[..i])
    {
      var c := guest[i];
      assert guest[..i + 1] == guest[..i] + [c];
      HostNameAppend(guest[..i], [c]);
      if !HostForbidden(c) {
        out := out + [c];
        continue;
      }
      out := out + [0xEF];
      out := out + [0x80 + c / 0x40];
      out := out + [0x80 + c % 0x40];
    }
    assert guest[..|guest|] == guest;
    HostNameIsSafe(guest);
  }

  /** `Escaped`, by index into the whole name. */
  function EscapedAt(host: bytes, i: nat): (c: Option<byte>)
    requires i < |host|
    ensures c == Escaped(host[i..])
  {
    if i + 2 < |host| && host[i] == 0xEF && 0x80 <= host[i + 1] <= 0x81 && 0x80 <= host[i + 2] < 0xC0 then
      var c := host[i + 1] % 2 * 0x40 + host[i + 2] % 0x40;
      if HostForbidden(c) then Some(c) else None
    else None
  }

  lemma GuestStep(host: bytes, i: nat)
    requires i < |host|
    ensures EscapedAt(host, i).Some? ==>
              i + 3 <= |host| && GuestName(host[i..]) == [EscapedAt(host, i).value] + GuestName(host[i + 3..])
    ensures EscapedAt(host, i).None? ==> GuestName(host[i..]) == [host[i]] + GuestName(host[i + 1..])
  {
    hide EscapedAt;
    var rest := host[i..];
    assert rest[1..] == host[i + 1..];
    if Escaped(rest).Some? {
      assert rest[3..] == host[i + 3..];
    }
  }

  method ToGuest(host: bytes) returns (out: bytes)
    ensures out == GuestName(host)
  {
    hide GuestName, HostForbidden, Escaped;
    out := [];
    var i := 0;
    while i < |host|
      invariant 0 <= i <= |host|
      invariant GuestName(host) == out + GuestName(host[i..])
    {
      GuestStep(host, i);
      if i + 2 < |host| && host[i] == 0xEF && (host[i + 1] == 0x80 || host[i + 1] == 0x81) &&
        0x80 <= host[i + 2] < 0xC0 {
        var c: byte := host[i + 1] % 2 * 0x40 + host[i + 2] % 0x40;
        if HostForbidden(c) {
          out := out + [c];
          i := i + 3;
          continue;
        }
      }
      out := out + [host[i]];
      i := i + 1;
    }
    NothingLeft(host);
  }

  lemma NothingLeft(host: bytes)
    ensures GuestName(host[|host|..]) == []
  {
  }
}
