/** Which package names are safe (src/common/paths.cpp, `safe_name` and `safe_package`), in terms of Windows' rules. */
module SafeNames {
  import opened Bytes
  import opened Shortcuts

  /** Equal but for the case of letters; `name` is in capitals. */
  predicate IgnoringCase(s: bytes, name: bytes) {
    |s| == |name| &&
    forall i | 0 <= i < |s| :: s[i] == name[i] || (0x41 <= name[i] <= 0x5A && s[i] as int == name[i] as int + 0x20)
  }

  /** CON, PRN, AUX, NUL, or COM or LPT and a digit from one to nine. */
  ghost predicate DeviceName(s: bytes) {
    || IgnoringCase(s, [0x43, 0x4F, 0x4E]) || IgnoringCase(s, [0x50, 0x52, 0x4E])
    || IgnoringCase(s, [0x41, 0x55, 0x58]) || IgnoringCase(s, [0x4E, 0x55, 0x4C])
    || exists d: byte :: 0x31 <= d <= 0x39 && ComOrLpt(s, d)
  }

  predicate ComOrLpt(s: bytes, d: byte) {
    IgnoringCase(s, [0x43, 0x4F, 0x4D, d]) || IgnoringCase(s, [0x4C, 0x50, 0x54, d])
  }

  /** The part of a name before its first dot is a device's name: Windows would open the device. */
  ghost predicate NamesDevice(s: bytes) {
    exists n: nat :: StemIs(s, n) && DeviceName(s[..n])
  }

  predicate StemIs(s: bytes, n: nat) {
    n <= |s| && 0x2E !in s[..n] && (n < |s| ==> s[n] == 0x2E)
  }

  /** A name a file can have on Windows: no character it refuses, no dot or blank at the end, no device. */
  ghost predicate FileName(s: bytes) {
    && 1 <= |s| <= 220 && s[|s| - 1] != 0x2E && s[|s| - 1] != 0x20 && !NamesDevice(s)
    && forall c <- s :: 0x20 <= c != 0x7F && c !in [0x3C, 0x3E, 0x3A, 0x22, 0x2F, 0x5C, 0x7C, 0x3F, 0x2A]
  }

  /** A letter, a digit, a dot, `_` or `-`. */
  predicate KeyCharacter(c: byte) {
    0x41 <= c <= 0x5A || 0x61 <= c <= 0x7A || 0x30 <= c <= 0x39 || c == 0x2E || c == 0x5F || c == 0x2D
  }

  lemma StemLength(s: bytes)
    ensures StemIs(s, IndexOf(s, 0x2E))
    ensures forall n: nat | StemIs(s, n) :: n == IndexOf(s, 0x2E)
  {
    var k := IndexOf(s, 0x2E);
    forall n: nat | StemIs(s, n) ensures n == k {
      if n < |s| {
        assert s == s[..n] + [0x2E] + s[n + 1..];
        IndexOfPrefix(s[..n], 0x2E, s[n + 1..]);
      } else {
        assert s[..n] == s;
      }
    }
  }

  lemma UpperIgnoresCase(s: bytes, name: bytes)
    requires forall i | 0 <= i < |name| :: 0x30 <= name[i] <= 0x5A
    ensures seq(|s|, i requires 0 <= i < |s| => Upper(s[i])) == name <==> IgnoringCase(s, name)
  {
    var u := seq(|s|, i requires 0 <= i < |s| => Upper(s[i]));
    if IgnoringCase(s, name) {
      assert forall i | 0 <= i < |s| :: u[i] == name[i];
    }
    if u == name {
      assert forall i | 0 <= i < |s| :: Upper(s[i]) == u[i] == name[i];
    }
  }

  lemma ReservedIsDevice(s: bytes)
    ensures Reserved(s) <==> DeviceName(s)
  {
    var u := seq(|s|, i requires 0 <= i < |s| => Upper(s[i]));
    UpperIgnoresCase(s, [0x43, 0x4F, 0x4E]);
    UpperIgnoresCase(s, [0x50, 0x52, 0x4E]);
    UpperIgnoresCase(s, [0x41, 0x55, 0x58]);
    UpperIgnoresCase(s, [0x4E, 0x55, 0x4C]);
    assert Ascii("CON") == [0x43, 0x4F, 0x4E] && Ascii("PRN") == [0x50, 0x52, 0x4E];
    assert Ascii("AUX") == [0x41, 0x55, 0x58] && Ascii("NUL") == [0x4E, 0x55, 0x4C];
    NumberedIsDevice(s);
  }

  lemma NumberedIsDevice(s: bytes)
    ensures var u := seq(|s|, i requires 0 <= i < |s| => Upper(s[i]));
      (|u| == 4 && (u[..3] == Ascii("COM") || u[..3] == Ascii("LPT")) && 0x31 <= u[3] <= 0x39) <==>
      exists d: byte :: 0x31 <= d <= 0x39 && ComOrLpt(s, d)
  {
    var u := seq(|s|, i requires 0 <= i < |s| => Upper(s[i]));
    assert Ascii("COM") == [0x43, 0x4F, 0x4D] && Ascii("LPT") == [0x4C, 0x50, 0x54];
    forall d: byte | 0x31 <= d <= 0x39
      ensures ComOrLpt(s, d) <==> u == [0x43, 0x4F, 0x4D, d] || u == [0x4C, 0x50, 0x54, d]
    {
      UpperIgnoresCase(s, [0x43, 0x4F, 0x4D, d]);
      UpperIgnoresCase(s, [0x4C, 0x50, 0x54, d]);
    }
    if |u| == 4 && 0x31 <= u[3] <= 0x39 {
      assert u == u[..3] + [u[3]];
      assert u[..3] == [0x43, 0x4F, 0x4D] ==> u == [0x43, 0x4F, 0x4D, u[3]];
      assert u[..3] == [0x4C, 0x50, 0x54] ==> u == [0x4C, 0x50, 0x54, u[3]];
    }
  }

  /** Exactly which names are safe: file names of such characters, not led by a dot or dash, without double dots. */
  lemma SafeExactly(s: bytes)
    ensures SafePackage(s) <==>
            && FileName(s) && s[0] != 0x2E && s[0] != 0x2D && (forall c <- s :: KeyCharacter(c))
            && forall i | 0 <= i < |s| - 1 :: !(s[i] == 0x2E && s[i + 1] == 0x2E)
  {
    hide Reserved, DeviceName;
    StemLength(s);
    ReservedIsDevice(s[..IndexOf(s, 0x2E)]);
    assert forall c <- s :: PackageByte(c) <==> KeyCharacter(c);
    if SafePackage(s) {
      assert s[|s| - 1] in s;
    }
  }
}
