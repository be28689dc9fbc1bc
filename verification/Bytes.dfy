/**
  Octets, byte strings and the two result types the other modules share.
 */
module Bytes {
  /** One octet. The programs' bit operations on octets are written as arithmetic on this type. */
  type byte = b: int | 0 <= b < 256

  type bytes = seq<byte>

  datatype Option<+T> = None | Some(value: T)

  /** The value a function returns, or the exception it throws. */
  datatype Result<+T, +E> = Ok(value: T) | Err(error: E) {
    predicate IsFailure() {
      Err?
    }

    function PropagateFailure<U>(): Result<U, E>
      requires Err?
    {
      Err(error)
    }

    function Extract(): T
      requires Ok?
    {
      value
    }
  }

  /** A number and its base-256 digits, the least first. */
  lemma Digits(n: nat)
    requires n < 0x1_0000_0000
    ensures n == n % 256 + 0x100 * (n / 0x100 % 256) + 0x1_0000 * (n / 0x1_0000 % 256)
                 + 0x100_0000 * (n / 0x100_0000 % 256)
  {
    Quotients(n);
    var a, b, c := n / 0x100, n / 0x100 / 0x100, n / 0x100 / 0x100 / 0x100;
    assert n == n % 256 + 0x100 * a;
    assert a == a % 256 + 0x100 * b;
    assert b == b % 256 + 0x100 * c;
    assert c % 256 == c;
  }

  lemma Quotients(n: nat)
    ensures n / 0x1_0000 == n / 0x100 / 0x100 && n / 0x100_0000 == n / 0x100 / 0x100 / 0x100
  {
  }

  /** Holds for every string a C string or a `std::string` built from one can carry. */
  predicate NulFree(s: bytes) {
    0 !in s
  }

  /** The octets of an ASCII literal. */
  function Ascii(text: string): (s: bytes)
    requires forall i | 0 <= i < |text| :: text[i] as int < 128
    ensures |s| == |text| && forall i | 0 <= i < |s| :: s[i] == text[i] as int
  {
    seq<byte>(|text|, i requires 0 <= i < |text| => text[i] as int)
  }

  /** The position of the first `c`, or the length when there is none. */
  function IndexOf(s: bytes, c: byte): (i: nat)
    ensures i <= |s|
    ensures c !in s[..i]
    ensures i < |s| ==> s[i] == c
  {
    if s == [] || s[0] == c then 0 else
      var i := IndexOf(s[1..], c);
      assert s[..i + 1] == [s[0]] + s[1..][..i];
      i + 1
  }

  /** A first occurrence is found behind anything that does not contain the byte. */
  lemma {:induction false} IndexOfPrefix(prefix: bytes, c: byte, rest: bytes)
    requires c !in prefix
    ensures IndexOf(prefix + [c] + rest, c) == |prefix|
  {
    var s := prefix + [c] + rest;
    assert s[|prefix|] == c;
    var i := IndexOf(s, c);
    assert forall j | 0 <= j < i :: s[j] in s[..i];
    assert forall j | 0 <= j < |prefix| :: s[j] == prefix[j];
  }
}
