/** Length-prefixed messages on a byte stream (src/common/ipc.cpp, `PipeChannel::send` and `receive`). */
module PipeFrames {
  import opened Bytes

  const MAX_MESSAGE: nat := 1024 * 1024

  /** The JSON library: how values are dumped and parsed, and which of them are objects. */
  datatype Codec<!J(==)> = Codec(dump: J -> bytes, parse: bytes -> Option<J>, isObject: J -> bool)

  /** Parsing a dump gives the value back. */
  ghost predicate Faithful<J(!new)>(codec: Codec<J>) {
    forall j :: codec.parse(codec.dump(j)) == Some(j)
  }

  function LengthOctet(n: nat, weight: nat): byte
    requires weight > 0
  {
    n / weight % 256
  }

  /** Four octets, the least significant first. */
  function Length(n: nat): (s: bytes)
    ensures |s| == 4
  {
    [LengthOctet(n, 1), LengthOctet(n, 0x100), LengthOctet(n, 0x1_0000), LengthOctet(n, 0x100_0000)]
  }

  function LengthOf(s: bytes): nat
    requires |s| >= 4
  {
    s[0] as int + 0x100 * s[1] as int + 0x1_0000 * s[2] as int + 0x100_0000 * s[3] as int
  }

  lemma LengthRoundTrip(n: nat)
    requires n < 0x1_0000_0000
    ensures LengthOf(Length(n)) == n
  {
    Digits(n);
    assert n / 1 == n;
  }

  /** Whether `send` accepts a dumped message. */
  predicate Sendable(message: bytes) {
    0 < |message| <= MAX_MESSAGE
  }

  function Frame(message: bytes): bytes {
    Length(|message|) + message
  }

  /** How many more octets the receiver asks for, having read `got` of a frame; `None` for a length it refuses. */
  function Wanted(got: bytes): Option<int> {
    if |got| < 4 then Some(4 - |got|)
    else if 0 < LengthOf(got) <= MAX_MESSAGE then Some(4 + LengthOf(got) - |got|)
    else None
  }

  /** Reading a frame from its start, the receiver asks exactly for what is left of it. */
  lemma WantedInFrame(message: bytes, got: bytes)
    requires Sendable(message) && got <= Frame(message)
    ensures Wanted(got) == Some(if |got| < 4 then 4 - |got| else |Frame(message)| - |got|)
    ensures Wanted(got) == Some(0) <==> got == Frame(message)
  {
    if |got| >= 4 {
      assert got[..4] == Length(|message|);
      assert forall i | 0 <= i < 4 :: got[i] == Length(|message|)[i];
      LengthRoundTrip(|message|);
    }
  }

  /** On the wire: the number of octets, the least octet first, and the octets; from one to 0x10_0000 of them. */
  lemma FrameOctets(message: bytes, a: byte, b: byte, c: byte, d: byte)
    requires |message| == a as int + b as int * 0x100 + c as int * 0x1_0000 + d as int * 0x100_0000
    ensures Frame(message) == [a, b, c, d] + message
    ensures Sendable(message) <==> 1 <= |message| <= 0x10_0000
  {
    OctetOf(a, b, c, d);
  }

  lemma OctetOf(a: byte, b: byte, c: byte, d: byte)
    ensures Length(a as int + b as int * 0x100 + c as int * 0x1_0000 + d as int * 0x100_0000) == [a, b, c, d]
  {
    var n := a as int + b as int * 0x100 + c as int * 0x1_0000 + d as int * 0x100_0000;
    Quotients(n);
    assert n / 1 == n;
    assert n / 0x100 == b as int + c as int * 0x100 + d as int * 0x1_0000;
    assert n / 0x100 / 0x100 == c as int + d as int * 0x100;
    assert n / 0x100 / 0x100 / 0x100 == d as int;
  }

  function Weight(i: nat): (w: nat)
    requires i <= 4
    ensures w > 0
  {
    if i == 0 then 1 else if i == 1 then 0x100 else if i == 2 then 0x1_0000 else if i == 3 then 0x100_0000
      else 0x1_0000_0000
  }

  /** The number the first `i` octets contribute. */
  function PartialLength(s: bytes, i: nat): nat
    requires |s| == 4 && i <= 4
  {
    if i == 0 then 0 else PartialLength(s, i - 1) + s[i - 1] as int * Weight(i - 1)
  }

  lemma NextOctet(n: nat, i: nat)
    requires i < 4
    ensures n / Weight(i) / 256 == n / Weight(i + 1)
    ensures Length(n)[i] == n / Weight(i) % 256
  {
  }

  /** The message at the start of a stream and what follows it. */
  function ReadFrame(stream: bytes): Result<(bytes, bytes), Failure> {
    if |stream| < 4 then Err(Truncated) else
      var size := PartialLength(stream[..4], 4);
      if size == 0 || size > MAX_MESSAGE then Err(BadLength)
      else if size > |stream| - 4 then Err(Truncated)
      else Ok((stream[4..][..size], stream[4..][size..]))
  }

  /** A frame that was sent is received, whatever follows it. */
  lemma FrameIsReceived(message: bytes, rest: bytes)
    requires Sendable(message)
    ensures ReadFrame(Frame(message) + rest) == Ok((message, rest))
  {
    var stream := Frame(message) + rest;
    assert stream[..4] == Length(|message|);
    assert stream[4..] == message + rest;
    LengthRoundTrip(|message|);
    PartialIsWhole(Length(|message|));
  }

  lemma PartialIsWhole(s: bytes)
    requires |s| == 4
    ensures PartialLength(s, 4) == LengthOf(s)
  {
    assert PartialLength(s, 1) == s[0] as int * Weight(0);
    assert PartialLength(s, 2) == PartialLength(s, 1) + s[1] as int * Weight(1);
    assert PartialLength(s, 3) == PartialLength(s, 2) + s[2] as int * Weight(2);
  }

  function Parsed<J(==)>(codec: Codec<J>, message: bytes): Result<J, Failure> {
    match codec.parse(message)
    case None => Err(NotAnObject)
    case Some(j) => if codec.isObject(j) then Ok(j) else Err(NotAnObject)
  }

  datatype Failure = Closed | TooLarge | Truncated | BadLength | NotAnObject

  /** One end of a pipe: the octets written and not yet read, and whether this end is open. */
  class Pipe<J(==)> {
    var stream: bytes
    var open: bool

    constructor ()
      ensures stream == [] && open
    {
      stream, open := [], true;
    }

    /** `send`: refuses a message before writing anything, or writes one frame. */
    method Send(codec: Codec<J>, value: J) returns (r: Result<(), Failure>)
      modifies this
      ensures open == old(open)
      ensures r.Ok? <==> open && Sendable(codec.dump(value))
      ensures r.Ok? ==> stream == old(stream) + Frame(codec.dump(value))
      ensures r.Err? ==> stream == old(stream)
    {
      if !open {
        return Err(Closed);
      }
      var message := codec.dump(value);
      if |message| == 0 || |message| > MAX_MESSAGE {
        return Err(TooLarge);
      }
      var length: bytes := [];
      var rest := |message|;
      for i := 0 to 4
        invariant |length| == i && rest == |message| / Weight(i)
        invariant length == Length(|message|)[..i]
        invariant stream == old(stream) && open
      {
        NextOctet(|message|, i);
        assert length + [Length(|message|)[i]] == Length(|message|)[..i + 1];
        length := length + [rest % 256];
        rest := rest / 256;
      }
      assert Length(|message|)[..4] == Length(|message|);
      stream := stream + length;
      stream := stream + message;
      assert stream == old(stream) + Frame(message);
      return Ok(());
    }

    /** `receive`: one frame, parsed; the stream goes on after it. */
    method Receive(codec: Codec<J>) returns (r: Result<J, Failure>)
      modifies this
      ensures open == old(open)
      ensures if !open then r == Err(Closed) && stream == old(stream) else
        match ReadFrame(old(stream))
        case Err(e) => r == Err(e)
        case Ok((message, rest)) => r == Parsed(codec, message) && stream == rest
    {
      if !open {
        return Err(Closed);
      }
      if |stream| < 4 {
        return Err(Truncated);
      }
      var length := stream[..4];
      stream := stream[4..];
      var size := 0;
      for i := 0 to 4
        invariant size == PartialLength(length, i)
      {
        size := size + length[i] as int * Weight(i);
      }
      if size == 0 || size > MAX_MESSAGE {
        return Err(BadLength);
      }
      if size > |stream| {
        return Err(Truncated);
      }
      var message := stream[..size];
      stream := stream[size..];
      var j := codec.parse(message);
      if j.None? || !codec.isObject(j.value) {
        return Err(NotAnObject);
      }
      return Ok(j.value);
    }
  }
}
