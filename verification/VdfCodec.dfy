/**
  Steam's binary KeyValues format (src/common/steam_library.cpp).

  `ParseFields` and `EncodeObject` say what the format is; class `Reader` and method `Encode` are the
  program's loops, proved against them. The two theorems at the end say that reading and writing are
  inverse to each other, and on exactly which trees.
 */
module VdfCodec {
  import opened Bytes

  const SIZE_LIMIT: nat := 16 * 1024 * 1024
  const MAX_DEPTH: nat := 64
  const MAX_FIELDS: nat := 200000

  /** `wire` is the field's type byte; `value` includes the payload's own terminator. */
  datatype Vdf = Vdf(wire: byte, key: bytes, value: bytes, children: seq<Vdf>, end: byte)

  const EMPTY := Vdf(0, [], [], [], 8)

  datatype Error = Truncated | Unterminated | TooDeep | TooManyFields | Unsupported | TooLarge | Trailing | InvalidKey

  // ---- The format ----

  /** A payload or an object as it was read, and what is left after it. */
  datatype Parsed<+T> = Parsed(item: T, rest: bytes, fields: nat)

  datatype Object = Object(children: seq<Vdf>, end: byte)

  function Take(input: bytes, n: nat): (r: Result<Parsed<bytes>, Error>)
    ensures r.Ok? <==> n <= |input|
    ensures r.Ok? ==> input == r.value.item + r.value.rest && |r.value.item| == n
  {
    if n > |input| then Err(Truncated) else Ok(Parsed(input[..n], input[n..], 0))
  }

  /** Everything up to and including the first NUL. */
  function TakeString(input: bytes): (r: Result<Parsed<bytes>, Error>)
    ensures r.Ok? ==> input == r.value.item + r.value.rest && IsString(r.value.item)
  {
    var i := IndexOf(input, 0);
    if i == |input| then Err(Unterminated) else
      assert input[..i + 1][..i] == input[..i];
      Ok(Parsed(input[..i + 1], input[i + 1..], 0))
  }

  /** Two bytes at a time, up to and including the first aligned pair of zeros. */
  function TakeWide(input: bytes): (r: Result<Parsed<bytes>, Error>)
    ensures r.Ok? ==> input == r.value.item + r.value.rest && IsWide(r.value.item)
  {
    var unit :- Take(input, 2);
    if unit.item == [0, 0] then Ok(unit) else
      var more :- TakeWide(unit.rest);
      assert (unit.item + more.item)[2..] == more.item;
      Ok(Parsed(unit.item + more.item, more.rest, 0))
  }

  function TakeScalar(wire: byte, input: bytes): (r: Result<Parsed<bytes>, Error>)
    ensures r.Ok? ==> input == r.value.item + r.value.rest && IsScalar(wire, r.value.item)
  {
    match wire
    case 1 => TakeString(input)
    case 5 => TakeWide(input)
    case 2 | 3 | 4 | 6 => Take(input, 4)
    case 7 | 10 => Take(input, 8)
    case 9 => Take(input, 1)
    case _ => Err(Unsupported)
  }

  /** What follows a field's key: an object or a scalar. */
  function ParsePayload(wire: byte, key: bytes, input: bytes, fields: nat, depth: nat): (r: Result<Parsed<Vdf>, Error>)
    ensures r.Ok? ==> |r.value.rest| <= |input|
    decreases |input|, 3
  {
    if wire == 0 then
      var body :- ParseObject(input, fields, depth + 1);
      Ok(Parsed(Vdf(0, key, [], body.item.children, body.item.end), body.rest, body.fields))
    else
      var scalar :- TakeScalar(wire, input);
      Ok(Parsed(Vdf(wire, key, scalar.item, [], 8), scalar.rest, fields))
  }

  /** One field after its type byte. */
  function ParseField(wire: byte, input: bytes, fields: nat, depth: nat): (r: Result<Parsed<Vdf>, Error>)
    ensures r.Ok? ==> |r.value.rest| < |input|
    decreases |input|, 0
  {
    var name :- TakeString(input);
    ParsePayload(wire, name.item[..|name.item| - 1], name.rest, fields, depth)
  }

  /** Fields up to and including an end marker. */
  function ParseFields(input: bytes, fields: nat, depth: nat): (r: Result<Parsed<Object>, Error>)
    ensures r.Ok? ==> |r.value.rest| < |input|
    decreases |input|, 1
  {
    if input == [] then Err(Truncated)
    else if input[0] == 8 || input[0] == 11 then Ok(Parsed(Object([], input[0]), input[1..], fields))
    else if fields + 1 > MAX_FIELDS then Err(TooManyFields)
    else
      var field :- ParseField(input[0], input[1..], fields + 1, depth);
      var more :- ParseFields(field.rest, field.fields, depth);
      Ok(more.(item := Object([field.item] + more.item.children, more.item.end)))
  }

  function ParseObject(input: bytes, fields: nat, depth: nat): (r: Result<Parsed<Object>, Error>)
    ensures r.Ok? ==> |r.value.rest| < |input|
    decreases |input|, 2
  {
    if depth > MAX_DEPTH then Err(TooDeep) else ParseFields(input, fields, depth)
  }

  /** The tree a whole file stands for. */
  function ReadVdf(input: bytes): Result<Vdf, Error> {
    if |input| > SIZE_LIMIT then Err(TooLarge) else
      var body :- ParseObject(input, 0, 0);
      if body.rest != [] then Err(Trailing)
      else Ok(Vdf(0, [], [], body.item.children, body.item.end))
  }

  function EncodePayload(n: Vdf): bytes
    decreases n, 0
  {
    if n.wire == 0 then EncodeObject(n.children, n.end) else n.value
  }

  /** The bytes of one field. */
  function EncodeField(n: Vdf): bytes
    decreases n, 1
  {
    [n.wire] + n.key + [0] + EncodePayload(n)
  }

  function EncodeObject(children: seq<Vdf>, end: byte): (out: bytes)
    ensures |out| >= 1
    decreases children, 2
  {
    if children == [] then [end] else EncodeField(children[0]) + EncodeObject(children[1..], end)
  }

  /** Fields and end marker appended to `out`: the size is looked at after each field, not after the end marker. */
  function AppendFields(children: seq<Vdf>, end: byte, out: bytes, depth: nat): Result<bytes, Error>
    decreases children, 0
  {
    if children == [] then Ok(out + [end]) else
      var text :- AppendField(children[0], out, depth);
      AppendFields(children[1..], end, text, depth)
  }

  function AppendField(n: Vdf, out: bytes, depth: nat): Result<bytes, Error>
    decreases n, 2
  {
    if !NulFree(n.key) then Err(InvalidKey) else
      var head := out + [n.wire] + n.key + [0];
      var text :- if n.wire == 0 then AppendObject(n.children, n.end, head, depth + 1) else Ok(head + n.value);
      if |text| > SIZE_LIMIT then Err(TooLarge) else Ok(text)
  }

  function AppendObject(children: seq<Vdf>, end: byte, out: bytes, depth: nat): Result<bytes, Error>
    decreases children, 1
  {
    if depth > MAX_DEPTH then Err(TooDeep) else AppendFields(children, end, out, depth)
  }

  /** What `write_vdf` returns: it refuses a tree whose encoding it cannot read back at all. */
  function WriteVdf(d: Vdf): Result<bytes, Error> {
    var out :- AppendObject(d.children, d.end, [], 0);
    var _ :- ReadVdf(out);
    Ok(out)
  }

  /** What `encode` asks of a tree apart from its size: keys it can terminate, and nesting. */
  predicate Encodable(children: seq<Vdf>, depth: nat) {
    depth <= MAX_DEPTH &&
    forall n <- children :: NulFree(n.key) && (n.wire == 0 ==> Encodable(n.children, depth + 1))
  }

  // ---- Well-formed trees: the shapes the wire types prescribe ----

  predicate IsString(value: bytes) {
    |value| >= 1 && value[|value| - 1] == 0 && NulFree(value[..|value| - 1])
  }

  predicate IsWide(value: bytes) {
    |value| >= 2 && if value[..2] == [0, 0] then |value| == 2 else IsWide(value[2..])
  }

  predicate IsScalar(wire: byte, value: bytes) {
    match wire
    case 1 => IsString(value)
    case 5 => IsWide(value)
    case 2 | 3 | 4 | 6 => |value| == 4
    case 7 | 10 => |value| == 8
    case 9 => |value| == 1
    case _ => false
  }

  predicate IsEnd(end: byte) {
    end == 8 || end == 11
  }

  predicate WellFormedField(n: Vdf) {
    NulFree(n.key) &&
    if n.wire == 0 then n.value == [] && IsEnd(n.end) && WellFormedFields(n.children)
    else n.children == [] && n.end == 8 && IsScalar(n.wire, n.value)
  }

  predicate WellFormedFields(children: seq<Vdf>) {
    forall n <- children :: WellFormedField(n)
  }

  /** A document: an object with neither key nor value of its own. */
  predicate WellFormed(d: Vdf) {
    d.wire == 0 && d.key == [] && d.value == [] && IsEnd(d.end) && WellFormedFields(d.children)
  }

  function CountField(n: Vdf): (count: nat)
    ensures count >= 1
  {
    1 + if n.wire == 0 then CountFields(n.children) else 0
  }

  function CountFields(children: seq<Vdf>): nat {
    if children == [] then 0 else CountField(children[0]) + CountFields(children[1..])
  }

  predicate Shallow(children: seq<Vdf>, depth: nat) {
    depth <= MAX_DEPTH && forall n <- children :: n.wire == 0 ==> Shallow(n.children, depth + 1)
  }

  /** The reader's three limits, stated on the tree. */
  predicate WithinLimits(d: Vdf) {
    |EncodeObject(d.children, d.end)| <= SIZE_LIMIT && CountFields(d.children) <= MAX_FIELDS && Shallow(d.children, 0)
  }

  /** How deep objects are nested in an object. */
  function Height(children: seq<Vdf>): nat {
    if children == [] then 0 else
      var first, others := HeightOf(children[0]), Height(children[1..]);
      if first > others then first else others
  }

  function HeightOf(n: Vdf): nat {
    if n.wire == 0 then 1 + Height(n.children) else 0
  }

  lemma {:induction false} ShallowIsHeight(children: seq<Vdf>, depth: nat)
    ensures Shallow(children, depth) <==> depth + Height(children) <= 64
    decreases children
  {
    if children == [] {
    } else {
      if children[0].wire == 0 {
        ShallowIsHeight(children[0].children, depth + 1);
      }
      ShallowIsHeight(children[1..], depth);
      assert children == [children[0]] + children[1..];
      assert forall n <- children :: n == children[0] || n in children[1..];
    }
  }

  /** The limits, in numbers. */
  lemma LimitsExactly(d: Vdf)
    ensures WithinLimits(d) <==>
            && |EncodeObject(d.children, d.end)| <= 16777216 && CountFields(d.children) <= 200000
            && Height(d.children) <= 64
  {
    ShallowIsHeight(d.children, 0);
  }

  predicate ZeroPair(v: bytes, k: nat)
    requires 2 * k + 1 < |v|
  {
    v[2 * k] == 0 && v[2 * k + 1] == 0
  }

  /** UTF-16 text: pairs of octets, of which the last and no other is zero. */
  predicate ZeroEndedPairs(v: bytes) {
    |v| >= 2 && |v| % 2 == 0 && forall k: nat | k < |v| / 2 :: ZeroPair(v, k) <==> k == |v| / 2 - 1
  }

  lemma {:induction false} WideExactly(v: bytes)
    ensures IsWide(v) <==> ZeroEndedPairs(v)
  {
    if |v| < 2 {
    } else {
      assert v[..2] == [0, 0] <==> ZeroPair(v, 0);
      if v[..2] != [0, 0] {
        WideExactly(v[2..]);
        PairsAfter(v);
      }
    }
  }

  lemma PairsAfter(v: bytes)
    requires |v| >= 2 && !ZeroPair(v, 0)
    ensures ZeroEndedPairs(v) <==> ZeroEndedPairs(v[2..])
  {
    var t := v[2..];
    assert forall k: nat | 2 * k + 1 < |t| :: ZeroPair(t, k) <==> ZeroPair(v, k + 1);
    if ZeroEndedPairs(t) {
      forall k: nat | k < |v| / 2 ensures ZeroPair(v, k) <==> k == |v| / 2 - 1 {
        if k > 0 {
          assert ZeroPair(t, k - 1) <==> ZeroPair(v, k - 1 + 1);
        }
      }
    }
    if ZeroEndedPairs(v) {
      assert |t| >= 2;
    }
  }

  /** The wire types and their payloads: text, 32-bit values, UTF-16 text, 64-bit values, one octet. */
  lemma ScalarsExactly(wire: byte, v: bytes)
    ensures IsScalar(wire, v) <==>
            || (wire == 1 && exists text: bytes :: NulFree(text) && v == text + [0])
            || (wire in [2, 3, 4, 6] && |v| == 4) || (wire == 5 && ZeroEndedPairs(v))
            || (wire in [7, 10] && |v| == 8) || (wire == 9 && |v| == 1)
  {
    hide IsWide, ZeroEndedPairs;
    WideExactly(v);
    if IsString(v) {
      assert v == v[..|v| - 1] + [0];
    }
    forall text: bytes | NulFree(text) && v == text + [0] ensures IsString(v) {
      assert v[..|v| - 1] == text;
    }
  }

  // ---- Reading yields a well-formed tree whose encoding is the bytes read ----

  ghost predicate FieldsRead(input: bytes, fields: nat, depth: nat, r: Parsed<Object>) {
    && input == EncodeObject(r.item.children, r.item.end) + r.rest
    && IsEnd(r.item.end) && WellFormedFields(r.item.children)
    && r.fields == fields + CountFields(r.item.children) <= MAX_FIELDS
    && Shallow(r.item.children, depth)
  }

  ghost predicate PayloadRead(wire: byte, key: bytes, input: bytes, fields: nat, depth: nat, r: Parsed<Vdf>) {
    && r.item.wire == wire && r.item.key == key
    && input == EncodePayload(r.item) + r.rest
    && WellFormedField(r.item)
    && r.fields == fields - 1 + CountField(r.item) <= MAX_FIELDS
    && (wire == 0 ==> Shallow(r.item.children, depth + 1))
  }

  lemma {:induction false} ParsePayloadSound(wire: byte, key: bytes, input: bytes, fields: nat, depth: nat)
    requires NulFree(key) && 1 <= fields <= MAX_FIELDS && depth <= MAX_DEPTH
    requires ParsePayload(wire, key, input, fields, depth).Ok?
    ensures PayloadRead(wire, key, input, fields, depth, ParsePayload(wire, key, input, fields, depth).value)
    decreases |input|, 2
  {
    if wire == 0 {
      ParseFieldsSound(input, fields, depth + 1);
    } else {
      assert TakeScalar(wire, input).Ok?;
    }
  }

  lemma FieldLayout(wire: byte, key: bytes, payload: bytes, rest: bytes)
    ensures [wire] + ((key + [0]) + (payload + rest)) == ([wire] + key + [0] + payload) + rest
  {
  }

  lemma {:induction false} ParseFieldSound(wire: byte, input: bytes, fields: nat, depth: nat)
    requires 1 <= fields <= MAX_FIELDS && depth <= MAX_DEPTH
    requires ParseField(wire, input, fields, depth).Ok?
    ensures var r := ParseField(wire, input, fields, depth).value;
      && [wire] + input == EncodeField(r.item) + r.rest
      && WellFormedField(r.item)
      && r.fields == fields - 1 + CountField(r.item) <= MAX_FIELDS
      && (r.item.wire == 0 ==> Shallow(r.item.children, depth + 1))
    decreases |input|, 0
  {
    var name := TakeString(input).value;
    var key := name.item[..|name.item| - 1];
    ParsePayloadSound(wire, key, name.rest, fields, depth);
    var r := ParsePayload(wire, key, name.rest, fields, depth).value;
    assert name.item == key + [0];
    FieldLayout(wire, key, EncodePayload(r.item), r.rest);
  }

  lemma ConsEncoding(n: Vdf, children: seq<Vdf>, end: byte, rest: bytes)
    ensures EncodeObject([n] + children, end) + rest == EncodeField(n) + (EncodeObject(children, end) + rest)
  {
    assert ([n] + children)[1..] == children;
  }

  lemma ConsFields(n: Vdf, children: seq<Vdf>, depth: nat)
    ensures CountFields([n] + children) == CountField(n) + CountFields(children)
    ensures WellFormedFields([n] + children) <==> WellFormedField(n) && WellFormedFields(children)
    ensures depth <= MAX_DEPTH ==>
      (Shallow([n] + children, depth) <==> (n.wire == 0 ==> Shallow(n.children, depth + 1)) && Shallow(children, depth))
  {
    assert ([n] + children)[1..] == children;
  }

  lemma {:induction false} ParseFieldsSound(input: bytes, fields: nat, depth: nat)
    requires fields <= MAX_FIELDS && depth <= MAX_DEPTH
    requires ParseFields(input, fields, depth).Ok?
    ensures FieldsRead(input, fields, depth, ParseFields(input, fields, depth).value)
    decreases |input|, 1
  {
    if input[0] == 8 || input[0] == 11 {
    } else {
      ParseFieldSound(input[0], input[1..], fields + 1, depth);
      var field := ParseField(input[0], input[1..], fields + 1, depth).value;
      ParseFieldsSound(field.rest, field.fields, depth);
      var more := ParseFields(field.rest, field.fields, depth).value;
      assert input == [input[0]] + input[1..];
      ConsEncoding(field.item, more.item.children, more.item.end, more.rest);
      ConsFields(field.item, more.item.children, depth);
    }
  }

  /** Puts fields already read in front of whatever reading the rest gives. */
  function Prepend(children: seq<Vdf>, r: Result<Parsed<Object>, Error>): Result<Parsed<Object>, Error> {
    var p :- r;
    Ok(p.(item := Object(children + p.item.children, p.item.end)))
  }

  // ---- Reading an encoding yields the tree it came from ----

  lemma {:induction false} TakeWideComplete(value: bytes, rest: bytes)
    requires IsWide(value)
    ensures TakeWide(value + rest) == Ok(Parsed(value, rest, 0))
  {
    var input := value + rest;
    assert input[..2] == value[..2];
    assert input[2..] == value[2..] + rest;
    if value[..2] == [0, 0] {
      assert value[2..] == [];
    } else {
      TakeWideComplete(value[2..], rest);
      assert value == value[..2] + value[2..];
    }
  }

  lemma {:induction false} TakeStringComplete(value: bytes, rest: bytes)
    requires IsString(value)
    ensures TakeString(value + rest) == Ok(Parsed(value, rest, 0))
  {
    var text := value[..|value| - 1];
    assert value + rest == text + [0] + rest;
    IndexOfPrefix(text, 0, rest);
  }

  lemma {:induction false} TakeScalarComplete(wire: byte, value: bytes, rest: bytes)
    requires IsScalar(wire, value)
    ensures TakeScalar(wire, value + rest) == Ok(Parsed(value, rest, 0))
  {
    if wire == 1 {
      TakeStringComplete(value, rest);
    } else if wire == 5 {
      TakeWideComplete(value, rest);
    }
  }

  /** The outcome of reading a well-formed item that counts `fields` with everything before it. */
  function Counted<T>(item: T, rest: bytes, fields: nat): Result<Parsed<T>, Error> {
    if fields <= MAX_FIELDS then Ok(Parsed(item, rest, fields)) else Err(TooManyFields)
  }

  lemma {:induction false} ParsePayloadComplete(n: Vdf, rest: bytes, fields: nat, depth: nat)
    requires WellFormedField(n) && (n.wire == 0 ==> Shallow(n.children, depth + 1))
    requires 1 <= fields <= MAX_FIELDS
    ensures ParsePayload(n.wire, n.key, EncodePayload(n) + rest, fields, depth)
         == Counted(n, rest, fields - 1 + CountField(n))
    decreases n, 0
  {
    if n.wire == 0 {
      ParseFieldsComplete(n.children, n.end, rest, fields, depth + 1);
    } else {
      TakeScalarComplete(n.wire, n.value, rest);
    }
  }

  lemma {:induction false} ParseFieldComplete(n: Vdf, rest: bytes, fields: nat, depth: nat)
    requires WellFormedField(n) && (n.wire == 0 ==> Shallow(n.children, depth + 1))
    requires 1 <= fields <= MAX_FIELDS
    ensures var input := EncodeField(n) + rest;
      && input[0] == n.wire
      && ParseField(n.wire, input[1..], fields, depth) == Counted(n, rest, fields - 1 + CountField(n))
    decreases n, 1
  {
    var name, after := n.key + [0], EncodePayload(n) + rest;
    FieldLayout(n.wire, n.key, EncodePayload(n), rest);
    assert ([n.wire] + (name + after))[1..] == name + after;
    TakeStringComplete(name, after);
    assert name[..|name| - 1] == n.key;
    ParsePayloadComplete(n, rest, fields, depth);
  }

  lemma ParseFieldsStep(input: bytes, fields: nat, depth: nat)
    requires input != [] && input[0] != 8 && input[0] != 11 && fields + 1 <= MAX_FIELDS
    ensures ParseFields(input, fields, depth) ==
            match ParseField(input[0], input[1..], fields + 1, depth)
            case Ok(f) => Prepend([f.item], ParseFields(f.rest, f.fields, depth))
            case Err(e) => Err(e)
  {
  }

  lemma {:induction false} ParseConsComplete(n: Vdf, after: bytes, fields: nat, depth: nat)
    requires WellFormedField(n) && (n.wire == 0 ==> Shallow(n.children, depth + 1))
    requires fields <= MAX_FIELDS
    ensures ParseFields(EncodeField(n) + after, fields, depth) ==
            if fields + CountField(n) <= MAX_FIELDS
            then Prepend([n], ParseFields(after, fields + CountField(n), depth))
            else Err(TooManyFields)
    decreases n, 2
  {
    hide ParseField, TakeString;
    var input := EncodeField(n) + after;
    assert n.wire != 8 && n.wire != 11;
    if fields < MAX_FIELDS {
      assert input[0] == n.wire && ParseField(n.wire, input[1..], fields + 1, depth)
          == Counted(n, after, fields + CountField(n)) by {
        ParseFieldComplete(n, after, fields + 1, depth);
      }
      ParseFieldsStep(input, fields, depth);
    }
  }

  lemma ParseEndComplete(end: byte, rest: bytes, fields: nat, depth: nat)
    requires IsEnd(end)
    ensures ParseFields(EncodeObject([], end) + rest, fields, depth) == Ok(Parsed(Object([], end), rest, fields))
  {
  }

  lemma {:induction false} ParseFieldsComplete(children: seq<Vdf>, end: byte, rest: bytes, fields: nat, depth: nat)
    requires WellFormedFields(children) && IsEnd(end) && Shallow(children, depth) && fields <= MAX_FIELDS
    ensures ParseFields(EncodeObject(children, end) + rest, fields, depth)
         == Counted(Object(children, end), rest, fields + CountFields(children))
    decreases children, 3
  {
    hide ParseFields;
    if children == [] {
      ParseEndComplete(end, rest, fields, depth);
    } else {
      var n, tail := children[0], children[1..];
      assert [n] + tail == children;
      if fields + CountField(n) <= MAX_FIELDS {
        ParseFieldsComplete(tail, end, rest, fields + CountField(n), depth);
      }
      ParseConsComplete(n, EncodeObject(tail, end) + rest, fields, depth);
      ConsEncoding(n, tail, end, rest);
    }
  }

  lemma {:induction false} WellFormedIsEncodable(children: seq<Vdf>, depth: nat)
    requires WellFormedFields(children) && Shallow(children, depth)
    ensures Encodable(children, depth)
    decreases children
  {
    forall n <- children | n.wire == 0
      ensures Encodable(n.children, depth + 1)
    {
      assert WellFormedField(n);
      WellFormedIsEncodable(n.children, depth + 1);
    }
  }

  // ---- The codec is a bijection between accepted files and well-formed trees ----

  /** Appending yields the encoding, exactly when keys, depth and the running size allow it. */
  lemma {:induction false} AppendFieldsIsEncode(children: seq<Vdf>, end: byte, out: bytes, depth: nat)
    requires depth <= MAX_DEPTH
    ensures var r := AppendFields(children, end, out, depth);
      && (r.Ok? <==> Encodable(children, depth) &&
                     (children == [] || |out| + |EncodeObject(children, end)| - 1 <= SIZE_LIMIT))
      && (r.Ok? ==> r.value == out + EncodeObject(children, end))
    decreases children, 0
  {
    hide EncodeField, AppendField;
    if children == [] {
    } else {
      var n, more := children[0], children[1..];
      AppendFieldIsEncode(n, out, depth);
      assert children == [n] + more;
      EncodableParts(n, more, depth);
      if AppendField(n, out, depth).Ok? {
        AppendFieldsIsEncode(more, end, out + EncodeField(n), depth);
      }
    }
  }

  lemma EncodableParts(n: Vdf, more: seq<Vdf>, depth: nat)
    ensures Encodable([n] + more, depth) <==>
            Encodable(more, depth) && NulFree(n.key) && (n.wire == 0 ==> Encodable(n.children, depth + 1))
  {
  }

  lemma {:induction false} AppendFieldIsEncode(n: Vdf, out: bytes, depth: nat)
    ensures var r := AppendField(n, out, depth);
      && (r.Ok? <==> NulFree(n.key) && (n.wire == 0 ==> Encodable(n.children, depth + 1)) &&
                     |out| + |EncodeField(n)| <= SIZE_LIMIT)
      && (r.Ok? ==> r.value == out + EncodeField(n))
    decreases n, 1
  {
    var head := out + [n.wire] + n.key + [0];
    FieldLayout(n.wire, n.key, EncodePayload(n), []);
    assert head + EncodePayload(n) == out + EncodeField(n);
    if n.wire == 0 && depth + 1 <= MAX_DEPTH {
      AppendFieldsIsEncode(n.children, n.end, head, depth + 1);
    }
  }

  /** So writing is encoding, for the trees it accepts. */
  lemma WriteIsEncode(d: Vdf)
    ensures var out := EncodeObject(d.children, d.end);
            WriteVdf(d).Ok? <==> Encodable(d.children, 0) && ReadVdf(out).Ok?
    ensures WriteVdf(d).Ok? ==> WriteVdf(d).value == EncodeObject(d.children, d.end)
  {
    hide AppendFields, EncodeObject, Encodable, ParseObject;
    AppendFieldsIsEncode(d.children, d.end, [], 0);
    assert [] + EncodeObject(d.children, d.end) == EncodeObject(d.children, d.end);
  }

  /** Every accepted file is written back byte for byte; every tree read is well formed and within the limits. */
  lemma {:induction false} ReadThenWrite(input: bytes)
    requires ReadVdf(input).Ok?
    ensures WriteVdf(ReadVdf(input).value) == Ok(input)
    ensures WellFormed(ReadVdf(input).value) && WithinLimits(ReadVdf(input).value)
  {
    var d := ReadVdf(input).value;
    ParseFieldsSound(input, 0, 0);
    assert EncodeObject(d.children, d.end) + [] == EncodeObject(d.children, d.end);
    WellFormedIsEncodable(d.children, 0);
    WriteIsEncode(d);
  }

  /** A well-formed tree is written exactly when it is within the limits, and then reads back as itself. */
  lemma {:induction false} WellFormedIsWritten(d: Vdf)
    requires WellFormed(d)
    ensures WriteVdf(d).Ok? <==> WithinLimits(d)
    ensures WriteVdf(d).Ok? ==> ReadVdf(WriteVdf(d).value) == Ok(d)
  {
    hide WriteVdf, EncodeObject, Encodable, Shallow;
    WriteIsEncode(d);
    if Shallow(d.children, 0) {
      WellFormedIsEncodable(d.children, 0);
      ShallowIsRead(d);
    } else if Encodable(d.children, 0) {
      EncodableIsShallow(d.children, 0);
    }
  }

  lemma ShallowIsRead(d: Vdf)
    requires WellFormed(d) && Shallow(d.children, 0)
    ensures ReadVdf(EncodeObject(d.children, d.end)).Ok? <==> WithinLimits(d)
    ensures WithinLimits(d) ==> ReadVdf(EncodeObject(d.children, d.end)) == Ok(d)
  {
    hide EncodeObject, Shallow, ParseFields;
    var out := EncodeObject(d.children, d.end);
    assert out + [] == out;
    ParseFieldsComplete(d.children, d.end, [], 0, 0);
  }

  lemma {:induction false} EncodableIsShallow(children: seq<Vdf>, depth: nat)
    requires Encodable(children, depth)
    ensures Shallow(children, depth)
    decreases children
  {
    forall n <- children | n.wire == 0
      ensures Shallow(n.children, depth + 1)
    {
      EncodableIsShallow(n.children, depth + 1);
    }
  }

  /**
    A tree survives being written and read exactly when it is well formed and within the limits. Otherwise the
    program either refuses to write it or writes bytes that stand for another tree.
   */
  lemma {:induction false} WriteThenRead(d: Vdf)
    ensures (WriteVdf(d).Ok? && ReadVdf(WriteVdf(d).value) == Ok(d)) <==> (WellFormed(d) && WithinLimits(d))
  {
    if WellFormed(d) {
      WellFormedIsWritten(d);
    } else if WriteVdf(d).Ok? && ReadVdf(WriteVdf(d).value) == Ok(d) {
      ReadThenWrite(WriteVdf(d).value);
    }
  }

  // ---- The program's reader and writer ----

  lemma PrependStep(children: seq<Vdf>, input: bytes, fields: nat, depth: nat)
    requires input != [] && input[0] != 8 && input[0] != 11 && fields + 1 <= MAX_FIELDS
    ensures Prepend(children, ParseFields(input, fields, depth)) ==
            match ParseField(input[0], input[1..], fields + 1, depth)
            case Ok(f) => Prepend(children + [f.item], ParseFields(f.rest, f.fields, depth))
            case Err(e) => Err(e)
  {
    hide ParseField, ParseFields;
    ParseFieldsStep(input, fields, depth);
    match ParseField(input[0], input[1..], fields + 1, depth)
    case Err(_) =>
    case Ok(f) =>
      match ParseFields(f.rest, f.fields, depth)
      case Err(_) =>
      case Ok(more) =>
        assert children + ([f.item] + more.item.children) == (children + [f.item]) + more.item.children;
  }

  function PrependBytes(value: bytes, r: Result<Parsed<bytes>, Error>): Result<Parsed<bytes>, Error> {
    var p :- r;
    Ok(p.(item := value + p.item))
  }

  lemma PrependWideStep(value: bytes, input: bytes)
    requires |input| >= 2
    ensures PrependBytes(value, TakeWide(input)) ==
            if input[..2] == [0, 0] then Ok(Parsed(value + input[..2], input[2..], 0))
            else PrependBytes(value + input[..2], TakeWide(input[2..]))
  {
    var more := TakeWide(input[2..]);
    if input[..2] != [0, 0] && more.Ok? {
      assert value + (input[..2] + more.value.item) == (value + input[..2]) + more.value.item;
    }
  }

  class Reader {
    const input: bytes
    var pos: nat
    var fields: nat

    ghost predicate Valid()
      reads this
    {
      pos <= |input|
    }

    ghost function Rest(): bytes
      requires Valid()
      reads this
    {
      input[pos..]
    }

    constructor (input: bytes)
      ensures Valid() && this.input == input && Rest() == input && fields == 0
    {
      this.input := input;
      pos := 0;
      fields := 0;
    }

    method TakeBytes(n: nat) returns (r: Result<bytes, Error>)
      requires Valid()
      modifies this`pos
      ensures Valid()
      ensures match Take(old(Rest()), n)
              case Ok(p) => r == Ok(p.item) && Rest() == p.rest
              case Err(e) => r == Err(e)
    {
      if n > |input| - pos {
        return Err(Truncated);
      }
      r := Ok(input[pos..pos + n]);
      assert input[pos..][..n] == input[pos..pos + n] && input[pos..][n..] == input[pos + n..];
      pos := pos + n;
    }

    method ReadString() returns (r: Result<bytes, Error>)
      requires Valid()
      modifies this`pos
      ensures Valid()
      ensures match TakeString(old(Rest()))
              case Ok(p) => r == Ok(p.item) && Rest() == p.rest
              case Err(e) => r == Err(e)
    {
      var end := pos + IndexOf(input[pos..], 0);
      if end == |input| {
        return Err(Unterminated);
      }
      r := TakeBytes(end - pos + 1);
    }

    method ReadWide() returns (r: Result<bytes, Error>)
      requires Valid()
      modifies this`pos
      ensures Valid()
      ensures match TakeWide(old(Rest()))
              case Ok(p) => r == Ok(p.item) && Rest() == p.rest
              case Err(e) => r == Err(e)
    {
      var value: bytes := [];
      ghost var whole := TakeWide(Rest());
      assert whole.Ok? ==> [] + whole.value.item == whole.value.item;
      while true
        invariant Valid()
        invariant whole == PrependBytes(value, TakeWide(Rest()))
        decreases |input| - pos
      {
        ghost var here := Rest();
        var unit :- TakeBytes(2);
        PrependWideStep(value, here);
        value := value + unit;
        assert value[|value| - 2..] == unit;
        if value[|value| - 2..] == [0, 0] {
          return Ok(value);
        }
      }
    }

    method ReadScalar(wire: byte) returns (r: Result<bytes, Error>)
      requires Valid()
      modifies this`pos
      ensures Valid()
      ensures match TakeScalar(wire, old(Rest()))
              case Ok(p) => r == Ok(p.item) && Rest() == p.rest
              case Err(e) => r == Err(e)
    {
      hide TakeString, TakeWide, Take;
      if wire == 1 {
        r := ReadString();
      } else if wire == 5 {
        r := ReadWide();
      } else if wire == 2 || wire == 3 || wire == 4 || wire == 6 {
        r := TakeBytes(4);
      } else if wire == 7 || wire == 10 {
        r := TakeBytes(8);
      } else if wire == 9 {
        r := TakeBytes(1);
      } else {
        r := Err(Unsupported);
      }
    }

    method ReadField(wire: byte, depth: nat) returns (r: Result<Vdf, Error>)
      requires Valid()
      modifies this
      ensures Valid()
      ensures match ParseField(wire, old(Rest()), old(fields), depth)
              case Ok(p) => r == Ok(p.item) && Rest() == p.rest && fields == p.fields
              case Err(e) => r == Err(e)
      decreases |input| - pos, 0
    {
      hide TakeScalar;
      var name :- ReadString();
      var node := Vdf(wire, name[..|name| - 1], [], [], 8);
      if wire == 0 {
        var body :- ReadObject(depth + 1);
        node := node.(children := body.children, end := body.end);
      } else {
        var value :- ReadScalar(wire);
        node := node.(value := value);
      }
      return Ok(node);
    }

    method ReadObject(depth: nat) returns (r: Result<Object, Error>)
      requires Valid()
      modifies this
      ensures Valid()
      ensures match ParseObject(old(Rest()), old(fields), depth)
              case Ok(p) => r == Ok(p.item) && Rest() == p.rest && fields == p.fields
              case Err(e) => r == Err(e)
      decreases |input| - pos, 1
    {
      hide ParseField;
      if depth > MAX_DEPTH {
        return Err(TooDeep);
      }
      var children: seq<Vdf> := [];
      ghost var whole := ParseFields(Rest(), fields, depth);
      assert whole.Ok? ==> [] + whole.value.item.children == whole.value.item.children;
      while true
        invariant Valid() && |input| - pos <= old(|input| - pos)
        invariant whole == Prepend(children, ParseFields(Rest(), fields, depth))
        decreases |input| - pos
      {
        ghost var here := Rest();
        var wire :- TakeBytes(1);
        if wire[0] == 8 || wire[0] == 11 {
          assert children + [] == children;
          return Ok(Object(children, wire[0]));
        }
        fields := fields + 1;
        if fields > MAX_FIELDS {
          return Err(TooManyFields);
        }
        PrependStep(children, here, fields - 1, depth);
        var node :- ReadField(wire[0], depth);
        children := children + [node];
      }
    }
  }

  method Read(input: bytes) returns (r: Result<Vdf, Error>)
    ensures r == ReadVdf(input)
  {
    if |input| > SIZE_LIMIT {
      return Err(TooLarge);
    }
    var reader := new Reader(input);
    var body :- reader.ReadObject(0);
    if reader.pos != |input| {
      return Err(Trailing);
    }
    return Ok(Vdf(0, [], [], body.children, body.end));
  }

  lemma AppendFailsOrGoesOn(n: Vdf, more: seq<Vdf>, end: byte, out: bytes, depth: nat)
    ensures AppendFields([n] + more, end, out, depth) ==
            if AppendField(n, out, depth).Ok? then AppendFields(more, end, AppendField(n, out, depth).value, depth)
            else AppendField(n, out, depth)
  {
    hide AppendField;
    assert ([n] + more)[1..] == more;
  }

  /** Appends an object to `out`, or reports the first error in the program's order. */
  method Encode(children: seq<Vdf>, end: byte, out: bytes, depth: nat) returns (r: Result<bytes, Error>)
    ensures r == AppendObject(children, end, out, depth)
    ensures r.Ok? <==> Encodable(children, depth) &&
                       (children == [] || |out| + |EncodeObject(children, end)| - 1 <= SIZE_LIMIT)
    ensures r.Ok? ==> r.value == out + EncodeObject(children, end)
    decreases children, 1
  {
    if depth > MAX_DEPTH {
      return Err(TooDeep);
    }
    AppendFieldsIsEncode(children, end, out, depth);
    hide AppendFields, AppendField, EncodeObject, Encodable;
    var text := out;
    for i := 0 to |children|
      invariant AppendFields(children, end, out, depth) == AppendFields(children[i..], end, text, depth)
    {
      var n := children[i];
      assert children[i..] == [n] + children[i + 1..];
      AppendFailsOrGoesOn(n, children[i + 1..], end, text, depth);
      text :- EncodeNode(n, text, depth);
    }
    assert children[|children|..] == [];
    NothingToAppend(end, text, depth);
    return Ok(text + [end]);
  }

  lemma NothingToAppend(end: byte, out: bytes, depth: nat)
    ensures AppendFields([], end, out, depth) == Ok(out + [end])
  {
  }

  method EncodeNode(n: Vdf, out: bytes, depth: nat) returns (r: Result<bytes, Error>)
    ensures r == AppendField(n, out, depth)
    decreases n, 0
  {
    hide Encodable, EncodeObject;
    if !NulFree(n.key) {
      return Err(InvalidKey);
    }
    var text := out + [n.wire] + n.key + [0];
    if n.wire == 0 {
      text :- Encode(n.children, n.end, text, depth + 1);
    } else {
      text := text + n.value;
    }
    if |text| > SIZE_LIMIT {
      return Err(TooLarge);
    }
    return Ok(text);
  }

  method Write(d: Vdf) returns (r: Result<bytes, Error>)
    ensures r == WriteVdf(d)
  {
    hide AppendObject, ReadVdf, Encodable, EncodeObject;
    var out :- Encode(d.children, d.end, [], 0);
    var _ :- Read(out);
    return Ok(out);
  }
}
