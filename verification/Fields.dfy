/**
  Looking up and setting fields of an object (src/common/steam_library.cpp, `field` to `number`).
 */
module Fields {
  import opened Bytes
  import opened VdfCodec

  datatype SyncError = Codec(error: VdfCodec.Error) | DuplicateField | NotAnObject | ChangedDuringSync

  type Fallible<+T> = Result<T, SyncError>

  type uint32 = n: int | 0 <= n < 0x1_0000_0000

  /** Where the one field with this key is; a second one is an error. */
  function Position(cs: seq<Vdf>, key: bytes): (r: Fallible<Option<nat>>)
    ensures r == Ok(None) <==> forall i | 0 <= i < |cs| :: cs[i].key != key
    ensures r.Ok? && r.value.Some? ==>
      var p := r.value.value;
      p < |cs| && cs[p].key == key && forall i | 0 <= i < |cs| && i != p :: cs[i].key != key
    ensures r.Err? <==> exists i, j | 0 <= i < j < |cs| :: cs[i].key == key && cs[j].key == key
    ensures r.Err? ==> r.error == DuplicateField
  {
    if cs == [] then Ok(None) else
      var last := |cs| - 1;
      var p :- Position(cs[..last], key);
      if cs[last].key != key then Ok(p)
      else if p.Some? then assert cs[p.value].key == cs[last].key; Err(DuplicateField)
      else Ok(Some(last))
  }

  /** The text of a string field, without its terminator; empty when there is none. */
  function Text(cs: seq<Vdf>, key: bytes): Fallible<bytes> {
    var p :- Position(cs, key);
    match p
    case None => Ok([])
    case Some(i) =>
      Ok(if cs[i].wire == 1 && cs[i].value != [] then cs[i].value[..|cs[i].value| - 1] else [])
  }

  /** The octet of weight 256^i. */
  function OctetAt(n: int, weight: int): byte
    requires weight > 0
  {
    n / weight % 256
  }

  function Integer(n: uint32): bytes {
    [OctetAt(n, 1), OctetAt(n, 0x100), OctetAt(n, 0x1_0000), OctetAt(n, 0x100_0000)]
  }

  /** The number in an integer field; zero when there is none. */
  function NumberOf(n: Vdf): uint32 {
    if n.wire != 2 || |n.value| != 4 then 0
    else
      n.value[0] as int + 0x100 * n.value[1] as int + 0x1_0000 * n.value[2] as int + 0x100_0000 * n.value[3] as int
  }

  function Number(cs: seq<Vdf>, key: bytes): Fallible<uint32> {
    var p :- Position(cs, key);
    match p
    case None => Ok(0)
    case Some(i) => Ok(NumberOf(cs[i]))
  }

  lemma IntegerRoundTrip(n: uint32, key: bytes)
    ensures NumberOf(Vdf(2, key, Integer(n), [], 8)) == n
  {
    Digits(n);
    assert n / 1 == n;
  }

  function Scalar(key: bytes, value: bytes, wire: byte): Vdf {
    Vdf(wire, key, if wire == 1 then value + [0] else value, [], 8)
  }

  /** Replaces the field with the node's key, or adds the node at the end. */
  function PutNode(cs: seq<Vdf>, n: Vdf): Fallible<seq<Vdf>> {
    var p :- Position(cs, n.key);
    match p
    case None => Ok(cs + [n])
    case Some(i) => Ok(cs[i := n])
  }

  function PutAll(cs: seq<Vdf>, nodes: seq<Vdf>): Fallible<seq<Vdf>> {
    if nodes == [] then Ok(cs) else
      var before :- PutAll(cs, nodes[..|nodes| - 1]);
      PutNode(before, nodes[|nodes| - 1])
  }

  // ---- What putting a list of fields with distinct keys achieves ----

  /** The object has exactly one field with the node's key, and it is the node. */
  ghost predicate Holds(cs: seq<Vdf>, n: Vdf) {
    var p := Position(cs, n.key);
    p.Ok? && p.value.Some? && cs[p.value.value] == n
  }

  ghost predicate HoldsAll(cs: seq<Vdf>, nodes: seq<Vdf>) {
    forall n <- nodes :: Holds(cs, n)
  }

  ghost predicate DistinctKeys(nodes: seq<Vdf>) {
    forall i, j | 0 <= i < j < |nodes| :: nodes[i].key != nodes[j].key
  }

  lemma UniquePosition(cs: seq<Vdf>, key: bytes, p: nat)
    requires p < |cs| && cs[p].key == key
    requires forall i | 0 <= i < |cs| && i != p :: cs[i].key != key
    ensures Position(cs, key) == Ok(Some(p))
  {
    var r := Position(cs, key);
    assert r != Ok(None);
  }

  lemma PutNodeEffect(cs: seq<Vdf>, n: Vdf)
    requires PutNode(cs, n).Ok?
    ensures Holds(PutNode(cs, n).value, n)
    ensures forall key | key != n.key :: Unaffected(cs, PutNode(cs, n).value, key)
    ensures Holds(cs, n) ==> PutNode(cs, n).value == cs
    ensures |cs| <= |PutNode(cs, n).value|
  {
    var after := PutNode(cs, n).value;
    var found := Position(cs, n.key).value;
    UniquePosition(after, n.key, if found.Some? then found.value else |cs|);
    forall key | key != n.key
      ensures Unaffected(cs, after, key)
    {
      SamePosition(cs, after, n, key);
    }
  }

  /** The same lookup result, at the same place. */
  ghost predicate Unaffected(cs: seq<Vdf>, after: seq<Vdf>, key: bytes) {
    Position(after, key) == Position(cs, key) &&
    (Position(cs, key).Ok? && Position(cs, key).value.Some? ==>
      var p := Position(cs, key).value.value; p < |after| && after[p] == cs[p])
  }

  ghost function Indices(cs: seq<Vdf>, key: bytes): set<nat> {
    set i: nat | i < |cs| && cs[i].key == key
  }

  /** A lookup depends only on where the key occurs. */
  lemma PositionByIndices(cs: seq<Vdf>, after: seq<Vdf>, key: bytes)
    requires Indices(cs, key) == Indices(after, key)
    ensures Position(cs, key) == Position(after, key)
  {
    assert forall i: nat :: (i in Indices(cs, key) <==> i < |cs| && cs[i].key == key)
                         && (i in Indices(after, key) <==> i < |after| && after[i].key == key);
    var r, s := Position(cs, key), Position(after, key);
    if r.Ok? && r.value.Some? {
      assert r.value.value in Indices(cs, key);
    }
  }

  lemma SamePosition(cs: seq<Vdf>, after: seq<Vdf>, n: Vdf, key: bytes)
    requires PutNode(cs, n) == Ok(after) && key != n.key
    ensures Unaffected(cs, after, key)
  {
    hide Indices;
    SameIndices(cs, after, n, key);
    PositionByIndices(cs, after, key);
  }

  lemma SameIndices(cs: seq<Vdf>, after: seq<Vdf>, n: Vdf, key: bytes)
    requires PutNode(cs, n) == Ok(after) && key != n.key
    ensures Indices(cs, key) == Indices(after, key)
  {
  }

  lemma {:induction false} PutAllEffect(cs: seq<Vdf>, nodes: seq<Vdf>)
    requires PutAll(cs, nodes).Ok? && DistinctKeys(nodes)
    ensures HoldsAll(PutAll(cs, nodes).value, nodes)
    ensures forall key | (forall n <- nodes :: n.key != key) :: Unaffected(cs, PutAll(cs, nodes).value, key)
  {
    if nodes == [] {
    } else {
      var most, last := nodes[..|nodes| - 1], nodes[|nodes| - 1];
      assert nodes == most + [last];
      PutAllEffect(cs, most);
      var before, after := PutAll(cs, most).value, PutAll(cs, nodes).value;
      PutNodeEffect(before, last);
      forall n <- nodes
        ensures Holds(after, n)
      {
        if n in most {
          assert Unaffected(before, after, n.key);
        }
      }
      forall key | forall n <- nodes :: n.key != key
        ensures Unaffected(cs, after, key)
      {
        assert Unaffected(cs, before, key) && Unaffected(before, after, key);
      }
    }
  }

  /** Putting fields that are already there changes nothing. */
  lemma {:induction false} PutAllAgain(cs: seq<Vdf>, nodes: seq<Vdf>)
    requires HoldsAll(cs, nodes)
    ensures PutAll(cs, nodes) == Ok(cs)
  {
    if nodes == [] {
    } else {
      var most, last := nodes[..|nodes| - 1], nodes[|nodes| - 1];
      assert nodes == most + [last];
      assert last in nodes;
      PutAllAgain(cs, most);
      PutNodeEffect(cs, last);
    }
  }

  lemma {:induction false} PutAllKeepsWellFormed(cs: seq<Vdf>, nodes: seq<Vdf>)
    requires PutAll(cs, nodes).Ok? && WellFormedFields(cs) && WellFormedFields(nodes)
    ensures WellFormedFields(PutAll(cs, nodes).value)
  {
    if nodes == [] {
    } else {
      assert nodes == nodes[..|nodes| - 1] + [nodes[|nodes| - 1]];
      PutAllKeepsWellFormed(cs, nodes[..|nodes| - 1]);
    }
  }

  // ---- The program's loops ----

  method FindField(cs: seq<Vdf>, key: bytes) returns (r: Fallible<Option<nat>>)
    ensures r == Position(cs, key)
  {
    var result: Option<nat> := None;
    for i := 0 to |cs|
      invariant Position(cs[..i], key) == Ok(result)
    {
      assert cs[..i + 1][..i] == cs[..i];
      if cs[i].key == key {
        if result.Some? {
          var p := result.value;
          assert cs[p].key == key;
          return Err(DuplicateField);
        }
        result := Some(i);
      }
    }
    assert cs[..|cs|] == cs;
    return Ok(result);
  }

  method Put(cs: seq<Vdf>, key: bytes, value: bytes, wire: byte) returns (r: Fallible<seq<Vdf>>)
    ensures r == PutNode(cs, Scalar(key, value, wire))
  {
    var text := if wire == 1 then value + [0] else value;
    var n := Vdf(wire, key, text, [], 8);
    var found :- FindField(cs, key);
    if found.Some? {
      return Ok(cs[found.value := n]);
    }
    return Ok(cs + [n]);
  }
}
