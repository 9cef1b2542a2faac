/** The certificate database "certdb" / "certdbv": one length-prefixed buffer of variable-size nodes,
    each binding a variable (vendor GUID and name) to the certificate data of its signer. */
module CertDb {
  import opened Bytes
  import opened Efi

  const NODE_HEADER_SIZE := 28 // sizeof (AUTH_CERT_DB_DATA)
  const GUID_SIZE := 16

  /** A variable is identified by vendor GUID and name; the name excludes its terminating NUL. */
  datatype Key = Key(guid: seq<byte>, name: seq<uint16>)

  /** What the variable services accept as an identity; names are far shorter than 32 KiB. */
  ghost predicate ValidKey(k: Key) {
    |k.guid| == GUID_SIZE && |k.name| < 0x8000 && 0 !in k.name
  }

  datatype Node = Node(key: Key, cert: seq<byte>) {
    function Size(): nat {
      NODE_HEADER_SIZE + 2 * |key.name| + |cert|
    }

    ghost predicate Valid() {
      ValidKey(key) && |cert| < 0x1000_0000
    }
  }

  ghost predicate AllValid(ns: seq<Node>) {
    forall i :: 0 <= i < |ns| ==> ns[i].Valid()
  }

  // ----- layout

  /** CHAR16 strings in memory: two bytes a character, low byte first. */
  function NameBytes(name: seq<uint16>): (b: seq<byte>)
    ensures |b| == 2 * |name|
  {
    if name == [] then [] else [name[0] % 0x100, name[0] / 0x100] + NameBytes(name[1..])
  }

  function NameOf(b: seq<byte>): (name: seq<uint16>)
    requires |b| % 2 == 0
    ensures NameBytes(name) == b
  {
    if b == [] then [] else
      var c: uint16 := CharOf(b[0], b[1]);
      [c] + NameOf(b[2..])
  }

  function CharOf(low: byte, high: byte): (c: uint16)
    ensures c % 0x100 == low && c / 0x100 == high
  {
    var l: int, h: int := low, high;
    l + 0x100 * h
  }

  function NodeHeader(n: Node): (b: seq<byte>)
    requires n.Valid()
    ensures |b| == NODE_HEADER_SIZE
  {
    n.key.guid + Le32(n.Size()) + Le32(|n.key.name|) + Le32(|n.cert|)
  }

  function NodeBytes(n: Node): (b: seq<byte>)
    requires n.Valid()
    ensures |b| == n.Size()
  {
    NodeHeader(n) + NameBytes(n.key.name) + n.cert
  }

  function Body(ns: seq<Node>): (b: seq<byte>)
    requires AllValid(ns)
  {
    if ns == [] then [] else NodeBytes(ns[0]) + Body(ns[1..])
  }

  /** The whole variable: its own length, then the nodes. */
  function DbBytes(ns: seq<Node>): (b: seq<byte>)
    requires AllValid(ns) && 4 + |Body(ns)| < 0x1_0000_0000
    ensures |b| == 4 + |Body(ns)|
  {
    Le32(4 + |Body(ns)|) + Body(ns)
  }

  function ParseNode(b: seq<byte>): Option<Node>
  {
    if |b| < NODE_HEADER_SIZE then None else
      var size: nat, name: nat, cert: nat := ReadLe32(b, 16), ReadLe32(b, 20), ReadLe32(b, 24);
      if size != NODE_HEADER_SIZE + 2 * name + cert || |b| < size || name >= 0x8000 || cert >= 0x1000_0000 then None else
        var chars := NameOf(b[NODE_HEADER_SIZE..NODE_HEADER_SIZE + 2 * name]);
        if 0 in chars then None else
          Some(Node(Key(b[..16], chars), b[NODE_HEADER_SIZE + 2 * name..size]))
  }

  function ParseBody(b: seq<byte>): Option<seq<Node>>
    decreases |b|
  {
    if b == [] then Some([]) else
      match ParseNode(b)
      case None => None
      case Some(n) =>
        if n.Size() > |b| then None else
          match ParseBody(b[n.Size()..])
          case None => None
          case Some(rest) => Some([n] + rest)
  }

  /** The nodes of a database, or None when the buffer is not a well-formed one. */
  function Parse(b: seq<byte>): Option<seq<Node>>
  {
    if |b| < 4 || ReadLe32(b, 0) != |b| then None else ParseBody(b[4..])
  }

  lemma {:induction false} NameRoundTrip(name: seq<uint16>)
    ensures NameOf(NameBytes(name)) == name
  {
    if name != [] {
      NameRoundTrip(name[1..]);
      var b := NameBytes(name);
      assert b[2..] == NameBytes(name[1..]);
    }
  }

  /** What can be read off a buffer where node n starts. */
  ghost predicate At(data: seq<byte>, off: nat, n: Node) {
    var name := off + NODE_HEADER_SIZE;
    var cert := name + 2 * |n.key.name|;
    && off + n.Size() <= |data|
    && data[off..off + GUID_SIZE] == n.key.guid
    && ReadLe32(data, off + 16) == n.Size()
    && ReadLe32(data, off + 20) == |n.key.name|
    && ReadLe32(data, off + 24) == |n.cert|
    && data[name..cert] == NameBytes(n.key.name)
    && data[cert..off + n.Size()] == n.cert
  }

  lemma HeaderFields(n: Node, rest: seq<byte>)
    requires n.Valid()
    ensures var b := NodeHeader(n) + rest;
      b[..16] == n.key.guid && ReadLe32(b, 16) == n.Size() && ReadLe32(b, 20) == |n.key.name|
      && ReadLe32(b, 24) == |n.cert| && b[NODE_HEADER_SIZE..] == rest
  {
    hide ReadLe32;
    var b := NodeHeader(n) + rest;
    ReadLe32Of(b, 16, n.Size());
    ReadLe32Of(b, 20, |n.key.name|);
    ReadLe32Of(b, 24, |n.cert|);
  }

  lemma AtStart(data: seq<byte>, off: nat, n: Node, rest: seq<byte>)
    requires n.Valid() && off <= |data| && data[off..] == NodeBytes(n) + rest
    ensures At(data, off, n) && data[off + n.Size()..] == rest
  {
    hide ReadLe32, NodeHeader;
    var b, k := data[off..], NameBytes(n.key.name);
    assert b == NodeHeader(n) + (k + n.cert + rest);
    HeaderFields(n, k + n.cert + rest);
    ReadLe32Slice(data, off, 16);
    ReadLe32Slice(data, off, 20);
    ReadLe32Slice(data, off, 24);
    var c, m := NODE_HEADER_SIZE + |k|, n.Size();
    assert b[..16] == data[off..off + 16] && b[NODE_HEADER_SIZE..c] == data[off + NODE_HEADER_SIZE..off + c];
    assert b[c..m] == data[off + c..off + m] && b[m..] == data[off + m..];
  }

  lemma ParseNodeOfBytes(n: Node, rest: seq<byte>)
    requires n.Valid()
    ensures ParseNode(NodeBytes(n) + rest) == Some(n)
  {
    hide ReadLe32, NodeBytes;
    var b := NodeBytes(n) + rest;
    assert b[0..] == b;
    AtStart(b, 0, n, rest);
    NameRoundTrip(n.key.name);
  }

  lemma ParseNodeSound(b: seq<byte>)
    requires ParseNode(b).Some?
    ensures var n := ParseNode(b).value;
      n.Valid() && 0 < n.Size() <= |b| && NodeBytes(n) == b[..n.Size()]
  {
    hide ReadLe32;
    Le32OfRead(b, 16);
    Le32OfRead(b, 20);
    Le32OfRead(b, 24);
    HeaderSlices(b);
  }

  lemma HeaderSlices(b: seq<byte>)
    requires |b| >= NODE_HEADER_SIZE
    ensures b[..NODE_HEADER_SIZE] == b[..16] + b[16..20] + b[20..24] + b[24..28]
  {
  }

  /** A buffer that parses is the serialization of exactly the nodes it parses to. */
  lemma {:induction false} ParseBodySound(b: seq<byte>)
    requires ParseBody(b).Some?
    ensures AllValid(ParseBody(b).value) && Body(ParseBody(b).value) == b
    decreases |b|
  {
    hide ParseNode, NodeBytes;
    if b != [] {
      ParseNodeSound(b);
      var n := ParseNode(b).value;
      var tail := b[n.Size()..];
      ParseBodySound(tail);
      assert ParseBody(b).value[1..] == ParseBody(tail).value;
      assert b == NodeBytes(n) + tail;
    }
  }

  lemma {:induction false} ParseBodyComplete(ns: seq<Node>)
    requires AllValid(ns)
    ensures ParseBody(Body(ns)) == Some(ns)
  {
    hide ParseNode, NodeBytes;
    if ns != [] {
      var b, tail := Body(ns), Body(ns[1..]);
      ParseBodyComplete(ns[1..]);
      ParseNodeOfBytes(ns[0], tail);
      assert b[ns[0].Size()..] == tail && ns == [ns[0]] + ns[1..];
    }
  }

  /** Reading a database back gives the nodes it was built from, and only a database built from
      nodes can be read. */
  lemma ParseExact(b: seq<byte>, ns: seq<Node>)
    ensures Parse(b) == Some(ns) <==> AllValid(ns) && 4 + |Body(ns)| < 0x1_0000_0000 && b == DbBytes(ns)
  {
    hide Parse, DbBytes;
    if Parse(b) == Some(ns) {
      ParseSound(b, ns);
    }
    if AllValid(ns) && 4 + |Body(ns)| < 0x1_0000_0000 && b == DbBytes(ns) {
      ParseComplete(ns);
    }
  }

  lemma ParseSound(b: seq<byte>, ns: seq<Node>)
    requires Parse(b) == Some(ns)
    ensures AllValid(ns) && 4 + |Body(ns)| < 0x1_0000_0000 && b == DbBytes(ns)
  {
    hide ReadLe32, ParseNode, NodeBytes, Node.Valid;
    ParseBodySound(b[4..]);
    Le32OfRead(b, 0);
    assert b == b[..4] + b[4..];
  }

  lemma ParseComplete(ns: seq<Node>)
    requires AllValid(ns) && 4 + |Body(ns)| < 0x1_0000_0000
    ensures Parse(DbBytes(ns)) == Some(ns)
  {
    hide ReadLe32, ParseNode, NodeBytes, Node.Valid;
    var b := DbBytes(ns);
    ParseBodyComplete(ns);
    ReadLe32Of(b, 0, 4 + |Body(ns)|);
    assert b[4..] == Body(ns);
  }

  lemma {:induction false} BodyAppend(a: seq<Node>, b: seq<Node>)
    requires AllValid(a) && AllValid(b)
    ensures Body(a + b) == Body(a) + Body(b)
  {
    hide NodeBytes, Node.Valid;
    if a == [] {
      assert a + b == b;
    } else {
      assert (a + b)[1..] == a[1..] + b;
      BodyAppend(a[1..], b);
    }
  }

  // ----- the database as an ordered map

  /** The position of the first node with this key, or the number of nodes. */
  function IndexOf(ns: seq<Node>, k: Key): (i: nat)
    ensures i <= |ns|
    ensures i < |ns| ==> ns[i].key == k
    ensures forall j :: 0 <= j < i ==> ns[j].key != k
  {
    if ns == [] || ns[0].key == k then 0 else 1 + IndexOf(ns[1..], k)
  }

  predicate HasKey(ns: seq<Node>, k: Key) {
    IndexOf(ns, k) < |ns|
  }

  function Lookup(ns: seq<Node>, k: Key): Option<seq<byte>> {
    if HasKey(ns, k) then Some(ns[IndexOf(ns, k)].cert) else None
  }

  function Remove(ns: seq<Node>, k: Key): seq<Node> {
    var i := IndexOf(ns, k);
    if i < |ns| then ns[..i] + ns[i + 1..] else ns
  }

  ghost predicate Distinct(ns: seq<Node>) {
    forall i, j :: 0 <= i < j < |ns| ==> ns[i].key != ns[j].key
  }

  /** Where node i starts in the database. */
  ghost function OffsetOf(ns: seq<Node>, i: nat): nat
    requires AllValid(ns) && i <= |ns|
  {
    4 + |Body(ns[..i])|
  }

  /** Lookup in an appended database. */
  lemma {:induction false} IndexOfAppend(ns: seq<Node>, n: Node, k: Key)
    ensures IndexOf(ns + [n], k) == if HasKey(ns, k) then IndexOf(ns, k)
                                    else if n.key == k then |ns| else |ns| + 1
  {
    if ns != [] && ns[0].key != k {
      IndexOfAppend(ns[1..], n, k);
      assert (ns + [n])[1..] == ns[1..] + [n];
    }
  }

  /** Lookup where a node was taken out of a database with distinct keys. */
  lemma LookupRemove(ns: seq<Node>, gone: Key, k: Key)
    requires Distinct(ns)
    ensures Distinct(Remove(ns, gone))
    ensures Lookup(Remove(ns, gone), k) == if k == gone then None else Lookup(ns, k)
  {
    var i, r := IndexOf(ns, gone), Remove(ns, gone);
    if i < |ns| {
      assert forall j :: 0 <= j < |r| ==> r[j] == if j < i then ns[j] else ns[j + 1];
      if k != gone && HasKey(ns, k) {
        var j := IndexOf(ns, k);
        assert r[if j < i then j else j - 1].key == k;
        assert r[IndexOf(r, k)].key == k;
      }
    }
  }

  lemma KeysRemove(ns: seq<Node>, gone: Key, k: Key)
    requires Distinct(ns)
    ensures HasKey(Remove(ns, gone), k) <==> k != gone && HasKey(ns, k)
  {
    hide Remove, IndexOf;
    LookupRemove(ns, gone, k);
  }

  // ----- the two updates, on bytes

  /** The database with a node added at the end. */
  function InsertBytes(b: seq<byte>, n: Node): seq<byte>
    requires 4 <= |b| && |b| + n.Size() < 0x1_0000_0000 && n.Valid()
  {
    Le32(|b| + n.Size()) + b[4..] + NodeBytes(n)
  }

  /** The database with the node in b[off..off + size] cut out. */
  function DeleteBytes(b: seq<byte>, off: nat, size: nat): seq<byte>
    requires 4 <= off && off + size <= |b| < 0x1_0000_0000
  {
    Le32(|b| - size) + b[4..off] + b[off + size..]
  }

  lemma ParseAppend(b: seq<byte>, ns: seq<Node>, n: Node)
    requires Parse(b) == Some(ns) && n.Valid() && |b| + n.Size() < 0x1_0000_0000
    ensures Parse(InsertBytes(b, n)) == Some(ns + [n])
  {
    hide ReadLe32, Parse, NodeBytes, Node.Valid;
    ParseExact(b, ns);
    BodyAppend(ns, [n]);
    assert Body([n]) == NodeBytes(n) + Body([n][1..]) == NodeBytes(n);
    assert b[4..] == Body(ns);
    ParseExact(InsertBytes(b, n), ns + [n]);
  }

  /** Node i of a database, and what is around it. */
  lemma Split(b: seq<byte>, ns: seq<Node>, i: nat)
    requires Parse(b) == Some(ns) && i < |ns|
    ensures AllValid(ns) && ns[i].Valid() && OffsetOf(ns, i) + ns[i].Size() <= |b|
    ensures At(b, OffsetOf(ns, i), ns[i])
    ensures b[4..OffsetOf(ns, i)] == Body(ns[..i])
    ensures b[OffsetOf(ns, i) + ns[i].Size()..] == Body(ns[i + 1..])
  {
    hide ReadLe32, Parse, NodeBytes, Node.Valid, At;
    ParseExact(b, ns);
    var off := OffsetOf(ns, i);
    assert ns == ns[..i] + ns[i..] && ns[i..][1..] == ns[i + 1..];
    BodyAppend(ns[..i], ns[i..]);
    assert b[4..] == Body(ns[..i]) + Body(ns[i..]);
    assert b[4..off] == Body(ns[..i]) && b[off..] == Body(ns[i..]) == NodeBytes(ns[i]) + Body(ns[i + 1..]);
    AtStart(b, off, ns[i], Body(ns[i + 1..]));
  }

  lemma ParseRemove(b: seq<byte>, ns: seq<Node>, i: nat)
    requires Parse(b) == Some(ns) && i < |ns|
    ensures AllValid(ns) && OffsetOf(ns, i) + ns[i].Size() <= |b| < 0x1_0000_0000
    ensures Parse(DeleteBytes(b, OffsetOf(ns, i), ns[i].Size())) == Some(ns[..i] + ns[i + 1..])
  {
    hide ReadLe32, Parse, NodeBytes, Node.Valid, At;
    ParseExact(b, ns);
    Split(b, ns, i);
    BodyAppend(ns[..i], ns[i + 1..]);
    ParseExact(DeleteBytes(b, OffsetOf(ns, i), ns[i].Size()), ns[..i] + ns[i + 1..]);
  }

  /** Deleting the node just inserted restores the database byte for byte. */
  lemma DeleteUndoesInsert(b: seq<byte>, ns: seq<Node>, n: Node)
    requires Parse(b) == Some(ns) && n.Valid() && !HasKey(ns, n.key) && |b| + n.Size() < 0x1_0000_0000
    ensures var c := InsertBytes(b, n);
      var i := IndexOf(ns + [n], n.key);
      AllValid(ns + [n]) && i < |ns + [n]| && OffsetOf(ns + [n], i) + (ns + [n])[i].Size() <= |c| &&
      DeleteBytes(c, OffsetOf(ns + [n], i), (ns + [n])[i].Size()) == b
  {
    hide ReadLe32, Parse, NodeBytes, Node.Valid, IndexOf;
    IndexOfAppend(ns, n, n.key);
    ParseExact(b, ns);
    assert (ns + [n])[..|ns|] == ns;
    assert b == Le32(|b|) + b[4..];
  }

  // ----- runs of updates

  datatype Op = Insert(node: Node) | Delete(key: Key)

  /** What an update does to the database bytes. Inserting fails on a key that is there and when
      the result would be larger than the space reserved for it; deleting fails on a missing key. */
  ghost function StepBytes(b: seq<byte>, op: Op, max: nat): seq<byte>
    requires Parse(b).Some? && max < 0x8000_0000
    requires op.Insert? ==> op.node.Valid()
  {
    var ns := Parse(b).value;
    match op
    case Insert(n) =>
      if HasKey(ns, n.key) || |b| + n.Size() > max then b else InsertBytes(b, n)
    case Delete(k) =>
      var i := IndexOf(ns, k);
      if i == |ns| then b else
        ParseRemove(b, ns, i);
        DeleteBytes(b, OffsetOf(ns, i), ns[i].Size())
  }

  /** The same update on an ordered map, given the room that is left. */
  function StepNodes(ns: seq<Node>, op: Op, size: nat, max: nat): seq<Node> {
    match op
    case Insert(n) => if HasKey(ns, n.key) || size + n.Size() > max then ns else ns + [n]
    case Delete(k) => Remove(ns, k)
  }

  lemma StepRefines(b: seq<byte>, op: Op, max: nat)
    requires Parse(b).Some? && max < 0x8000_0000 && |b| <= max && Distinct(Parse(b).value)
    requires op.Insert? ==> op.node.Valid()
    ensures Parse(StepBytes(b, op, max)) == Some(StepNodes(Parse(b).value, op, |b|, max))
    ensures |StepBytes(b, op, max)| <= max && Distinct(StepNodes(Parse(b).value, op, |b|, max))
  {
    hide ReadLe32, Parse, NodeBytes, Node.Valid;
    var ns := Parse(b).value;
    match op
    case Insert(n) =>
      if !HasKey(ns, n.key) && |b| + n.Size() <= max {
        ParseExact(b, ns);
        ParseAppend(b, ns, n);
      }
    case Delete(k) =>
      if HasKey(ns, k) {
        ParseExact(b, ns);
        ParseRemove(b, ns, IndexOf(ns, k));
        LookupRemove(ns, k, k);
      }
  }

  function Empty(): seq<byte> {
    Le32(4)
  }

  ghost predicate ValidOps(ops: seq<Op>) {
    forall i :: 0 <= i < |ops| ==> ops[i].Insert? ==> ops[i].node.Valid()
  }

  /** The certificate a run of updates leaves under key k, read off the updates alone: the last
      one about k decides, unless it was an insertion that found k taken or the space used up. */
  function Expected(ops: seq<Op>, sizes: seq<nat>, max: nat, k: Key): Option<seq<byte>>
    requires |sizes| == |ops|
  {
    if ops == [] then None else
      var m := |ops| - 1;
      var before := Expected(ops[..m], sizes[..m], max, k);
      match ops[m]
      case Insert(n) =>
        if n.key == k && before.None? && sizes[m] + n.Size() <= max then Some(n.cert) else before
      case Delete(d) => if d == k then None else before
  }

  /** The databases a run of updates goes through, from the empty one. */
  ghost predicate IsRun(dbs: seq<seq<byte>>, ops: seq<Op>, max: nat) {
    && |dbs| == |ops| + 1 && ValidOps(ops) && max < 0x8000_0000
    && dbs[0] == Empty()
    && forall i :: 0 <= i < |ops| ==> Parse(dbs[i]).Some? && dbs[i + 1] == StepBytes(dbs[i], ops[i], max)
  }

  lemma LookupEmpty(k: Key)
    ensures Lookup([], k) == None
  {
  }

  /** Over every run of insertions and deletions the bytes stay a well-formed database with distinct
      keys, its leading word is its length, it never outgrows its space, and it answers every
      lookup as the list of updates says. */
  lemma {:induction false} RunRefines(dbs: seq<seq<byte>>, ops: seq<Op>, max: nat, k: Key)
    requires IsRun(dbs, ops, max) && 4 <= max
    ensures var b := dbs[|ops|];
      && Parse(b).Some? && Distinct(Parse(b).value)
      && 4 <= |b| <= max && ReadLe32(b, 0) == |b|
      && Lookup(Parse(b).value, k) == Expected(ops, seq(|ops|, i requires 0 <= i < |ops| => |dbs[i]|), max, k)
  {
    hide ReadLe32, ParseBody, NodeBytes, Node.Valid, HasKey, IndexOf;
    var sizes := seq(|ops|, i requires 0 <= i < |ops| => |dbs[i]|);
    if ops == [] {
      ParseExact(Empty(), []);
      LookupEmpty(k);
    } else {
      var m := |ops| - 1;
      RunRefines(dbs[..m + 1], ops[..m], max, k);
      assert sizes[..m] == seq(m, i requires 0 <= i < m => |dbs[..m + 1][i]|);
      var b := dbs[m];
      assert dbs[..m + 1][m] == b;
      StepRefines(b, ops[m], max);
      StepLookup(Parse(b).value, ops[m], |b|, max, k);
    }
  }

  lemma StepLookup(ns: seq<Node>, op: Op, size: nat, max: nat, k: Key)
    requires Distinct(ns)
    ensures Lookup(StepNodes(ns, op, size, max), k) ==
      match op
      case Insert(n) => if n.key == k && Lookup(ns, k).None? && size + n.Size() <= max then Some(n.cert) else Lookup(ns, k)
      case Delete(d) => if d == k then None else Lookup(ns, k)
  {
    match op
    case Insert(n) => IndexOfAppend(ns, n, k);
    case Delete(d) => LookupRemove(ns, d, k);
  }

  // ----- the code: search and update on raw bytes

  lemma OffsetStep(b: seq<byte>, ns: seq<Node>, i: nat)
    requires Parse(b) == Some(ns) && i <= |ns|
    ensures AllValid(ns) && 4 <= OffsetOf(ns, i) <= |b| && (OffsetOf(ns, i) < |b| <==> i < |ns|)
    ensures i < |ns| ==> OffsetOf(ns, i + 1) == OffsetOf(ns, i) + ns[i].Size()
  {
    hide ReadLe32, Parse, NodeBytes, Node.Valid, At;
    ParseExact(b, ns);
    if i < |ns| {
      Split(b, ns, i);
      SplitAt(ns, i);
      BodyAppend(ns[..i], [ns[i]]);
      assert Body([ns[i]]) == NodeBytes(ns[i]) + Body([ns[i]][1..]);
    } else {
      assert ns[..i] == ns;
    }
  }

  /** The key of the node that starts at off, by the node's own fields. */
  function KeyAt(b: seq<byte>, off: nat): Key
    requires off + NODE_HEADER_SIZE <= |b| && off + NODE_HEADER_SIZE + 2 * ReadLe32(b, off + 20) <= |b|
  {
    var name := off + NODE_HEADER_SIZE;
    Key(b[off..off + GUID_SIZE], NameOf(b[name..name + 2 * ReadLe32(b, off + 20)]))
  }

  /** Reading node i by its own fields: its key, and where the next node starts. */
  lemma ReadNode(b: seq<byte>, ns: seq<Node>, i: nat, off: nat)
    requires Parse(b) == Some(ns) && i < |ns| && AllValid(ns) && off == OffsetOf(ns, i)
    ensures ValidKey(ns[i].key) && off + NODE_HEADER_SIZE <= |b|
    ensures off + NODE_HEADER_SIZE + 2 * ReadLe32(b, off + 20) <= |b| && KeyAt(b, off) == ns[i].key
    ensures OffsetOf(ns, i + 1) == off + ReadLe32(b, off + 16) <= |b| && ReadLe32(b, off + 16) > 0
    ensures OffsetOf(ns, i + 1) < |b| <==> i + 1 < |ns|
  {
    hide ReadLe32, Parse, OffsetOf;
    Split(b, ns, i);
    OffsetStep(b, ns, i);
    OffsetStep(b, ns, i + 1);
    NameRoundTrip(ns[i].key.name);
  }

  /** FindCertsFromDb: where the certificate data of a variable is in a database, and its node. */
  method FindCertsFromDb(key: Key, data: seq<byte>)
    returns (status: Status, certOffset: nat, certDataSize: nat, certNodeOffset: nat, certNodeSize: nat)
    requires ValidKey(key) && |data| < 0x1_0000_0000
    requires |data| >= 4 && ReadLe32(data, 0) == |data| ==> Parse(data).Some?
    ensures |data| < 4 || ReadLe32(data, 0) != |data| ==> status == InvalidParameter
    ensures Parse(data).Some? ==>
      var ns := Parse(data).value;
      var i := IndexOf(ns, key);
      AllValid(ns) && status == (if i < |ns| then Success else NotFound)
    ensures status == Success ==> Parse(data).Some? && AllValid(Parse(data).value) && HasKey(Parse(data).value, key)
    ensures status == Success ==>
      var ns := Parse(data).value;
      var i := IndexOf(ns, key);
      && certNodeOffset == OffsetOf(ns, i) && certNodeSize == ns[i].Size()
      && certOffset + certDataSize == certNodeOffset + certNodeSize <= |data|
      && data[certOffset..certOffset + certDataSize] == ns[i].cert
  {
    hide ReadLe32, ParseBody, IndexOf, NameBytes, NodeBytes, Body, Node.Valid, OffsetOf;
    certOffset, certDataSize, certNodeOffset, certNodeSize := 0, 0, 0, 0;
    if |data| < 4 {
      return InvalidParameter, 0, 0, 0, 0;
    }
    var certDbListSize := ReadLe32(data, 0);
    if certDbListSize != |data| {
      return InvalidParameter, 0, 0, 0, 0;
    }
    ghost var ns := Parse(data).value;
    ghost var i := 0;
    var offset: nat := 4;
    OffsetZero(data, ns);
    while offset < |data|
      invariant AllValid(ns) && i <= |ns| && offset == OffsetOf(ns, i) && 4 <= offset <= |data|
      invariant offset < |data| <==> i < |ns|
      invariant forall j :: 0 <= j < i ==> ns[j].key != key
      decreases |data| - offset
    {
      Split(data, ns, i);
      OffsetStep(data, ns, i);
      OffsetStep(data, ns, i + 1);
      NameEquality(ns[i].key.name, key.name);
      var ptr := offset;
      if data[ptr..ptr + GUID_SIZE] == key.guid {
        var nodeSize, nameSize, certSize := ReadLe32(data, ptr + 16), ReadLe32(data, ptr + 20), ReadLe32(data, ptr + 24);
        if nodeSize != NODE_HEADER_SIZE + certSize + 2 * nameSize {
          status := InvalidParameter;
          return;
        }
        offset := offset + NODE_HEADER_SIZE;
        if nameSize == |key.name| && data[offset..offset + 2 * nameSize] == NameBytes(key.name) {
          offset := offset + 2 * nameSize;
          IndexIs(ns, key, i);
          return Success, offset, certSize, ptr, nodeSize;
        } else {
          offset := offset + 2 * nameSize + certSize;
        }
      } else {
        var nodeSize := ReadLe32(data, ptr + 16);
        offset := offset + nodeSize;
      }
      i := i + 1;
    }
    IndexIs(ns, key, i);
    status := NotFound;
  }

  lemma OffsetZero(b: seq<byte>, ns: seq<Node>)
    requires Parse(b) == Some(ns)
    ensures AllValid(ns) && OffsetOf(ns, 0) == 4 <= |b| && (4 < |b| <==> 0 < |ns|)
  {
    hide ReadLe32, Parse, NodeBytes, Node.Valid, At;
    OffsetStep(b, ns, 0);
    assert ns[..0] == [];
  }

  lemma NameEquality(a: seq<uint16>, b: seq<uint16>)
    ensures NameBytes(a) == NameBytes(b) <==> a == b
  {
    NameRoundTrip(a);
    NameRoundTrip(b);
  }

  lemma IndexIs(ns: seq<Node>, k: Key, i: nat)
    requires i <= |ns| && (i < |ns| ==> ns[i].key == k) && forall j :: 0 <= j < i ==> ns[j].key != k
    ensures IndexOf(ns, k) == i
  {
  }

  /** Fill in the fixed part of a node. */
  method WriteNodeHeader(certDbStore: array<byte>, ptr: nat, guid: seq<byte>, certNodeSize: uint32, nameSize: uint32,
                         certDataSize: uint32) returns (end: nat)
    requires |guid| == GUID_SIZE && ptr + NODE_HEADER_SIZE <= certDbStore.Length
    modifies certDbStore
    ensures end == ptr + NODE_HEADER_SIZE
    ensures certDbStore[..end] ==
      old(certDbStore[..ptr]) + (guid + Le32(certNodeSize) + Le32(nameSize) + Le32(certDataSize))
  {
    hide ReadLe32, Le32;
    end := AppendMem(certDbStore, ptr, guid);
    end := AppendMem(certDbStore, end, Le32(certNodeSize));
    end := AppendMem(certDbStore, end, Le32(nameSize));
    end := AppendMem(certDbStore, end, Le32(certDataSize));
  }

  /** Copy the nodes that come first and put the corrected database length in front of them. */
  method WriteFront(certDbStore: array<byte>, data: seq<byte>, newCertDbSize: uint32)
    requires 4 <= |data| <= certDbStore.Length
    modifies certDbStore
    ensures certDbStore[..|data|] == Le32(newCertDbSize) + data[4..]
  {
    hide ReadLe32, Le32;
    CopyMem(certDbStore, 0, data);
    CopyMem(certDbStore, 0, Le32(newCertDbSize));
  }

  /** The buffer InsertCertsToDb builds for the update: old nodes, corrected length, new node. */
  method BuildInserted(certDbStore: array<byte>, data: seq<byte>, key: Key, shaDigest: seq<byte>) returns (newCertDbSize: nat)
    requires Node(key, shaDigest).Valid() && 4 <= |data|
    requires |data| + Node(key, shaDigest).Size() <= certDbStore.Length < 0x8000_0000
    modifies certDbStore
    ensures newCertDbSize == |data| + Node(key, shaDigest).Size()
    ensures certDbStore[..newCertDbSize] == InsertBytes(data, Node(key, shaDigest))
  {
    hide ReadLe32, Le32, NameBytes;
    ghost var n := Node(key, shaDigest);
    var nameSize, certDataSize := |key.name|, |shaDigest|;
    var certNodeSize := NODE_HEADER_SIZE + certDataSize + 2 * nameSize;
    newCertDbSize := |data| + certNodeSize;
    WriteFront(certDbStore, data, newCertDbSize);
    ghost var front := Le32(newCertDbSize) + data[4..];
    var end := WriteNodeHeader(certDbStore, |data|, key.guid, certNodeSize, nameSize, certDataSize);
    assert certDbStore[..end] == front + NodeHeader(n);
    end := AppendMem(certDbStore, end, NameBytes(key.name));
    end := AppendMem(certDbStore, end, shaDigest);
    assert certDbStore[..end] == front + NodeHeader(n) + NameBytes(key.name) + shaDigest == front + NodeBytes(n);
  }

  /** The buffer DeleteCertsFromDb builds for the update: the nodes before and after the deleted one. */
  method BuildDeleted(certDbStore: array<byte>, data: seq<byte>, certNodeOffset: nat, certNodeSize: nat)
    returns (newCertDbSize: nat)
    requires 4 <= certNodeOffset && certNodeOffset + certNodeSize <= |data| <= certDbStore.Length < 0x8000_0000
    modifies certDbStore
    ensures newCertDbSize == |data| - certNodeSize
    ensures certDbStore[..newCertDbSize] == DeleteBytes(data, certNodeOffset, certNodeSize)
  {
    hide ReadLe32, Le32;
    newCertDbSize := |data| - certNodeSize;
    WriteFront(certDbStore, data[..certNodeOffset], newCertDbSize);
    assert certDbStore[..certNodeOffset] == Le32(newCertDbSize) + data[4..certNodeOffset];
    if |data| > certNodeOffset + certNodeSize {
      CopyMem(certDbStore, certNodeOffset, data[certNodeOffset + certNodeSize..]);
    }
  }
}
