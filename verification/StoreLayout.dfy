/** The bytes of what is stored: nodes of the certificate database and signature lists, each field at its
    offset. */
module StoreLayout {
  import opened ByteLayout
  import opened Bytes
  import CertDb
  import opened SignatureList

  // ----- certificate databases

  /** The character that two bytes are, the lower one first. */
  function CharAt(b: seq<byte>, at: nat): int {
    if at + 2 > |b| then -1 else b[at] as int + 0x100 * b[at + 1] as int
  }

  predicate NameIn(b: seq<byte>, at: nat, name: seq<uint16>) {
    forall i :: 0 <= i < |name| ==> CharAt(b, at + 2 * i) == name[i]
  }

  lemma {:induction false} NameLayout(b: seq<byte>, at: nat, name: seq<uint16>)
    requires Holds(b, at, CertDb.NameBytes(name))
    ensures NameIn(b, at, name)
    decreases |name|
  {
    if name != [] {
      FirstChar(b, at, name);
      NameLayout(b, at + 2, name[1..]);
      NameBehind(b, at, name);
    }
  }

  lemma FirstChar(b: seq<byte>, at: nat, name: seq<uint16>)
    requires name != [] && Holds(b, at, CertDb.NameBytes(name))
    ensures CharAt(b, at) == name[0] && Holds(b, at + 2, CertDb.NameBytes(name[1..]))
  {
    hide Holds;
    var c: int := name[0];
    var first, rest := [(c % 0x100) as byte, (c / 0x100) as byte], CertDb.NameBytes(name[1..]);
    assert CertDb.NameBytes(name) == first + rest;
    TwoPieces(first, rest);
    Piece(b, at, first + rest, 0, first);
    Piece(b, at, first + rest, 2, rest);
    CharOfTwo(b, at, first);
  }

  lemma CharOfTwo(b: seq<byte>, at: nat, x: seq<byte>)
    requires |x| == 2 && Holds(b, at, x)
    ensures CharAt(b, at) == x[0] as int + 0x100 * x[1] as int
  {
    assert b[at] == b[at..at + 2][0] && b[at + 1] == b[at..at + 2][1];
  }

  lemma NameBehind(b: seq<byte>, at: nat, name: seq<uint16>)
    requires name != [] && CharAt(b, at) == name[0] && NameIn(b, at + 2, name[1..])
    ensures NameIn(b, at, name)
  {
    hide CharAt;
    forall i | 0 <= i < |name|
      ensures CharAt(b, at + 2 * i) == name[i]
    {
      if i > 0 {
        assert name[i] == name[1..][i - 1];
        assert at + 2 + 2 * (i - 1) == at + 2 * i;
      }
    }
  }

  /** A node: GUID, size, length of the name, size of the certificate data, name, data. */
  predicate NodeIn(b: seq<byte>, at: nat, n: CertDb.Node) {
    var name := |n.key.name|;
    && Holds(b, at, n.key.guid) && |n.key.guid| == 16
    && Number(b, at + 16) == 28 + 2 * name + |n.cert| && Number(b, at + 20) == name && Number(b, at + 24) == |n.cert|
    && NameIn(b, at + 28, n.key.name) && Holds(b, at + 28 + 2 * name, n.cert)
  }

  lemma NodeLayout(b: seq<byte>, at: nat, n: CertDb.Node)
    requires n.Valid() && Holds(b, at, CertDb.NodeBytes(n))
    ensures NodeIn(b, at, n)
  {
    hide Number, Le32, CertDb.NameBytes, NameIn;
    var x, name := CertDb.NodeBytes(n), |n.key.name|;
    var guid, size, length, data := n.key.guid, Le32(n.Size()), Le32(name), Le32(|n.cert|);
    assert x == guid + size + length + data + CertDb.NameBytes(n.key.name) + n.cert;
    Piece(b, at, x, 0, guid);
    Piece(b, at, x, 16, size);
    Piece(b, at, x, 20, length);
    Piece(b, at, x, 24, data);
    Piece(b, at, x, 28, CertDb.NameBytes(n.key.name));
    Piece(b, at, x, 28 + 2 * name, n.cert);
    WordIn(b, at + 16, n.Size());
    WordIn(b, at + 20, name);
    WordIn(b, at + 24, |n.cert|);
    NameLayout(b, at + 28, n.key.name);
  }

  lemma Piece(b: seq<byte>, at: nat, x: seq<byte>, off: nat, y: seq<byte>)
    requires Holds(b, at, x) && Holds(x, off, y)
    ensures Holds(b, at + off, y)
  {
    var z, w := b[at..at + |x|], b[at + off..at + off + |y|];
    assert z == x && x[off..off + |y|] == y;
    forall i | 0 <= i < |y|
      ensures w[i] == y[i]
    {
      assert w[i] == b[at + off + i] == z[off + i] == x[off..off + |y|][i];
    }
  }

  /** Where node k starts: behind the length word and the nodes before it. */
  function NodeStart(ns: seq<CertDb.Node>, k: nat): nat
    requires k <= |ns|
  {
    if k == 0 then 4 else NodeStart(ns, k - 1) + 28 + 2 * |ns[k - 1].key.name| + |ns[k - 1].cert|
  }

  /** The database: its own length, then the nodes one behind the other, and nothing else. */
  lemma DatabaseLayout(ns: seq<CertDb.Node>)
    requires CertDb.AllValid(ns) && 4 + |CertDb.Body(ns)| < 0x1_0000_0000
    ensures var b := CertDb.DbBytes(ns);
      && Number(b, 0) == |b| == NodeStart(ns, |ns|)
      && forall k :: 0 <= k < |ns| ==> NodeIn(b, NodeStart(ns, k), ns[k])
  {
    hide CertDb.Body, NodeIn, Le32, Number;
    var b := CertDb.DbBytes(ns);
    assert b[0..4] == Le32(|b|) && b[4..|b|] == CertDb.Body(ns);
    assert ns[0..] == ns;
    WordIn(b, 0, |b|);
    NodesIn(b, ns, 0);
  }

  lemma {:induction false} NodesIn(b: seq<byte>, ns: seq<CertDb.Node>, k: nat)
    requires k <= |ns| && CertDb.AllValid(ns) && Holds(b, NodeStart(ns, k), CertDb.Body(ns[k..]))
    ensures NodeStart(ns, |ns|) == NodeStart(ns, k) + |CertDb.Body(ns[k..])|
    ensures forall i :: k <= i < |ns| ==> NodeIn(b, NodeStart(ns, i), ns[i])
    decreases |ns| - k
  {
    hide NodeIn, CertDb.NodeBytes, Holds;
    if k < |ns| {
      var at, node, rest := NodeStart(ns, k), CertDb.NodeBytes(ns[k]), CertDb.Body(ns[k + 1..]);
      assert ns[k..][0] == ns[k] && ns[k..][1..] == ns[k + 1..];
      assert CertDb.Body(ns[k..]) == node + rest;
      Piece(b, at, node + rest, 0, node);
      Piece(b, at, node + rest, |node|, rest);
      NodeLayout(b, at, ns[k]);
      NodesIn(b, ns, k + 1);
    }
  }

  // ----- signature lists

  /** The start of piece j of n bytes each. */
  function PieceStart(at: nat, j: nat, n: nat): nat {
    at + j * n
  }

  /** A list: type, size, size of its header, size of a signature, header, signatures. */
  predicate ListIn(b: seq<byte>, at: nat, l: SigList) {
    var h := |l.header|;
    && Holds(b, at, l.typ) && |l.typ| == 16
    && Number(b, at + 16) == 28 + h + |l.sigs| * l.sigSize && Number(b, at + 20) == h && Number(b, at + 24) == l.sigSize
    && Holds(b, at + 28, l.header)
    && forall j :: 0 <= j < |l.sigs| ==> |l.sigs[j]| == l.sigSize && Holds(b, PieceStart(at + 28 + h, j, l.sigSize), l.sigs[j])
  }

  lemma ListLayout(b: seq<byte>, at: nat, l: SigList)
    requires l.Valid() && Holds(b, at, ListBytes(l))
    ensures ListIn(b, at, l) && l.Size() == 28 + |l.header| + |l.sigs| * l.sigSize
  {
    hide Number, Le32, Holds, Flat;
    var x, h := ListBytes(l), |l.header|;
    var size, header, signature := Le32(l.Size()), Le32(h), Le32(l.sigSize);
    assert x == l.typ + size + header + signature + l.header + Flat(l.sigs);
    Six(x, l.typ, size, header, signature, l.header, Flat(l.sigs));
    Piece(b, at, x, 0, l.typ);
    Piece(b, at, x, 16, size);
    Piece(b, at, x, 20, header);
    Piece(b, at, x, 24, signature);
    Piece(b, at, x, 28, l.header);
    Piece(b, at, x, 28 + h, Flat(l.sigs));
    WordIn(b, at + 16, l.Size());
    WordIn(b, at + 20, h);
    WordIn(b, at + 24, l.sigSize);
    FlatLength(l.sigs, l.sigSize);
    SignaturesIn(b, at + 28 + h, l.sigs, l.sigSize);
  }

  lemma Six(x: seq<byte>, a: seq<byte>, b: seq<byte>, c: seq<byte>, d: seq<byte>, e: seq<byte>, f: seq<byte>)
    requires x == a + b + c + d + e + f && |a| == 16 && |b| == |c| == |d| == 4
    ensures Holds(x, 0, a) && Holds(x, 16, b) && Holds(x, 20, c) && Holds(x, 24, d) && Holds(x, 28, e) && Holds(x, 28 + |e|, f)
  {
  }

  /** Signature j stands j times their size behind the first. */
  lemma {:induction false} SignaturesIn(b: seq<byte>, at: nat, sigs: seq<seq<byte>>, n: nat)
    requires Holds(b, at, Flat(sigs)) && forall i :: 0 <= i < |sigs| ==> |sigs[i]| == n
    ensures forall j :: 0 <= j < |sigs| ==> Holds(b, PieceStart(at, j, n), sigs[j])
    decreases |sigs|
  {
    hide Holds;
    if sigs != [] {
      var first, rest := sigs[0], Flat(sigs[1..]);
      TwoPieces(first, rest);
      Piece(b, at, first + rest, 0, first);
      Piece(b, at, first + rest, n, rest);
      SignaturesIn(b, at + n, sigs[1..], n);
      forall j | 0 <= j < |sigs|
        ensures Holds(b, PieceStart(at, j, n), sigs[j])
      {
        if j > 0 {
          assert sigs[j] == sigs[1..][j - 1];
          assert PieceStart(at + n, j - 1, n) == PieceStart(at, j, n);
        }
      }
    }
  }

  lemma TwoPieces(x: seq<byte>, y: seq<byte>)
    ensures Holds(x + y, 0, x) && Holds(x + y, |x|, y)
  {
  }

  /** Where list k starts. */
  function ListStart(ls: seq<SigList>, k: nat): nat
    requires k <= |ls|
  {
    if k == 0 then 0 else ListStart(ls, k - 1) + 28 + |ls[k - 1].header| + |ls[k - 1].sigs| * ls[k - 1].sigSize
  }

  /** Serialized lists stand one behind the other. */
  lemma ListsLayout(ls: seq<SigList>)
    requires AllValid(ls)
    ensures var b := Serialize(ls);
      |b| == ListStart(ls, |ls|) && forall k :: 0 <= k < |ls| ==> ListIn(b, ListStart(ls, k), ls[k])
  {
    hide Serialize, ListIn;
    var b := Serialize(ls);
    assert b[0..|b|] == b && ls[0..] == ls;
    ListsIn(b, ls, 0);
  }

  lemma {:induction false} ListsIn(b: seq<byte>, ls: seq<SigList>, k: nat)
    requires k <= |ls| && AllValid(ls) && Holds(b, ListStart(ls, k), Serialize(ls[k..]))
    ensures ListStart(ls, |ls|) == ListStart(ls, k) + |Serialize(ls[k..])|
    ensures forall i :: k <= i < |ls| ==> ListIn(b, ListStart(ls, i), ls[i])
    decreases |ls| - k
  {
    hide ListIn, ListBytes, Holds;
    if k < |ls| {
      var at, list, rest := ListStart(ls, k), ListBytes(ls[k]), Serialize(ls[k + 1..]);
      assert ls[k..][0] == ls[k] && ls[k..][1..] == ls[k + 1..];
      assert Serialize(ls[k..]) == list + rest;
      TwoPieces(list, rest);
      Piece(b, at, list + rest, 0, list);
      Piece(b, at, list + rest, |list|, rest);
      ListLayout(b, at, ls[k]);
      ListsIn(b, ls, k + 1);
    }
  }
}
