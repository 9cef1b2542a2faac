/** Packing header fields into little-endian bytes, and reading them back. */
module Struct {
  import opened Bytes

  const TWO_32: nat := 0x1_0000_0000

  /** A 32-bit number, a 64-bit number, or a text in a field of fixed size. */
  datatype Field = I(value: int) | Q(value: int) | S(size: nat, text: seq<byte>)
  datatype Kind = KI | KQ | KS(size: nat)

  function KindOf(f: Field): Kind {
    match f
    case I(_) => KI
    case Q(_) => KQ
    case S(n, _) => KS(n)
  }

  function Width(k: Kind): nat {
    match k
    case KI => 4
    case KQ => 8
    case KS(n) => n
  }

  /** Numbers that do not fit cannot be packed. */
  predicate Fits(f: Field) {
    match f
    case I(v) => 0 <= v < TWO_32
    case Q(v) => 0 <= v < TWO_32 * TWO_32
    case S(_, _) => true
  }

  predicate AllFit(fs: seq<Field>) {
    forall i :: 0 <= i < |fs| ==> Fits(fs[i])
  }

  /** A text is cut or filled with zeros to the size of its field. */
  function FitText(n: nat, text: seq<byte>): (r: seq<byte>)
    ensures |r| == n
  {
    if |text| >= n then text[..n] else text + Zeros(n - |text|)
  }

  function Pack(f: Field): (b: seq<byte>)
    requires Fits(f)
    ensures |b| == Width(KindOf(f))
  {
    match f
    case I(v) => Le32(v)
    case Q(v) => Le32(v % TWO_32) + Le32(v / TWO_32)
    case S(n, t) => FitText(n, t)
  }

  function PackAll(fs: seq<Field>): (b: seq<byte>)
    requires AllFit(fs)
  {
    if fs == [] then [] else Pack(fs[0]) + PackAll(fs[1..])
  }

  lemma {:induction false} PackAllConcat(a: seq<Field>, b: seq<Field>)
    requires AllFit(a) && AllFit(b)
    ensures AllFit(a + b) && PackAll(a + b) == PackAll(a) + PackAll(b)
  {
    hide Pack, Fits;
    if a == [] {
      assert a + b == b;
    } else {
      assert (a + b)[0] == a[0] && (a + b)[1..] == a[1..] + b;
      PackAllConcat(a[1..], b);
    }
  }

  function KindsOf(fs: seq<Field>): (ks: seq<Kind>)
    ensures |ks| == |fs| && forall i :: 0 <= i < |fs| ==> ks[i] == KindOf(fs[i])
  {
    seq(|fs|, i requires 0 <= i < |fs| => KindOf(fs[i]))
  }

  function WidthOf(ks: seq<Kind>): nat {
    if ks == [] then 0 else Width(ks[0]) + WidthOf(ks[1..])
  }

  lemma {:induction false} PackAllWidth(fs: seq<Field>)
    requires AllFit(fs)
    ensures |PackAll(fs)| == WidthOf(KindsOf(fs))
  {
    hide Pack, Fits, Width;
    if fs != [] {
      PackAllWidth(fs[1..]);
      assert KindsOf(fs)[1..] == KindsOf(fs[1..]);
    }
  }

  function Unpack(b: seq<byte>, at: nat, k: Kind): Field
    requires at + Width(k) <= |b|
  {
    match k
    case KI => I(ReadLe32(b, at))
    case KQ => Q(ReadLe32(b, at) + TWO_32 * ReadLe32(b, at + 4))
    case KS(n) => S(n, b[at..at + n])
  }

  /** The fields at a position, if the bytes are long enough. */
  function UnpackAll(b: seq<byte>, at: nat, ks: seq<Kind>): Option<seq<Field>>
    decreases |ks|
  {
    if ks == [] then Some([])
    else if at + Width(ks[0]) > |b| then None
    else match UnpackAll(b, at + Width(ks[0]), ks[1..])
      case None => None
      case Some(fs) => Some([Unpack(b, at, ks[0])] + fs)
  }

  /** What reading gives back of a field. */
  function Stored(f: Field): Field {
    match f
    case S(n, t) => S(n, FitText(n, t))
    case _ => f
  }

  function StoredAll(fs: seq<Field>): (r: seq<Field>)
    ensures |r| == |fs| && forall i :: 0 <= i < |fs| ==> r[i] == Stored(fs[i])
  {
    seq(|fs|, i requires 0 <= i < |fs| => Stored(fs[i]))
  }

  lemma UnpackOfPack(f: Field, b: seq<byte>, at: nat)
    requires Fits(f) && at + Width(KindOf(f)) <= |b| && b[at..at + Width(KindOf(f))] == Pack(f)
    ensures Unpack(b, at, KindOf(f)) == Stored(f)
  {
    match f
    case I(v) => ReadLe32Of(b, at, v);
    case Q(v) =>
      QuadAt(b, at, v % TWO_32, v / TWO_32);
    case S(_, _) =>
  }

  lemma QuadAt(b: seq<byte>, at: nat, low: uint32, high: uint32)
    requires at + 8 <= |b| && b[at..at + 8] == Le32(low) + Le32(high)
    ensures ReadLe32(b, at) == low && ReadLe32(b, at + 4) == high
  {
    hide ReadLe32, Le32;
    assert b[at..at + 4] == b[at..at + 8][..4] == Le32(low);
    assert b[at + 4..at + 8] == b[at..at + 8][4..] == Le32(high);
    ReadLe32Of(b, at, low);
    ReadLe32Of(b, at + 4, high);
  }

  /** Fields that stand at a position are read back from it, whatever else is around them. */
  lemma {:induction false} RoundTrip(fs: seq<Field>, b: seq<byte>, at: nat)
    requires AllFit(fs) && at + |PackAll(fs)| <= |b| && b[at..at + |PackAll(fs)|] == PackAll(fs)
    ensures UnpackAll(b, at, KindsOf(fs)) == Some(StoredAll(fs))
    decreases |fs|
  {
    hide Pack, Fits, Width, Unpack, Stored, KindOf;
    if fs != [] {
      var w, whole := |Pack(fs[0])|, PackAll(fs);
      var next := at + w;
      assert b[at..next] == whole[..w] == Pack(fs[0]);
      assert b[next..at + |whole|] == whole[w..] == PackAll(fs[1..]);
      UnpackOfPack(fs[0], b, at);
      RoundTrip(fs[1..], b, next);
      assert KindsOf(fs)[1..] == KindsOf(fs[1..]);
      assert StoredAll(fs) == [Stored(fs[0])] + StoredAll(fs[1..]);
    }
  }

  /** A number between other fields stands behind the width of those before it. */
  lemma NumberAt(x: seq<Field>, v: int, y: seq<Field>, b: seq<byte>)
    requires AllFit(x + [I(v)] + y) && PackAll(x + [I(v)] + y) <= b
    ensures var at := WidthOf(KindsOf(x));
      |b| >= at + 4 && ReadLe32(b, at) == v
  {
    hide Pack, Fits, ReadLe32, PackAll, KindsOf, WidthOf;
    AllFitConcat(x + [I(v)], y);
    AllFitConcat(x, [I(v)]);
    PackAllConcat(x + [I(v)], y);
    PackAllConcat(x, [I(v)]);
    PackAllWidth(x);
    var at := WidthOf(KindsOf(x));
    assert I(v) == [I(v)][0];
    PackNumber(v);
    PackOne(I(v));
    assert b[at..at + 4] == Le32(v);
    ReadLe32Of(b, at, v);
  }

  lemma PackNumber(v: int)
    requires Fits(I(v))
    ensures 0 <= v < TWO_32 && Pack(I(v)) == Le32(v)
  {
  }

  lemma AllFitConcat(a: seq<Field>, b: seq<Field>)
    ensures AllFit(a + b) <==> AllFit(a) && AllFit(b)
  {
    hide Fits;
    if AllFit(a + b) {
      assert forall i :: 0 <= i < |a| ==> (a + b)[i] == a[i];
      assert forall i :: 0 <= i < |b| ==> (a + b)[|a| + i] == b[i];
    }
  }

  // ----- texts that end at a NUL

  function UpToNul(b: seq<byte>): seq<byte> {
    if b == [] || b[0] == 0 then [] else [b[0]] + UpToNul(b[1..])
  }

  /** A text with a NUL behind it that fits its field is read back without its filling. */
  lemma {:induction false} UpToNulOfText(text: seq<byte>, rest: seq<byte>)
    requires 0 !in text && (rest == [] || rest[0] == 0)
    ensures UpToNul(text + rest) == text
  {
    if text == [] {
      assert text + rest == rest;
    } else {
      assert (text + rest)[1..] == text[1..] + rest;
      UpToNulOfText(text[1..], rest);
    }
  }

  lemma TextRoundTrip(n: nat, text: seq<byte>)
    requires 0 !in text && |text| < n
    ensures UpToNul(FitText(n, text + [0])) == text
  {
    hide UpToNul;
    assert FitText(n, text + [0]) == text + ([0] + Zeros(n - |text| - 1));
    UpToNulOfText(text, [0] + Zeros(n - |text| - 1));
  }

  // ----- an output file, written from its start

  class OutputFile {
    var data: seq<byte>

    constructor ()
      ensures data == []
    {
      data := [];
    }

    method Write(b: seq<byte>)
      modifies this
      ensures data == old(data) + b
    {
      data := data + b;
    }

    /** Packs and writes field by field; a number that does not fit stops it. */
    method WriteFields(fs: seq<Field>) returns (ok: bool)
      modifies this
      ensures ok <==> AllFit(fs)
      ensures ok ==> data == old(data) + PackAll(fs)
    {
      hide Pack, Fits;
      assert fs[..0] == [];
      for i := 0 to |fs|
        invariant AllFit(fs[..i]) && data == old(data) + PackAll(fs[..i])
      {
        if !Fits(fs[i]) {
          return false;
        }
        SplitAt(fs, i);
        PackOne(fs[i]);
        PackAllConcat(fs[..i], [fs[i]]);
        Write(Pack(fs[i]));
      }
      assert fs[..|fs|] == fs;
      ok := true;
    }
  }

  lemma PackOne(f: Field)
    requires Fits(f)
    ensures AllFit([f]) && PackAll([f]) == Pack(f)
  {
    assert [f][1..] == [];
  }
}
