/** Page arithmetic: rounding up, padding, and cutting padded sections out again. */
module Paging {
  import opened Bits
  import opened Bytes
  import opened Struct

  // ----- rounding

  function Pages(n: nat, page: nat): nat
    requires page > 0
  {
    (n + page - 1) / page
  }

  function RoundUp(n: nat, page: nat): nat
    requires page > 0
  {
    Pages(n, page) * page
  }

  /** The smallest multiple of the page size that is not below. */
  lemma RoundUpIsLeast(n: nat, page: nat, q: nat)
    requires page > 0
    ensures n <= RoundUp(n, page) < n + page
    ensures n <= q * page ==> RoundUp(n, page) <= q * page
  {
    var m := n + page - 1;
    DivMod(m, page);
    if n <= q * page < RoundUp(n, page) {
      assert RoundUp(n, page) - q * page == (Pages(n, page) - q) * page;
      Positive(Pages(n, page) - q, page);
      AtLeastOnce(Pages(n, page) - q, page);
    }
  }

  lemma RoundUpBehind(pages: nat, n: nat, page: nat)
    requires page > 0
    ensures RoundUp(pages * page + n, page) == pages * page + RoundUp(n, page)
  {
    var m := n + page - 1;
    var q, r := m / page, m % page;
    DivMod(m, page);
    assert pages * page + m == (pages + q) * page + r;
    ModIs(pages * page + m, page, pages + q, r);
  }

  /** The arithmetic of the padding comes to the distance to the next page. */
  lemma PadDistance(n: nat, page: nat)
    requires page > 0
    ensures (page - n % page) % page == RoundUp(n, page) - n
  {
    var q, r := n / page, n % page;
    DivMod(n, page);
    if r == 0 {
      ModIs(n + page - 1, page, q, page - 1);
      ModIs(page, page, 1, 0);
    } else {
      assert n + page - 1 == (q + 1) * page + (r - 1);
      ModIs(n + page - 1, page, q + 1, r - 1);
      ModIs(page - r, page, 0, page - r);
    }
  }

  // ----- sections

  function Padded(b: seq<byte>, page: nat): (r: seq<byte>)
    requires page > 0
    ensures |r| == RoundUp(|b|, page) && b <= r
  {
    RoundUpIsLeast(|b|, page, 0);
    b + Zeros(RoundUp(|b|, page) - |b|)
  }

  /** Fills a file up to the next multiple of a power of two. */
  method PadFile(f: OutputFile, padding: nat, ghost k: nat)
    requires padding == Pow2(k)
    modifies f
    ensures f.data == Padded(old(f.data), padding)
  {
    hide And, Pow2, RoundUp;
    var tell := |f.data|;
    AndMask(tell, k);
    var pad := And(padding - And(tell, padding - 1), padding - 1);
    AndMask(padding - tell % padding, k);
    PadDistance(tell, padding);
    f.Write(Zeros(pad));
  }

  /** The length is a multiple of the page size. */
  predicate Paged(b: seq<byte>, page: nat)
    requires page > 0
  {
    RoundUp(|b|, page) == |b|
  }

  lemma PaddedIsPaged(b: seq<byte>, page: nat)
    requires page > 0
    ensures Paged(Padded(b, page), page)
    ensures Padded([], page) == []
  {
    hide Pages;
    var q := Pages(|b|, page);
    assert |Padded(b, page)| == q * page;
    RoundUpBehind(q, 0, page);
    RoundUpOfNothing(page);
    assert |Padded([], page)| == 0;
  }

  lemma RoundUpOfNothing(page: nat)
    requires page > 0
    ensures RoundUp(0, page) == 0
  {
    ModIs(page - 1, page, 0, page - 1);
  }

  /** Behind whole pages, padding a file is padding what was added. */
  lemma PaddedBehind(b: seq<byte>, x: seq<byte>, page: nat)
    requires page > 0 && Paged(b, page)
    ensures Padded(b + x, page) == b + Padded(x, page)
    ensures Paged(b + Padded(x, page), page)
  {
    hide Pages;
    RoundUpBehind(Pages(|b|, page), |x|, page);
    PaddedIsPaged(b + x, page);
    assert b + x + Zeros(RoundUp(|x|, page) - |x|) == b + (x + Zeros(RoundUp(|x|, page) - |x|));
  }

  function Content(file: Option<seq<byte>>): seq<byte> {
    if file.Some? then file.value else []
  }

  /** A file that is not given adds nothing. */
  method WritePaddedFile(out: OutputFile, file: Option<seq<byte>>, padding: nat, ghost k: nat)
    requires padding == Pow2(k) && Paged(out.data, padding)
    modifies out
    ensures out.data == old(out.data) + Padded(Content(file), padding)
    ensures Paged(out.data, padding)
  {
    hide Padded, RoundUp, Pow2;
    ghost var before := out.data;
    PaddedBehind(before, Content(file), padding);
    PaddedIsPaged([], padding);
    if file.None? {
      assert before + [] == before;
      return;
    }
    out.Write(file.value);
    PadFile(out, padding, k);
  }

  // ----- cutting the sections out again

  function Sections(files: seq<seq<byte>>, page: nat): seq<byte>
    requires page > 0
  {
    if files == [] then [] else Padded(files[0], page) + Sections(files[1..], page)
  }

  lemma {:induction false} SectionsConcat(a: seq<seq<byte>>, b: seq<seq<byte>>, page: nat)
    requires page > 0
    ensures Sections(a + b, page) == Sections(a, page) + Sections(b, page)
  {
    hide Padded;
    if a == [] {
      assert a + b == b;
    } else {
      assert (a + b)[0] == a[0] && (a + b)[1..] == a[1..] + b;
      SectionsConcat(a[1..], b, page);
    }
  }

  lemma SectionsOfOne(x: seq<byte>, page: nat)
    requires page > 0
    ensures Sections([x], page) == Padded(x, page)
  {
    hide Padded;
    assert [x][1..] == [];
    assert Padded(x, page) + [] == Padded(x, page);
  }

  function Sizes(files: seq<seq<byte>>): (r: seq<nat>)
    ensures |r| == |files| && forall i :: 0 <= i < |r| ==> r[i] == |files[i]|
  {
    seq(|files|, i requires 0 <= i < |files| => |files[i]|)
  }

  /** The sections of given sizes from a position on, each starting at a page. */
  function Cut(b: seq<byte>, at: nat, sizes: seq<nat>, page: nat): Option<seq<seq<byte>>>
    requires page > 0
    decreases |sizes|
  {
    if sizes == [] then Some([])
    else if at + sizes[0] > |b| then None
    else match Cut(b, at + RoundUp(sizes[0], page), sizes[1..], page)
      case None => None
      case Some(rest) => Some([b[at..at + sizes[0]]] + rest)
  }

  /** Sizes and page rounding are enough to find every section. */
  lemma {:induction false} CutSections(files: seq<seq<byte>>, b: seq<byte>, at: nat, page: nat)
    requires page > 0 && at + |Sections(files, page)| <= |b|
    requires b[at..at + |Sections(files, page)|] == Sections(files, page)
    ensures Cut(b, at, Sizes(files), page) == Some(files)
    decreases |files|
  {
    hide RoundUp;
    if files != [] {
      var whole, first := Sections(files, page), Padded(files[0], page);
      var next := at + |first|;
      assert b[at..next] == whole[..|first|] == first;
      assert b[at..at + |files[0]|] == first[..|files[0]|] == files[0];
      assert b[next..at + |whole|] == whole[|first|..] == Sections(files[1..], page);
      CutSections(files[1..], b, next, page);
      assert Sizes(files)[1..] == Sizes(files[1..]);
      assert files == [files[0]] + files[1..];
    }
  }
}
