/** The scanning steps of the boot configuration reader, each proved against the meaning of a line. */
module BootConfigScan {
  import opened Bytes
  import opened BootConfig

  /** A string that ends at its first NUL, as C code passes it. */
  type CString = s: string | '\0' !in s

  /** A range with the spaces at both ends taken off is the trimmed text. */
  lemma TrimOf(s: string, from: nat, to: nat)
    requires from <= to <= |s|
    requires forall i :: 0 <= i < from || to <= i < |s| ==> IsConfigSpace(s[i])
    requires from < to ==> !IsConfigSpace(s[from]) && !IsConfigSpace(s[to - 1])
    ensures Trim(s) == s[from..to]
  {
    if from == to {
      TrimLeftOf(s, |s|);
    } else {
      TrimLeftOf(s, from);
      TrimRightOf(s[from..], to - from);
      assert s[from..][..to - from] == s[from..to];
    }
  }

  lemma {:induction false} TrimLeftOf(s: string, n: nat)
    requires n <= |s| && forall i :: 0 <= i < n ==> IsConfigSpace(s[i])
    requires n < |s| ==> !IsConfigSpace(s[n])
    ensures TrimLeft(s) == s[n..]
  {
    if n > 0 {
      TrimLeftOf(s[1..], n - 1);
    }
  }

  lemma {:induction false} TrimRightOf(s: string, n: nat)
    requires n <= |s| && forall i :: n <= i < |s| ==> IsConfigSpace(s[i])
    requires n > 0 ==> !IsConfigSpace(s[n - 1])
    ensures TrimRight(s) == s[..n]
    decreases |s|
  {
    if n < |s| {
      TrimRightOf(s[..|s| - 1], n);
      assert s[..|s| - 1][..n] == s[..n];
    } else {
      assert s[..n] == s;
    }
  }

  lemma Within(s: string, from: nat, to: nat, i: nat, j: nat)
    requires from <= to <= |s| && i <= j <= to - from
    ensures s[from..to][i..j] == s[from + i..from + j]
  {
    var t := s[from..to];
    assert forall k :: i <= k < j ==> t[k] == s[from + k];
    assert |t[i..j]| == |s[from + i..from + j]|;
  }

  method TrimRange(data: string, from: nat, to: nat) returns (start: nat, end: nat)
    requires from <= to <= |data|
    ensures from <= start <= end <= to
    ensures forall i :: from <= i < start || end <= i < to ==> IsConfigSpace(data[i])
    ensures start < end ==> !IsConfigSpace(data[start]) && !IsConfigSpace(data[end - 1])
    ensures data[start..end] == Trim(data[from..to])
  {
    hide Trim;
    start, end := from, to;
    while start < end && IsConfigSpace(data[start])
      invariant from <= start <= end
      invariant forall i :: from <= i < start ==> IsConfigSpace(data[i])
    {
      start := start + 1;
    }
    while end > start && IsConfigSpace(data[end - 1])
      invariant start <= end <= to
      invariant forall i :: from <= i < start || end <= i < to ==> IsConfigSpace(data[i])
    {
      end := end - 1;
    }
    TrimOf(data[from..to], start - from, end - from);
    Within(data, from, to, start - from, end - from);
  }

  /** Cuts the comment off; spaces before it go too. */
  method TrimInlineComment(data: string, start: nat, to: nat) returns (end: nat)
    requires start <= to <= |data|
    ensures start <= end <= to
    ensures Trim(data[start..end]) == WithoutComment(data[start..to])
  {
    hide QuotingAt;
    ghost var text := data[start..to];
    QuotingStart(text);
    var inQuotes, escaped := false, false;
    end := to;
    for index := start to to
      invariant end == to
      invariant QuotingAt(text, index - start) == Quoting(inQuotes, escaped)
      invariant forall j :: 0 <= j < index - start ==> !CommentStarts(text, j)
    {
      QuotingStep(text, index - start);
      assert data[index] == text[index - start];
      if inQuotes && data[index] == '\\' && !escaped {
        escaped := true;
        continue;
      }
      if data[index] == '"' {
        if !escaped {
          inQuotes := !inQuotes;
        }
        escaped := false;
        continue;
      }
      if !inQuotes && (data[index] == '#' || data[index] == ';')
         && (index == start || IsConfigSpace(data[index - 1])) {
        var trimmedStart;
        trimmedStart, end := TrimRange(data, start, index);
        TrimOf(data[start..end], trimmedStart - start, end - start);
        FirstComment(text, index - start);
        assert data[start..index] == text[..index - start];
        return;
      }
      escaped := false;
    }
    NoComment(text);
  }

  lemma QuotingStart(s: string)
    ensures QuotingAt(s, 0) == Quoting(false, false)
  {
  }

  lemma QuotingStep(s: string, i: nat)
    requires i < |s|
    ensures QuotingAt(s, i + 1) == QuotingAt(s, i).Next(s[i])
  {
  }

  lemma FirstComment(s: string, i: nat)
    requires i < |s| && CommentStarts(s, i) && forall j :: 0 <= j < i ==> !CommentStarts(s, j)
    ensures CommentAt(s) == i
  {
    hide CommentStarts;
  }

  lemma NoComment(s: string)
    requires forall j :: 0 <= j < |s| ==> !CommentStarts(s, j)
    ensures WithoutComment(s) == Trim(s)
  {
    hide CommentStarts;
    assert s[..|s|] == s;
  }

  method RangeEqualsString(data: string, start: nat, size: nat, name: CString) returns (equal: bool)
    requires start + size <= |data|
    ensures equal == SameName(data[start..start + size], name)
  {
    ghost var range := data[start..start + size];
    for index := 0 to size
      invariant index <= |name|
      invariant forall i :: 0 <= i < index ==> ToLowerAscii(range[i]) == ToLowerAscii(name[i])
    {
      if index == |name| {
        return false;
      }
      assert data[start + index] == range[index];
      if ToLowerAscii(data[start + index]) != ToLowerAscii(name[index]) {
        return false;
      }
    }
    return size == |name|;
  }

  lemma IndexOfFirst(s: string, c: char, i: nat)
    requires i <= |s| && (i < |s| ==> s[i] == c) && forall j :: 0 <= j < i ==> s[j] != c
    ensures IndexOf(s, c) == i
  {
  }

  /** The scanning loop for a delimiter. */
  method ScanTo(data: string, from: nat, to: nat, delimiter: char) returns (at: nat)
    requires from <= to <= |data|
    ensures at == from + IndexOf(data[from..to], delimiter)
  {
    at := from;
    while at < to && data[at] != delimiter
      invariant from <= at <= to
      invariant forall j :: from <= j < at ==> data[j] != delimiter
    {
      at := at + 1;
    }
    IndexOfFirst(data[from..to], delimiter, at - from);
  }

  /** A section header: closed, and nothing but a comment behind it. */
  method ReadHeader(data: string, start: nat, end: nat) returns (good: bool, nameStart: nat, nameEnd: nat)
    requires start < end <= |data| && data[start] == '['
    ensures !good <==> ClassifyContent(data[start..end]).BadHeader?
    ensures good ==> nameStart <= nameEnd <= |data|
    ensures good ==> ClassifyContent(data[start..end]) == Header(data[nameStart..nameEnd])
  {
    hide IndexOf, Trim, TrimLeft;
    ghost var t := data[start..end];
    assert t[1..] == data[start + 1..end];
    var close := ScanTo(data, start + 1, end, ']');
    if close == end {
      return false, 0, 0;
    }
    nameStart, nameEnd := TrimRange(data, start + 1, close);
    Within(data, start, end, 1, close - start);
    Within(data, start, end, close - start + 1, end - start);
    var comment := close + 1;
    while comment < end && IsConfigSpace(data[comment])
      invariant close + 1 <= comment <= end
      invariant forall i :: close + 1 <= i < comment ==> IsConfigSpace(data[i])
    {
      comment := comment + 1;
    }
    TrimLeftOf(data[close + 1..end], comment - (close + 1));
    assert data[close + 1..end][comment - (close + 1)..] == data[comment..end];
    good := !(comment < end && data[comment] != '#' && data[comment] != ';');
  }

  /** The value behind the equals sign. */
  method ReadValue(data: string, from: nat, to: nat) returns (start: nat, end: nat)
    requires from <= to <= |data|
    ensures start <= end <= |data| && data[start..end] == WithoutComment(Trim(data[from..to]))
  {
    hide Trim, WithoutComment;
    var valueStart, valueEnd := TrimRange(data, from, to);
    var comment := TrimInlineComment(data, valueStart, valueEnd);
    start, end := TrimRange(data, valueStart, comment);
  }

  /** An item without an equals sign has no key; one with an empty key is faulty. */
  method ReadKey(data: string, start: nat, end: nat) returns (equals: nat, keyStart: nat, keyEnd: nat)
    requires start <= end <= |data|
    ensures start <= equals <= end
    ensures equals == end <==> KeyOf(data[start..end]).None?
    ensures equals < end ==> keyStart <= keyEnd <= |data| && KeyOf(data[start..end]) == Some(data[keyStart..keyEnd])
    ensures equals < end ==> ValueOf(data[start..end]) == WithoutComment(Trim(data[equals + 1..end]))
  {
    hide IndexOf, Trim, WithoutComment;
    ghost var t := data[start..end];
    equals := ScanTo(data, start, end, '=');
    if equals == end {
      return equals, 0, 0;
    }
    keyStart, keyEnd := TrimRange(data, start, equals);
    assert t[..equals - start] == data[start..equals];
    assert t[equals - start + 1..] == data[equals + 1..end];
  }
}
