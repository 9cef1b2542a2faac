/** The boot configuration lookups: one pass over the raw text, answering what the lines mean. */
module BootConfigReader {
  import opened Bytes
  import opened Efi
  import opened BootConfig
  import opened BootConfigScan

  const MAX_SIZE: nat := 0xFFFF

  // ----- lines

  /** The pass stands at the start of line k. */
  ghost predicate AtLine(config: string, start: nat, k: nat) {
    && start <= |config| && k <= |Lines(config)|
    && Lines(config[start..]) == Lines(config)[k..]
  }

  lemma FirstLineStarts(config: string)
    ensures AtLine(config, 0, 0)
  {
    assert config[0..] == config;
  }

  function NextLine(config: string, lineEnd: nat): nat {
    if lineEnd < |config| then lineEnd + 1 else |config|
  }

  /** From one line to the next, or to the end. */
  lemma LineStep(config: string, start: nat, k: nat, lineEnd: nat)
    requires AtLine(config, start, k) && start < |config|
    requires lineEnd == start + IndexOf(config[start..|config|], '\n')
    ensures k < |Lines(config)| && Lines(config)[k] == config[start..lineEnd]
    ensures AtLine(config, NextLine(config, lineEnd), k + 1)
  {
    hide Lines, IndexOf;
    var rest, all := config[start..], Lines(config);
    assert config[start..|config|] == rest;
    var i := lineEnd - start;
    FirstOfLines(rest);
    assert rest[..i] == config[start..lineEnd];
    if i == |rest| {
      assert config[|config|..] == "";
      NoLines();
    } else {
      assert rest[i + 1..] == config[lineEnd + 1..];
    }
    SplitAt(all, k);
    assert Lines(rest)[1..] == Lines(config[NextLine(config, lineEnd)..]);
  }

  lemma FirstOfLines(s: string)
    requires s != ""
    ensures var i := IndexOf(s, '\n');
      Lines(s) == [s[..i]] + if i < |s| then Lines(s[i + 1..]) else []
  {
    assert s[..|s|] == s;
  }

  lemma NoLines()
    ensures Lines("") == []
  {
  }

  lemma LastLineEnds(config: string, k: nat)
    requires AtLine(config, |config|, k)
    ensures k == |Lines(config)|
  {
  }

  // ----- the value lookup

  /** What the pass knows before line k: no fault so far, and the only match so far. */
  ghost predicate Scanned(ls: seq<Line>, section: string, key: string, k: nat, inSection: bool, found: Option<string>) {
    && k <= |ls| && inSection == InSection(ls, section, k)
    && (forall j :: 0 <= j < k ==> !Faulty(ls[j]))
    && match found
       case None => forall j :: 0 <= j < k ==> !Matches(ls, section, key, j)
       case Some(v) => exists m: nat :: OnlyMatch(ls, section, key, k, m, v)
  }

  ghost predicate OnlyMatch(ls: seq<Line>, section: string, key: string, k: nat, m: nat, v: string)
    requires k <= |ls|
  {
    && m < k && Matches(ls, section, key, m) && v == ValueOf(ls[m].text)
    && forall j :: 0 <= j < k && j != m ==> !Matches(ls, section, key, j)
  }

  lemma ScannedHeader(ls: seq<Line>, section: string, key: string, k: nat, inSection: bool, found: Option<string>)
    requires Scanned(ls, section, key, k, inSection, found) && k < |ls| && ls[k].Header?
    ensures Scanned(ls, section, key, k + 1, SameName(ls[k].name, section), found)
  {
    hide SameName, ValueOf, KeyOf;
    if found.Some? {
      var m: nat :| OnlyMatch(ls, section, key, k, m, found.value);
      assert OnlyMatch(ls, section, key, k + 1, m, found.value);
    }
  }

  lemma ScannedOther(ls: seq<Line>, section: string, key: string, k: nat, inSection: bool, found: Option<string>)
    requires Scanned(ls, section, key, k, inSection, found) && k < |ls| && !ls[k].Header?
    requires !Faulty(ls[k]) && !Matches(ls, section, key, k)
    ensures Scanned(ls, section, key, k + 1, inSection, found)
  {
    hide SameName, ValueOf, KeyOf;
    if found.Some? {
      var m: nat :| OnlyMatch(ls, section, key, k, m, found.value);
      assert OnlyMatch(ls, section, key, k + 1, m, found.value);
    }
  }

  lemma ScannedMatch(ls: seq<Line>, section: string, key: string, k: nat, inSection: bool)
    requires Scanned(ls, section, key, k, inSection, None) && k < |ls|
    requires !Faulty(ls[k]) && Matches(ls, section, key, k)
    ensures Scanned(ls, section, key, k + 1, inSection, Some(ValueOf(ls[k].text)))
  {
    hide SameName, ValueOf, Faulty;
    assert OnlyMatch(ls, section, key, k + 1, k, ValueOf(ls[k].text));
  }

  lemma ScannedRepeat(ls: seq<Line>, section: string, key: string, k: nat, inSection: bool, found: Option<string>)
    requires Scanned(ls, section, key, k, inSection, found) && k < |ls|
    requires Matches(ls, section, key, k) && found.Some?
    ensures Answers(ls, section, key, Compromised)
  {
    hide KeyOf, ValueOf, InSection, SameName;
    var m: nat :| OnlyMatch(ls, section, key, k, m, found.value);
  }

  lemma ScannedFault(ls: seq<Line>, section: string, key: string, k: nat)
    requires k < |ls| && Faulty(ls[k])
    ensures Answers(ls, section, key, Compromised)
  {
    hide Faulty;
  }

  lemma ScannedAll(ls: seq<Line>, section: string, key: string, inSection: bool, found: Option<string>)
    requires Scanned(ls, section, key, |ls|, inSection, found)
    ensures Answers(ls, section, key, if found.Some? then Found(found.value) else Missing)
  {
    hide KeyOf, ValueOf, Faulty, InSection, SameName;
    if found.Some? {
      var m: nat :| OnlyMatch(ls, section, key, |ls|, m, found.value);
      assert !HasFault(ls);
    }
  }

  /** Reads one item line: whether its key is the one looked for, and the value. */
  method ReadItem(config: string, start: nat, end: nat, inSection: bool, key: CString)
    returns (bad: bool, matches: bool, valueStart: nat, valueEnd: nat)
    requires start < end <= |config|
    ensures bad == (KeyOf(config[start..end]) == Some(""))
    ensures !bad ==>
              matches == (inSection && KeyOf(config[start..end]).Some? && SameName(KeyOf(config[start..end]).value, key))
    ensures valueStart <= valueEnd <= |config|
    ensures !bad && matches ==> config[valueStart..valueEnd] == ValueOf(config[start..end])
  {
    hide KeyOf, ValueOf, SameName;
    valueStart, valueEnd := 0, 0;
    var equals, keyStart, keyEnd := ReadKey(config, start, end);
    if equals == end {
      return false, false, 0, 0;
    }
    if keyStart == keyEnd {
      return true, false, 0, 0;
    }
    valueStart, valueEnd := ReadValue(config, equals + 1, end);
    var same := RangeEqualsString(config, keyStart, keyEnd - keyStart, key);
    return false, inSection && same, valueStart, valueEnd;
  }

  /** What a trimmed line that does not open a header or a comment is. */
  lemma ItemLine(t: string)
    requires t != "" && !IsCommentMark(t[0]) && t[0] != '['
    ensures ClassifyContent(t) == Item(t)
    ensures Faulty(ClassifyContent(t)) == (KeyOf(t) == Some(""))
  {
  }

  lemma BlankLine(t: string)
    requires t == "" || IsCommentMark(t[0])
    ensures ClassifyContent(t) == Blank
  {
  }

  lemma HeaderLine(t: string)
    requires t != "" && t[0] == '['
    ensures ClassifyContent(t).BadHeader? || ClassifyContent(t).Header?
  {
  }

  lemma ParsedLine(config: string, k: nat)
    requires k < |Lines(config)|
    ensures |Parse(config)| == |Lines(config)| && Parse(config)[k] == ClassifyContent(Trim(Lines(config)[k]))
  {
  }

  /** The pass over all lines: the status, and where in the text the value is. */
  method FindValue(config: string, section: CString, key: CString) returns (status: Status, start: nat, end: nat)
    ensures status == Success || status == CompromisedData || status == NotFound
    ensures start <= end <= |config|
    ensures Answers(Parse(config), section, key,
                    if status == Success then Found(config[start..end]) else if status == NotFound then Missing else Compromised)
  {
    hide Lines, Parse, AtLine, Scanned, Answers, ClassifyContent, Matches, InSection, KeyOf, ValueOf, SameName, Trim, IndexOf;
    ghost var ls := Parse(config);
    ghost var k: nat := 0;
    var inSection := section == "";
    var found := false;
    start, end := 0, 0;
    var lineStart: nat := 0;
    FirstLineStarts(config);
    ScannedNothing(ls, section, key);
    while lineStart < |config|
      invariant AtLine(config, lineStart, k) && lineStart <= |config|
      invariant start <= end <= |config|
      invariant Scanned(ls, section, key, k, inSection, if found then Some(config[start..end]) else None)
    {
      var lineEnd := ScanTo(config, lineStart, |config|, '\n');
      LineStep(config, lineStart, k, lineEnd);
      ParsedLine(config, k);
      var contentStart, contentEnd := TrimRange(config, lineStart, lineEnd);
      ghost var text := config[contentStart..contentEnd];
      assert ls[k] == ClassifyContent(text);
      if contentStart < contentEnd && config[contentStart] != '#' && config[contentStart] != ';' {
        if config[contentStart] == '[' {
          HeaderLine(text);
          var good, nameStart, nameEnd := ReadHeader(config, contentStart, contentEnd);
          if !good {
            ScannedFault(ls, section, key, k);
            return CompromisedData, 0, 0;
          }
          ScannedHeader(ls, section, key, k, inSection, if found then Some(config[start..end]) else None);
          inSection := RangeEqualsString(config, nameStart, nameEnd - nameStart, section);
        } else {
          ItemLine(text);
          MatchOfItem(ls, section, key, k, inSection, if found then Some(config[start..end]) else None);
          var bad, matches, valueStart, valueEnd := ReadItem(config, contentStart, contentEnd, inSection, key);
          if bad {
            ScannedFault(ls, section, key, k);
            return CompromisedData, 0, 0;
          }
          if matches {
            if found {
              ScannedRepeat(ls, section, key, k, inSection, Some(config[start..end]));
              return CompromisedData, 0, 0;
            }
            ScannedMatch(ls, section, key, k, inSection);
            found, start, end := true, valueStart, valueEnd;
          } else {
            ScannedOther(ls, section, key, k, inSection, if found then Some(config[start..end]) else None);
          }
        }
      } else {
        BlankLine(text);
        MatchOfBlank(ls, section, key, k);
        ScannedOther(ls, section, key, k, inSection, if found then Some(config[start..end]) else None);
      }
      lineStart := NextLine(config, lineEnd);
      k := k + 1;
    }
    LastLine(config, lineStart, k);
    ScannedAll(ls, section, key, inSection, if found then Some(config[start..end]) else None);
    status := if found then Success else NotFound;
  }

  lemma ScannedNothing(ls: seq<Line>, section: string, key: string)
    ensures Scanned(ls, section, key, 0, section == "", None)
  {
  }

  lemma LastLine(config: string, start: nat, k: nat)
    requires AtLine(config, start, k) && start == |config|
    ensures k == |Parse(config)|
  {
    LastLineEnds(config, k);
  }

  lemma MatchOfItem(ls: seq<Line>, section: string, key: string, k: nat, inSection: bool, found: Option<string>)
    requires Scanned(ls, section, key, k, inSection, found) && k < |ls| && ls[k].Item?
    ensures Matches(ls, section, key, k) == (inSection && KeyOf(ls[k].text).Some? && SameName(KeyOf(ls[k].text).value, key))
  {
  }

  lemma MatchOfBlank(ls: seq<Line>, section: string, key: string, k: nat)
    requires k < |ls| && ls[k] == Blank
    ensures !Matches(ls, section, key, k) && !Faulty(ls[k])
  {
  }

  // ----- the entry lookup

  /** The entries before line k, of which all were passed over. */
  ghost predicate Passed(ls: seq<Line>, section: string, k: nat, inSection: bool, count: nat) {
    var es := Entries(ls, section, section == "");
    && k <= |ls| && count <= |es| && es[count..] == Entries(ls[k..], section, inSection)
    && forall j :: 0 <= j < k ==> !ls[j].BadHeader?
  }

  lemma PassedNothing(ls: seq<Line>, section: string)
    ensures Passed(ls, section, 0, section == "", 0)
  {
    hide Entries;
    assert ls[0..] == ls;
    var es := Entries(ls, section, section == "");
    assert es[0..] == es;
  }

  lemma PassedHeader(ls: seq<Line>, section: string, k: nat, inSection: bool, count: nat)
    requires Passed(ls, section, k, inSection, count) && k < |ls| && ls[k].Header?
    ensures Passed(ls, section, k + 1, SameName(ls[k].name, section), count)
  {
    hide SameName, EntryText;
    SplitAt(ls, k);
  }

  lemma PassedBad(ls: seq<Line>, section: string, k: nat, inSection: bool, count: nat, index: nat)
    requires Passed(ls, section, k, inSection, count) && k < |ls| && ls[k].BadHeader? && count <= index
    ensures EntryAnswer(ls, section, index) == Compromised
  {
    hide SameName, EntryText;
    SplitAt(ls, k);
  }

  lemma PassedOther(ls: seq<Line>, section: string, k: nat, inSection: bool, count: nat)
    requires Passed(ls, section, k, inSection, count) && k < |ls| && (ls[k].Item? || ls[k].Blank?)
    ensures !inSection || EntryText(ls[k]) == "" ==> Passed(ls, section, k + 1, inSection, count)
    ensures inSection && EntryText(ls[k]) != "" ==> Passed(ls, section, k + 1, inSection, count + 1)
    ensures inSection && EntryText(ls[k]) != "" ==> EntryAnswer(ls, section, count) == Found(EntryText(ls[k]))
  {
    hide SameName, EntryText;
    SplitAt(ls, k);
    var es := Entries(ls, section, section == "");
    if inSection && EntryText(ls[k]) != "" {
      assert es[count..] == [EntryText(ls[k])] + Entries(ls[k + 1..], section, inSection);
      assert es[count] == es[count..][0];
      assert es[count + 1..] == es[count..][1..];
    } else {
      assert es[count..] == [] + Entries(ls[k + 1..], section, inSection);
    }
  }

  lemma PassedAll(ls: seq<Line>, section: string, inSection: bool, count: nat, index: nat)
    requires Passed(ls, section, |ls|, inSection, count) && count <= index
    ensures EntryAnswer(ls, section, index) == Missing
  {
    hide SameName, EntryText;
  }

  lemma EntryOfItem(t: string)
    ensures EntryText(Item(t)) == WithoutComment(t) && EntryText(Blank) == ""
  {
  }

  method FindEntry(config: string, section: CString, index: nat) returns (status: Status, start: nat, end: nat)
    ensures status == Success || status == CompromisedData || status == NotFound
    ensures start <= end <= |config|
    ensures EntryAnswer(Parse(config), section, index)
         == if status == Success then Found(config[start..end]) else if status == NotFound then Missing else Compromised
  {
    hide Lines, Parse, AtLine, Passed, EntryAnswer, EntryText, ClassifyContent, SameName, Trim, IndexOf, WithoutComment;
    ghost var ls := Parse(config);
    ghost var k: nat := 0;
    var inSection := section == "";
    var currentIndex: nat := 0;
    start, end := 0, 0;
    var lineStart: nat := 0;
    FirstLineStarts(config);
    PassedNothing(ls, section);
    while lineStart < |config|
      invariant AtLine(config, lineStart, k) && lineStart <= |config|
      invariant currentIndex <= index && start == end == 0
      invariant Passed(ls, section, k, inSection, currentIndex)
    {
      var lineEnd := ScanTo(config, lineStart, |config|, '\n');
      LineStep(config, lineStart, k, lineEnd);
      ParsedLine(config, k);
      var contentStart, contentEnd := TrimRange(config, lineStart, lineEnd);
      ghost var text := config[contentStart..contentEnd];
      assert ls[k] == ClassifyContent(text);
      EntryOfItem(text);
      if contentStart < contentEnd && config[contentStart] != '#' && config[contentStart] != ';' {
        if config[contentStart] == '[' {
          HeaderLine(text);
          var good, nameStart, nameEnd := ReadHeader(config, contentStart, contentEnd);
          if !good {
            PassedBad(ls, section, k, inSection, currentIndex, index);
            return CompromisedData, 0, 0;
          }
          PassedHeader(ls, section, k, inSection, currentIndex);
          inSection := RangeEqualsString(config, nameStart, nameEnd - nameStart, section);
        } else {
          ItemLine(text);
          PassedOther(ls, section, k, inSection, currentIndex);
          if inSection {
            var commentStart := TrimInlineComment(config, contentStart, contentEnd);
            contentStart, contentEnd := TrimRange(config, contentStart, commentStart);
            if contentStart < contentEnd {
              if currentIndex == index {
                return Success, contentStart, contentEnd;
              }
              currentIndex := currentIndex + 1;
            }
          }
        }
      } else {
        BlankLine(text);
        PassedOther(ls, section, k, inSection, currentIndex);
      }
      lineStart := NextLine(config, lineEnd);
      k := k + 1;
    }
    LastLine(config, lineStart, k);
    PassedAll(ls, section, inSection, currentIndex, index);
    status := NotFound;
  }
}
