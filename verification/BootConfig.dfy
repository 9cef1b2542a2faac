/** The boot configuration text: what its lines mean, and what a lookup in it answers. */
module BootConfig {
  import opened Bytes

  // ----- characters and ranges

  predicate IsConfigSpace(c: char) {
    c == ' ' || c == '\t' || c == '\r'
  }

  predicate IsCommentMark(c: char) {
    c == '#' || c == ';'
  }

  function ToLowerAscii(c: char): char {
    if 'A' <= c <= 'Z' then (c as int - 'A' as int + 'a' as int) as char else c
  }

  /** Equality of names, ignoring the case of ASCII letters. */
  predicate SameName(a: string, b: string) {
    |a| == |b| && forall i :: 0 <= i < |a| ==> ToLowerAscii(a[i]) == ToLowerAscii(b[i])
  }

  function TrimLeft(s: string): string {
    if s != "" && IsConfigSpace(s[0]) then TrimLeft(s[1..]) else s
  }

  function TrimRight(s: string): string {
    if s != "" && IsConfigSpace(s[|s| - 1]) then TrimRight(s[..|s| - 1]) else s
  }

  function Trim(s: string): string {
    TrimRight(TrimLeft(s))
  }

  /** The first position of a character, or the length of the text. */
  function IndexOf(s: string, c: char): (i: nat)
    ensures i <= |s| && (i < |s| ==> s[i] == c) && forall j :: 0 <= j < i ==> s[j] != c
  {
    if s == "" || s[0] == c then 0 else 1 + IndexOf(s[1..], c)
  }

  // ----- comments behind a value

  /** Quotes protect comment marks; inside them a backslash protects the next character. */
  datatype Quoting = Quoting(inQuotes: bool, escaped: bool) {
    function Next(c: char): Quoting {
      if inQuotes && c == '\\' && !escaped then Quoting(true, true)
      else if c == '"' then Quoting(if escaped then inQuotes else !inQuotes, false)
      else Quoting(inQuotes, false)
    }
  }

  function QuotingAt(s: string, i: nat): Quoting
    requires i <= |s|
  {
    if i == 0 then Quoting(false, false) else QuotingAt(s, i - 1).Next(s[i - 1])
  }

  /** A comment starts at an unquoted mark at the start of the text or behind a space. */
  predicate CommentStarts(s: string, i: nat)
    requires i < |s|
  {
    IsCommentMark(s[i]) && !QuotingAt(s, i).inQuotes && (i == 0 || IsConfigSpace(s[i - 1]))
  }

  /** Where the comment starts, or the length of the text. */
  function CommentAt(s: string, from: nat := 0): (i: nat)
    requires from <= |s|
    ensures from <= i <= |s|
    ensures i < |s| ==> CommentStarts(s, i)
    ensures forall j :: from <= j < i ==> !CommentStarts(s, j)
    decreases |s| - from
  {
    if from == |s| || CommentStarts(s, from) then from else CommentAt(s, from + 1)
  }

  function WithoutComment(s: string): string {
    Trim(s[..CommentAt(s)])
  }

  // ----- lines

  /** What one line is. A header that is not closed, or has something else than a comment behind it,
      is bad; an item is any other line with content. */
  datatype Line = Blank | BadHeader | Header(name: string) | Item(text: string)

  function Classify(line: string): Line {
    ClassifyContent(Trim(line))
  }

  function ClassifyContent(t: string): Line {
    if t == "" || IsCommentMark(t[0]) then Blank
    else if t[0] == '[' then
      var close := 1 + IndexOf(t[1..], ']');
      if close == |t| then BadHeader
      else
        var behind := TrimLeft(t[close + 1..]);
        if behind != "" && !IsCommentMark(behind[0]) then BadHeader else Header(Trim(t[1..close]))
    else Item(t)
  }

  /** An item with an equals sign is a key with a value. */
  function KeyOf(text: string): Option<string> {
    var eq := IndexOf(text, '=');
    if eq == |text| then None else Some(Trim(text[..eq]))
  }

  function ValueOf(text: string): string
    requires KeyOf(text).Some?
  {
    WithoutComment(Trim(text[IndexOf(text, '=') + 1..]))
  }

  predicate Faulty(l: Line) {
    l.BadHeader? || (l.Item? && KeyOf(l.text) == Some(""))
  }

  function Lines(s: string): (ls: seq<string>)
    decreases |s|
  {
    if s == "" then [] else
      var i := IndexOf(s, '\n');
      if i == |s| then [s] else [s[..i]] + Lines(s[i + 1..])
  }

  function ClassifyAll(ls: seq<string>): (r: seq<Line>)
    ensures |r| == |ls| && forall i :: 0 <= i < |r| ==> r[i] == Classify(ls[i])
  {
    seq(|ls|, i requires 0 <= i < |ls| => Classify(ls[i]))
  }

  function Parse(config: string): seq<Line> {
    ClassifyAll(Lines(config))
  }

  // ----- lookups

  /** Line k is in the section if the last header before it names it; before any header one is in
      the section without a name. */
  predicate InSection(ls: seq<Line>, section: string, k: nat)
    requires k <= |ls|
  {
    if k == 0 then section == ""
    else match ls[k - 1]
      case Header(name) => SameName(name, section)
      case _ => InSection(ls, section, k - 1)
  }

  predicate Matches(ls: seq<Line>, section: string, key: string, k: nat)
    requires k < |ls|
  {
    && ls[k].Item? && KeyOf(ls[k].text).Some? && SameName(KeyOf(ls[k].text).value, key)
    && InSection(ls, section, k)
  }

  datatype Answer = Compromised | Missing | Found(text: string)

  predicate HasFault(ls: seq<Line>) {
    exists k :: 0 <= k < |ls| && Faulty(ls[k])
  }

  predicate HasRepeat(ls: seq<Line>, section: string, key: string) {
    exists i, j :: 0 <= i < j < |ls| && Matches(ls, section, key, i) && Matches(ls, section, key, j)
  }

  /** What a lookup answers: a fault anywhere, or the key twice in its section, spoils it. */
  ghost predicate Answers(ls: seq<Line>, section: string, key: string, a: Answer) {
    match a
    case Compromised => HasFault(ls) || HasRepeat(ls, section, key)
    case Missing => !HasFault(ls) && forall k :: 0 <= k < |ls| ==> !Matches(ls, section, key, k)
    case Found(v) =>
      && !HasFault(ls) && !HasRepeat(ls, section, key)
      && exists k :: 0 <= k < |ls| && Matches(ls, section, key, k) && v == ValueOf(ls[k].text)
  }

  ghost function Lookup(ls: seq<Line>, section: string, key: string): (a: Answer)
    ensures Answers(ls, section, key, a)
  {
    if HasFault(ls) || HasRepeat(ls, section, key) then Compromised
    else if k: nat :| k < |ls| && Matches(ls, section, key, k) then Found(ValueOf(ls[k].text))
    else Missing
  }

  /** There is always an answer, and only one. */
  lemma OneAnswer(ls: seq<Line>, section: string, key: string, a: Answer)
    ensures Answers(ls, section, key, a) <==> a == Lookup(ls, section, key)
  {
    hide Faulty, ValueOf, InSection, SameName, Lookup;
    var b := Lookup(ls, section, key);
    if a.Found? && b.Found? && Answers(ls, section, key, a) {
      var i :| 0 <= i < |ls| && Matches(ls, section, key, i) && a.text == ValueOf(ls[i].text);
      var j :| 0 <= j < |ls| && Matches(ls, section, key, j) && b.text == ValueOf(ls[j].text);
      assert i == j;
    }
  }

  // ----- entries by number

  function EntryText(l: Line): string {
    match l
    case Item(t) => WithoutComment(t)
    case _ => ""
  }

  /** The texts of the section in order, up to the first bad header. */
  function Entries(ls: seq<Line>, section: string, inSection: bool): seq<string> {
    if ls == [] || ls[0].BadHeader? then []
    else if ls[0].Header? then Entries(ls[1..], section, SameName(ls[0].name, section))
    else (if inSection && EntryText(ls[0]) != "" then [EntryText(ls[0])] else []) + Entries(ls[1..], section, inSection)
  }

  predicate HasBadHeader(ls: seq<Line>) {
    exists k :: 0 <= k < |ls| && ls[k].BadHeader?
  }

  /** The entry with a number: a bad header spoils only what comes after it. */
  function EntryAnswer(ls: seq<Line>, section: string, index: nat): Answer {
    var es := Entries(ls, section, section == "");
    if index < |es| then Found(es[index])
    else if HasBadHeader(ls) then Compromised else Missing
  }
}
