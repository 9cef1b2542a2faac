/** What may stand in a boot configuration, in the terms of who writes one: quotes and comments, spaces and
    the case of letters, and whole texts of sections and settings. */
module BootConfigValues {
  import opened Bytes
  import opened BootConfig
  import opened BootConfigLibrary
  import opened BootConfigPresentation
  import opened BootConfigReader
  import opened BootConfigScan

  predicate Space(c: char) {
    c == ' ' || c == '\t' || c == '\r'
  }

  /** Without spaces at either end. */
  predicate Tight(s: string) {
    s != "" ==> !Space(s[0]) && !Space(s[|s| - 1])
  }

  // ----- quotes and comments

  predicate Plain(s: string) {
    '"' !in s && '\\' !in s
  }

  predicate NoMark(s: string) {
    '#' !in s && ';' !in s
  }

  /** A comment as it is put behind something. */
  predicate IsComment(s: string) {
    |s| >= 2 && (s[0] == ' ' || s[0] == '\t') && (s[1] == '#' || s[1] == ';')
  }

  /** Between quotes and backslashes the quoting stays as it is. */
  lemma {:induction false} QuotingOver(s: string, i: nat, n: nat, q: bool)
    requires i + n <= |s| && QuotingAt(s, i) == Quoting(q, false)
    requires forall j :: i <= j < i + n ==> s[j] != '"' && s[j] != '\\'
    ensures forall j :: i <= j <= i + n ==> QuotingAt(s, j) == Quoting(q, false)
  {
    hide QuotingAt;
    if n > 0 {
      QuotingOver(s, i, n - 1, q);
      QuotingStep(s, i + n - 1);
    }
  }

  lemma PlainAt(p: string, x: string, rest: string)
    requires Plain(x)
    ensures forall j :: |p| <= j < |p| + |x| ==> (p + x + rest)[j] != '"' && (p + x + rest)[j] != '\\'
  {
    var s := p + x + rest;
    assert forall j :: |p| <= j < |p| + |x| ==> s[j] == x[j - |p|];
  }

  lemma Cut(s: string, n: nat)
    requires n < |s| && CommentStarts(s, n) && forall j :: 0 <= j < n ==> !CommentStarts(s, j)
    ensures WithoutComment(s) == Trim(s[..n])
  {
    hide CommentStarts;
    FirstComment(s, n);
  }

  /** A text with a comment behind it loses the comment, and the space in front of that. */
  lemma CutComment(t: string, comment: string)
    requires IsComment(comment) && t != "" && Tight(t)
    requires QuotingAt(t + comment, |t|) == Quoting(false, false)
    requires forall j :: 0 <= j < |t| ==> !CommentStarts(t + comment, j)
    ensures WithoutComment(t + comment) == t
  {
    hide QuotingAt, Trim;
    var s, n := t + comment, |t|;
    assert s[n] == comment[0] && s[n + 1] == comment[1];
    QuotingStep(s, n);
    assert s[..n + 1][..n] == t;
    assert s[..n + 1] == t + [comment[0]];
    TrimOf(s[..n + 1], 0, n);
    Cut(s, n + 1);
  }

  /** Quotes close: what stands between them may have marks behind spaces, and the comment starts behind. */
  lemma CommentBehindQuotes(p: string, body: string, comment: string)
    requires Plain(p) && NoMark(p) && Plain(body) && IsComment(comment)
    requires p != "" ==> !Space(p[0])
    ensures WithoutComment(p + "\"" + body + "\"" + comment) == p + "\"" + body + "\""
  {
    hide QuotingAt, CommentStarts, WithoutComment;
    var t := p + "\"" + body + "\"";
    var s := t + comment;
    ClosedQuotes(p, body, comment);
    CutComment(t, comment);
  }

  lemma ClosedQuotes(p: string, body: string, rest: string)
    requires Plain(p) && NoMark(p) && Plain(body)
    ensures var t := p + "\"" + body + "\"";
      QuotingAt(t + rest, |t|) == Quoting(false, false) && forall j :: 0 <= j < |t| ==> !CommentStarts(t + rest, j)
  {
    hide QuotingAt;
    var t := p + "\"" + body + "\"";
    var s := t + rest;
    var open, close := |p|, |p| + 1 + |body|;
    assert s == "" + p + ("\"" + body + "\"" + rest);
    assert s == (p + "\"") + body + ("\"" + rest);
    PlainAt("", p, "\"" + body + "\"" + rest);
    PlainAt(p + "\"", body, "\"" + rest);
    QuotingStart(s);
    QuotingOver(s, 0, open, false);
    assert s[open] == '"' && s[close] == '"';
    QuotingStep(s, open);
    QuotingOver(s, open + 1, |body|, true);
    QuotingStep(s, close);
    assert forall j :: 0 <= j < open ==> s[j] == p[j];
  }

  /** An escaped quote does not close them. */
  lemma CommentBehindEscapedQuote(p: string, left: string, right: string, comment: string)
    requires Plain(p) && NoMark(p) && Plain(left) && Plain(right) && IsComment(comment)
    requires p != "" ==> !Space(p[0])
    ensures var t := p + "\"" + left + "\\\"" + right + "\"";
      WithoutComment(t + comment) == t
  {
    hide QuotingAt, CommentStarts, WithoutComment;
    var t := p + "\"" + left + "\\\"" + right + "\"";
    EscapedQuotes(p, left, right, comment);
    CutComment(t, comment);
  }

  lemma EscapedQuotes(p: string, left: string, right: string, rest: string)
    requires Plain(p) && NoMark(p) && Plain(left) && Plain(right)
    ensures var t := p + "\"" + left + "\\\"" + right + "\"";
      QuotingAt(t + rest, |t|) == Quoting(false, false) && forall j :: 0 <= j < |t| ==> !CommentStarts(t + rest, j)
  {
    hide QuotingAt;
    var t := p + "\"" + left + "\\\"" + right + "\"";
    var s := t + rest;
    var open, escape := |p|, |p| + 1 + |left|;
    var close := escape + 2 + |right|;
    assert s == "" + p + ("\"" + left + "\\\"" + right + "\"" + rest);
    assert s == (p + "\"") + left + ("\\\"" + right + "\"" + rest);
    assert s == (p + "\"" + left + "\\\"") + right + ("\"" + rest);
    PlainAt("", p, "\"" + left + "\\\"" + right + "\"" + rest);
    PlainAt(p + "\"", left, "\\\"" + right + "\"" + rest);
    PlainAt(p + "\"" + left + "\\\"", right, "\"" + rest);
    QuotingStart(s);
    QuotingOver(s, 0, open, false);
    assert s[open] == '"' && s[escape] == '\\' && s[escape + 1] == '"' && s[close] == '"';
    QuotingStep(s, open);
    QuotingOver(s, open + 1, |left|, true);
    QuotingStep(s, escape);
    QuotingStep(s, escape + 1);
    QuotingOver(s, escape + 2, |right|, true);
    QuotingStep(s, close);
    assert forall j :: 0 <= j < open ==> s[j] == p[j];
  }

  /** Without quotes, the comment starts at the first mark that stands in front or behind a space. */
  predicate NoComment(v: string) {
    forall i :: 0 <= i < |v| && (v[i] == '#' || v[i] == ';') ==> i > 0 && !Space(v[i - 1])
  }

  lemma CommentBehindPlain(v: string, comment: string)
    requires Plain(v) && v != "" && Tight(v) && NoComment(v) && IsComment(comment)
    ensures WithoutComment(v + comment) == v
  {
    hide QuotingAt, WithoutComment;
    PlainHasNoComment(v, comment);
    CutComment(v, comment);
  }

  lemma PlainHasNoComment(v: string, rest: string)
    requires Plain(v) && NoComment(v)
    ensures QuotingAt(v + rest, |v|) == Quoting(false, false) && forall j :: 0 <= j < |v| ==> !CommentStarts(v + rest, j)
  {
    hide QuotingAt;
    var s := v + rest;
    assert s == "" + v + rest;
    PlainAt("", v, rest);
    QuotingStart(s);
    QuotingOver(s, 0, |v|, false);
    assert forall j :: 0 <= j < |v| ==> s[j] == v[j];
  }

  lemma PlainStays(v: string)
    requires Plain(v) && Tight(v) && NoComment(v)
    ensures WithoutComment(v) == v
  {
    hide QuotingAt, CommentStarts;
    PlainHasNoComment(v, "");
    assert v + "" == v;
    BootConfigScan.NoComment(v);
    TrimTight(v);
  }

  lemma QuotedStays(p: string, body: string)
    requires Plain(p) && NoMark(p) && Plain(body) && (p != "" ==> !Space(p[0]))
    ensures WithoutComment(p + "\"" + body + "\"") == p + "\"" + body + "\""
  {
    hide QuotingAt, CommentStarts;
    var t := p + "\"" + body + "\"";
    ClosedQuotes(p, body, "");
    assert t + "" == t;
    BootConfigScan.NoComment(t);
    TrimTight(t);
  }

  // ----- spaces, and the case of letters

  lemma TrimTight(s: string)
    requires Tight(s)
    ensures Trim(s) == s
  {
    TrimOf(s, 0, |s|);
    assert s[0..|s|] == s;
  }

  /** Spaces, tabs and carriage returns at either end make no difference, and nothing else is taken off. */
  lemma SpacesAround(left: string, s: string, right: string)
    requires Tight(s) && (forall c :: c in left + right ==> Space(c))
    ensures Trim(left + s + right) == s
  {
    var t := left + s + right;
    if s == "" {
      assert forall i :: 0 <= i < |t| ==> t[i] in left + right;
      TrimOf(t, 0, 0);
    } else {
      assert forall i :: 0 <= i < |left| ==> t[i] == left[i] && left[i] in left + right;
      assert forall i :: 0 <= i < |right| ==> t[|left| + |s| + i] == right[i] && right[i] in left + right;
      assert t[|left|] == s[0] && t[|left| + |s| - 1] == s[|s| - 1];
      TrimOf(t, |left|, |left| + |s|);
      assert t[|left|..|left| + |s|] == s;
    }
  }

  /** Two letters that differ in case only; the capitals are 65 to 90, and 32 in front of the others. */
  predicate OtherCase(a: char, b: char) {
    (65 <= a as int <= 90 && b as int == a as int + 32) || (65 <= b as int <= 90 && a as int == b as int + 32)
  }

  lemma SameNameIs(a: string, b: string)
    ensures SameName(a, b) <==> |a| == |b| && forall i :: 0 <= i < |a| ==> a[i] == b[i] || OtherCase(a[i], b[i])
  {
  }

  // ----- values and entries

  /** What is behind the equals sign, with spaces around it and a comment behind. */
  lemma ValueIs(key: string, left: string, t: string, right: string)
    requires '=' !in key && Tight(t) && (forall c :: c in left + right ==> Space(c))
    ensures KeyOf(key + "=" + left + t + right).Some?
    ensures ValueOf(key + "=" + left + t + right) == WithoutComment(t)
  {
    hide Trim, WithoutComment;
    var text := key + "=" + left + t + right;
    assert text[|key|] == '=' && forall j :: 0 <= j < |key| ==> text[j] == key[j];
    IndexOfFirst(text, '=', |key|);
    assert text[|key| + 1..] == left + t + right;
    SpacesAround(left, t, right);
  }

  /** A quoted value: its marks stay, the comment goes. */
  lemma QuotedValue(key: string, left: string, body: string, comment: string, right: string)
    requires '=' !in key && Plain(body) && IsComment(comment) && !Space(comment[|comment| - 1])
    requires forall c :: c in left + right ==> Space(c)
    ensures var t := "\"" + body + "\"";
      KeyOf(key + "=" + left + (t + comment) + right).Some? && ValueOf(key + "=" + left + (t + comment) + right) == t
  {
    hide ValueOf, KeyOf, WithoutComment, CommentAt;
    var t := "\"" + body + "\"";
    assert "" + "\"" + body + "\"" == t;
    CommentBehindQuotes("", body, comment);
    ValueIs(key, left, t + comment, right);
  }

  /** And with an escaped quote in it. */
  lemma EscapedQuoteInValue(key: string, left: string, b: string, d: string, comment: string, right: string)
    requires '=' !in key && Plain(b) && Plain(d) && IsComment(comment) && !Space(comment[|comment| - 1])
    requires forall c :: c in left + right ==> Space(c)
    ensures var t := "\"" + b + "\\\"" + d + "\"";
      KeyOf(key + "=" + left + (t + comment) + right).Some? && ValueOf(key + "=" + left + (t + comment) + right) == t
  {
    hide ValueOf, KeyOf, WithoutComment, CommentAt;
    var t := "\"" + b + "\\\"" + d + "\"";
    assert "" + "\"" + b + "\\\"" + d + "\"" == t;
    CommentBehindEscapedQuote("", b, d, comment);
    ValueIs(key, left, t + comment, right);
  }

  /** The same in an entry, whatever stands in front of the quotes. */
  lemma QuotedEntry(p: string, body: string, comment: string)
    requires Plain(p) && NoMark(p) && Plain(body) && IsComment(comment) && (p != "" ==> !Space(p[0]))
    ensures EntryText(Item(p + "\"" + body + "\"" + comment)) == p + "\"" + body + "\""
  {
    hide WithoutComment;
    CommentBehindQuotes(p, body, comment);
  }

  // ----- headers

  /** Behind a closed header only a comment may stand. */
  lemma HeaderIs(name: string, left: string, rest: string)
    requires ']' !in name && Tight(rest) && (forall c :: c in left ==> Space(c)) && (rest == "" ==> left == "")
    ensures Classify("[" + name + "]" + left + rest)
         == if rest == "" || rest[0] == '#' || rest[0] == ';' then Header(Trim(name)) else BadHeader
  {
    hide Trim;
    var t := "[" + name + "]" + left + rest;
    TrimTight(t);
    assert t[1..] == name + "]" + left + rest && t[1..][|name|] == ']';
    IndexOfFirst(t[1..], ']', |name|);
    assert t[1..|name| + 1] == name && t[|name| + 2..] == left + rest;
    SpacesInFront(left, rest);
  }

  lemma UnclosedHeader(name: string)
    requires ']' !in name && Tight("[" + name)
    ensures Classify("[" + name) == BadHeader
  {
    hide Trim;
    TrimTight("[" + name);
    assert ("[" + name)[1..] == name;
  }

  lemma SpacesInFront(left: string, s: string)
    requires (forall c :: c in left ==> Space(c)) && (s != "" ==> !Space(s[0]))
    ensures TrimLeft(left + s) == s
  {
    var t := left + s;
    assert forall i :: 0 <= i < |left| ==> t[i] == left[i] && left[i] in left;
    assert s != "" ==> t[|left|] == s[0];
    TrimLeftOf(t, |left|);
    assert t[|left|..] == s;
  }

  // ----- whole texts

  /** What a text is written of. */
  datatype Written = Section(name: string) | Setting(key: string, value: string)

  predicate OneLine(s: string) {
    Tight(s) && '\n' !in s && '\0' !in s
  }

  predicate Quoted(v: string) {
    |v| >= 2 && v[0] == '"' && v[|v| - 1] == '"' && Plain(v[1..|v| - 1])
  }

  /** Names without what ends them, keys without quotes and marks, values that are quoted or have no comment. */
  predicate Good(w: Written) {
    match w
    case Section(name) => OneLine(name) && ']' !in name
    case Setting(key, value) =>
      && OneLine(key) && key != "" && Plain(key) && NoMark(key) && '=' !in key && key[0] != '['
      && OneLine(value) && (Quoted(value) || (Plain(value) && NoComment(value)))
  }

  function LineOf(w: Written): string {
    match w
    case Section(name) => "[" + name + "]"
    case Setting(key, value) => key + "=" + value
  }

  function Render(ws: seq<Written>): string {
    if ws == [] then "" else LineOf(ws[0]) + "\n" + Render(ws[1..])
  }

  lemma SectionLine(name: string)
    requires Good(Section(name))
    ensures Classify("[" + name + "]") == Header(name)
  {
    hide Classify;
    assert "[" + name + "]" + "" + "" == "[" + name + "]";
    HeaderIs(name, "", "");
    TrimTight(name);
  }

  lemma SettingLine(key: string, value: string)
    requires Good(Setting(key, value))
    ensures Classify(key + "=" + value) == Item(key + "=" + value)
    ensures KeyOf(key + "=" + value) == Some(key) && ValueOf(key + "=" + value) == value
    ensures EntryText(Item(key + "=" + value)) == key + "=" + value
  {
    hide WithoutComment, Trim, KeyOf, ValueOf;
    SettingIsItem(key, value);
    SettingHasKey(key, value);
    assert key + "=" + "" + value + "" == key + "=" + value;
    ValueIs(key, "", value, "");
    ValueStays(value);
    SettingStays(key, value);
  }

  lemma SettingIsItem(key: string, value: string)
    requires Good(Setting(key, value))
    ensures Classify(key + "=" + value) == Item(key + "=" + value)
  {
    hide Trim;
    var t := key + "=" + value;
    assert t[0] == key[0] && (value != "" ==> t[|t| - 1] == value[|value| - 1]);
    TrimTight(t);
  }

  lemma SettingHasKey(key: string, value: string)
    requires Good(Setting(key, value))
    ensures KeyOf(key + "=" + value) == Some(key)
  {
    hide Trim;
    var t := key + "=" + value;
    TrimTight(key);
    assert t[..|key|] == key && t[|key|] == '=' && forall j :: 0 <= j < |key| ==> t[j] == key[j];
    IndexOfFirst(t, '=', |key|);
  }

  lemma ValueStays(value: string)
    requires Tight(value) && (Quoted(value) || (Plain(value) && NoComment(value)))
    ensures WithoutComment(value) == value
  {
    hide WithoutComment;
    if Quoted(value) {
      assert value == "" + "\"" + value[1..|value| - 1] + "\"";
      QuotedStays("", value[1..|value| - 1]);
    } else {
      PlainStays(value);
    }
  }

  lemma SettingStays(key: string, value: string)
    requires Good(Setting(key, value))
    ensures WithoutComment(key + "=" + value) == key + "=" + value
  {
    hide WithoutComment;
    var t := key + "=" + value;
    if Quoted(value) {
      assert t == (key + "=") + "\"" + value[1..|value| - 1] + "\"";
      QuotedStays(key + "=", value[1..|value| - 1]);
    } else {
      assert forall i :: 0 <= i < |key| ==> t[i] == key[i];
      assert forall i :: 0 <= i < |value| ==> t[|key| + 1 + i] == value[i];
      PlainStays(t);
    }
  }

  /** The line that is read where something was written. */
  function LineRead(w: Written): Line {
    match w
    case Section(name) => Header(name)
    case Setting(key, value) => Item(key + "=" + value)
  }

  function LinesRead(ws: seq<Written>): (ls: seq<Line>)
    ensures |ls| == |ws| && forall i :: 0 <= i < |ls| ==> ls[i] == LineRead(ws[i])
  {
    seq(|ws|, i requires 0 <= i < |ws| => LineRead(ws[i]))
  }

  predicate AllGood(ws: seq<Written>) {
    forall i :: 0 <= i < |ws| ==> Good(ws[i])
  }

  lemma LineOfIs(w: Written)
    requires Good(w)
    ensures '\n' !in LineOf(w) && '\0' !in LineOf(w) && Classify(LineOf(w)) == LineRead(w)
  {
    hide Classify;
    match w
    case Section(name) => SectionLine(name);
    case Setting(key, value) => SettingLine(key, value);
  }

  /** Each thing that is written is read as one line. */
  lemma {:induction false} RenderParses(ws: seq<Written>)
    requires AllGood(ws)
    ensures Parse(Render(ws)) == LinesRead(ws) && '\0' !in Render(ws)
  {
    hide Classify, Parse, LineOf, Good;
    if ws == [] {
      ParseNothing();
    } else {
      LineOfIs(ws[0]);
      RenderParses(ws[1..]);
      FirstParsed(LineOf(ws[0]), Render(ws[1..]));
      assert LinesRead(ws) == [LineRead(ws[0])] + LinesRead(ws[1..]);
    }
  }

  lemma ParseNothing()
    ensures Parse("") == []
  {
    LinesOfNothing();
  }

  predicate SameLetters(a: string, b: string) {
    |a| == |b| && forall i :: 0 <= i < |a| ==> a[i] == b[i] || OtherCase(a[i], b[i])
  }

  /** The section that setting i is in: the last one before it, or the one without a name. */
  function SectionAt(ws: seq<Written>, i: nat): string
    requires i <= |ws|
  {
    if i == 0 then "" else if ws[i - 1].Section? then ws[i - 1].name else SectionAt(ws, i - 1)
  }

  predicate IsSetting(ws: seq<Written>, section: string, key: string, i: nat) {
    i < |ws| && ws[i].Setting? && SameLetters(ws[i].key, key) && SameLetters(SectionAt(ws, i), section)
  }

  lemma {:induction false} SectionRead(ws: seq<Written>, section: string, i: nat)
    requires i <= |ws|
    ensures InSection(LinesRead(ws), section, i) <==> SameLetters(SectionAt(ws, i), section)
    decreases i
  {
    hide SameLetters, SameName;
    if i == 0 {
      NameOfNothing(section);
    } else if ws[i - 1].Section? {
      SameNameIs(ws[i - 1].name, section);
      LettersAre(ws[i - 1].name, section);
    } else {
      SectionRead(ws, section, i - 1);
    }
  }

  lemma NameOfNothing(section: string)
    ensures SameLetters("", section) <==> section == ""
  {
  }

  lemma LettersAre(a: string, b: string)
    ensures SameLetters(a, b) <==> SameName(a, b)
  {
    SameNameIs(a, b);
  }

  /** Line i is read as what was written there. */
  predicate ReadAsWritten(ws: seq<Written>, section: string, key: string, i: nat)
    requires i < |ws|
  {
    var ls := LinesRead(ws);
    && Matches(ls, section, key, i) == IsSetting(ws, section, key, i)
    && !Faulty(ls[i])
    && (ws[i].Setting? ==> KeyOf(ls[i].text).Some? && ValueOf(ls[i].text) == ws[i].value)
  }

  lemma SettingRead(ws: seq<Written>, section: string, key: string, i: nat)
    requires AllGood(ws) && i < |ws|
    ensures ReadAsWritten(ws, section, key, i)
  {
    hide SameLetters, SameName, KeyOf, ValueOf, InSection, SectionAt;
    assert Good(ws[i]);
    SectionRead(ws, section, i);
    if ws[i].Setting? {
      SettingLine(ws[i].key, ws[i].value);
      LettersAre(ws[i].key, key);
    }
  }

  /** Setting i is the only one of its name in its section. */
  predicate OnlyOne(ws: seq<Written>, section: string, key: string, i: nat) {
    IsSetting(ws, section, key, i) && forall j: nat | j < |ws| :: IsSetting(ws, section, key, j) ==> j == i
  }

  /** A setting that was written once is found with its value. */
  lemma WrittenIsFound(ws: seq<Written>, section: string, key: string, i: nat)
    requires AllGood(ws) && |Render(ws)| <= MAX_SIZE && OnlyOne(ws, section, key, i)
    ensures TextValue(Render(ws), section, key) == Found(ws[i].value)
  {
    hide Parse, Faulty, Matches, ValueOf, KeyOf, Good, Lookup, LineOf, SectionAt, SameLetters;
    WrittenLines(ws, section, key);
    assert ReadAsWritten(ws, section, key, i);
    assert Matches(LinesRead(ws), section, key, i);
    OneAnswer(LinesRead(ws), section, key, Found(ws[i].value));
  }

  /** One that was not written is missing. */
  lemma UnwrittenIsMissing(ws: seq<Written>, section: string, key: string)
    requires AllGood(ws) && ws != [] && |Render(ws)| <= MAX_SIZE
    requires forall i: nat | i < |ws| :: !IsSetting(ws, section, key, i)
    ensures TextValue(Render(ws), section, key) == Missing
  {
    hide Parse, Faulty, Matches, IsSetting, ValueOf, KeyOf, Good, Lookup, LineOf;
    WrittenLines(ws, section, key);
    OneAnswer(LinesRead(ws), section, key, Missing);
  }

  /** One that was written twice spoils its lookup. */
  lemma WrittenTwiceSpoils(ws: seq<Written>, section: string, key: string, i: nat, j: nat)
    requires AllGood(ws) && |Render(ws)| <= MAX_SIZE
    requires i < j && IsSetting(ws, section, key, i) && IsSetting(ws, section, key, j)
    ensures TextValue(Render(ws), section, key) == Compromised
  {
    hide Parse, Faulty, Matches, ValueOf, KeyOf, Good, Lookup, LineOf, SectionAt, SameLetters;
    WrittenLines(ws, section, key);
    assert ReadAsWritten(ws, section, key, i) && ReadAsWritten(ws, section, key, j);
    OneAnswer(LinesRead(ws), section, key, Compromised);
  }

  lemma WrittenLines(ws: seq<Written>, section: string, key: string)
    requires AllGood(ws) && ws != [] && |Render(ws)| <= MAX_SIZE
    ensures forall i: nat | i < |ws| :: ReadAsWritten(ws, section, key, i)
    ensures forall i: nat | i < |ws| :: Matches(LinesRead(ws), section, key, i) == IsSetting(ws, section, key, i)
    ensures !HasFault(LinesRead(ws))
    ensures TextValue(Render(ws), section, key) == Lookup(LinesRead(ws), section, key)
  {
    hide Parse, Matches, IsSetting, Faulty, KeyOf, ValueOf, Good, Lookup, LineOf;
    RenderParses(ws);
    forall i: nat | i < |ws|
      ensures ReadAsWritten(ws, section, key, i)
    {
      SettingRead(ws, section, key, i);
    }
    assert forall i: nat | i < |ws| :: ReadAsWritten(ws, section, key, i);
    forall i: nat | i < |ws|
      ensures Matches(LinesRead(ws), section, key, i) == IsSetting(ws, section, key, i) && !Faulty(LinesRead(ws)[i])
    {
      assert ReadAsWritten(ws, section, key, i);
    }
  }

  // ----- entries by number

  /** The settings of a section in order, from a place in the given section on. */
  function SettingsOf(ws: seq<Written>, current: string, section: string): seq<string> {
    if ws == [] then []
    else if ws[0].Section? then SettingsOf(ws[1..], ws[0].name, section)
    else (if SameLetters(current, section) then [LineOf(ws[0])] else []) + SettingsOf(ws[1..], current, section)
  }

  lemma {:induction false} EntriesAre(ws: seq<Written>, current: string, section: string)
    requires AllGood(ws)
    ensures Entries(LinesRead(ws), section, SameName(current, section)) == SettingsOf(ws, current, section)
    ensures !HasBadHeader(LinesRead(ws))
  {
    hide SameLetters, SameName, EntryText;
    if ws != [] {
      var ls := LinesRead(ws);
      assert ls[1..] == LinesRead(ws[1..]);
      assert Good(ws[0]);
      LettersAre(current, section);
      if ws[0].Section? {
        EntriesAre(ws[1..], ws[0].name, section);
      } else {
        SettingLine(ws[0].key, ws[0].value);
        EntriesAre(ws[1..], current, section);
      }
    }
  }

  /** The entry with a number is the setting with that number in its section. */
  lemma EntryIsRead(ws: seq<Written>, section: string, index: nat)
    requires AllGood(ws) && ws != [] && |Render(ws)| <= MAX_SIZE
    ensures var es := SettingsOf(ws, "", section);
      TextEntry(Render(ws), section, index) == if index < |es| then Found(es[index]) else Missing
  {
    hide Parse, Good, LineOf, SettingsOf, Entries, HasBadHeader, SameName;
    RenderParses(ws);
    EntriesAre(ws, "", section);
    NameOfNothing(section);
    LettersAre("", section);
  }
}
