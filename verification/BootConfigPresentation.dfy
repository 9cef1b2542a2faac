/** Lookups do not depend on how the configuration is presented: line ends and empty or commented-out
    lines make no difference. */
module BootConfigPresentation {
  import opened Bytes
  import opened BootConfig
  import opened BootConfigLibrary
  import opened BootConfigReader

  // ----- line ends

  function LineEnd(c: char): string {
    if c == '\n' then "\r\n" else [c]
  }

  function ToCrlf(s: string): string {
    if s == "" then "" else LineEnd(s[0]) + ToCrlf(s[1..])
  }

  lemma {:induction false} TrimLeftSnoc(s: string, c: char)
    ensures TrimLeft(s + [c]) == if TrimLeft(s) == "" then TrimLeft([c]) else TrimLeft(s) + [c]
  {
    if s == "" {
      assert s + [c] == [c];
    } else if IsConfigSpace(s[0]) {
      TrimLeftSnoc(s[1..], c);
      assert (s + [c])[1..] == s[1..] + [c];
    }
  }

  lemma TrimCr(s: string)
    ensures Trim(s + "\r") == Trim(s)
  {
    TrimLeftSnoc(s, '\r');
    var t := TrimLeft(s);
    assert (t + "\r")[..|t|] == t;
    assert TrimLeft("\r") == TrimLeft("\r"[1..]) == "";
  }

  lemma {:induction false} CrlfOfLine(s: string)
    requires '\n' !in s
    ensures ToCrlf(s) == s
  {
    if s != "" {
      CrlfOfLine(s[1..]);
    }
  }

  lemma {:induction false} CrlfConcat(a: string, b: string)
    ensures ToCrlf(a + b) == ToCrlf(a) + ToCrlf(b)
  {
    hide LineEnd;
    if a == "" {
      assert a + b == b;
    } else {
      CrlfConcat(a[1..], b);
      assert (a + b)[0] == a[0] && (a + b)[1..] == a[1..] + b;
    }
  }

  /** The first line of a text and what follows it. */
  lemma FirstLine(line: string, rest: string)
    requires '\n' !in line
    ensures Lines(line + "\n" + rest) == [line] + Lines(rest)
  {
    var s := line + "\n" + rest;
    var i := IndexOf(s, '\n');
    assert s[|line|] == '\n';
    assert forall j :: 0 <= j < |line| ==> s[j] == line[j] && s[j] != '\n';
    assert s[..i] == line && s[i + 1..] == rest;
  }

  lemma CrlfOfFirstLine(line: string, rest: string)
    requires '\n' !in line
    ensures ToCrlf(line + "\n" + rest) == (line + "\r") + "\n" + ToCrlf(rest)
  {
    var s := line + "\n" + rest;
    assert s == line + ("\n" + rest);
    CrlfOfLine(line);
    CrlfConcat(line, "\n" + rest);
    CrlfAtLineEnd(rest);
  }

  lemma CrlfAtLineEnd(rest: string)
    ensures ToCrlf("\n" + rest) == "\r\n" + ToCrlf(rest)
  {
    assert ("\n" + rest)[1..] == rest;
  }

  /** Replacing every LF by CRLF keeps what every line is. */
  lemma {:induction false} CrlfKeepsLines(s: string)
    ensures Parse(ToCrlf(s)) == Parse(s)
    decreases |s|
  {
    hide Classify, Parse, ToCrlf;
    if s == "" {
      CrlfOfLine(s);
    } else {
      var i := IndexOf(s, '\n');
      if i == |s| {
        CrlfOfLine(s);
      } else {
        var line, rest := s[..i], s[i + 1..];
        assert s == line + "\n" + rest;
        CrlfKeepsLines(rest);
        CrlfOfFirstLine(line, rest);
        FirstParsed(line, rest);
        FirstParsed(line + "\r", ToCrlf(rest));
        ClassifyCr(line);
      }
    }
  }

  lemma FirstParsed(line: string, rest: string)
    requires '\n' !in line
    ensures Parse(line + "\n" + rest) == [Classify(line)] + Parse(rest)
  {
    hide Classify, ClassifyAll, Lines;
    FirstLine(line, rest);
    ClassifyCons(line, Lines(rest));
  }

  lemma ClassifyCr(line: string)
    ensures Classify(line + "\r") == Classify(line)
  {
    TrimCr(line);
  }

  lemma ClassifyCons(line: string, ls: seq<string>)
    ensures ClassifyAll([line] + ls) == [Classify(line)] + ClassifyAll(ls)
  {
    hide Classify;
  }

  lemma {:induction false} CrlfKeepsNul(s: string)
    ensures '\0' in ToCrlf(s) <==> '\0' in s
    ensures |ToCrlf(s)| >= |s| && (ToCrlf(s) == "" <==> s == "")
  {
    if s != "" {
      CrlfKeepsNul(s[1..]);
      assert '\0' in s <==> s[0] == '\0' || '\0' in s[1..];
    }
  }

  /** A text with CRLF line ends is answered as the one with LF, for as long as it is not too long. */
  lemma CrlfMakesNoDifference(config: string, section: string, key: string, index: nat)
    ensures TextValue(ToCrlf(config), section, key)
         == if |ToCrlf(config)| > MAX_SIZE then Compromised else TextValue(config, section, key)
    ensures TextEntry(ToCrlf(config), section, index)
         == if |ToCrlf(config)| > MAX_SIZE then Compromised else TextEntry(config, section, index)
  {
    hide Parse, Lookup, EntryAnswer, ToCrlf;
    CrlfKeepsLines(config);
    CrlfKeepsNul(config);
  }

  // ----- empty and commented-out lines

  /** Between two lines, or at either end of the file. */
  predicate Boundary(a: string) {
    a == "" || a[|a| - 1] == '\n'
  }

  lemma {:induction false} LinesAtBoundary(a: string, b: string)
    requires Boundary(a)
    ensures Lines(a + b) == Lines(a) + Lines(b)
    decreases |a|
  {
    hide Lines;
    if a == "" {
      assert a + b == b;
      LinesOfNothing();
    } else {
      var i := IndexOf(a, '\n');
      assert i < |a|;
      var line, rest := a[..i], a[i + 1..];
      assert a == line + "\n" + rest;
      assert a + b == line + "\n" + (rest + b);
      assert Boundary(rest);
      FirstLine(line, rest);
      FirstLine(line, rest + b);
      LinesAtBoundary(rest, b);
    }
  }

  lemma LinesOfNothing()
    ensures Lines("") == []
  {
  }

  lemma ParseAtBoundary(a: string, b: string)
    requires Boundary(a)
    ensures Parse(a + b) == Parse(a) + Parse(b)
  {
    hide Classify, ClassifyAll, Lines;
    LinesAtBoundary(a, b);
    ClassifyConcat(Lines(a), Lines(b));
  }

  lemma ParseAround(a: string, x: string, b: string)
    requires Boundary(a) && '\n' !in x
    ensures Parse(a + x + "\n" + b) == Parse(a) + [Classify(x)] + Parse(b)
  {
    hide Classify, Parse, Boundary;
    assert a + x + "\n" + b == a + (x + "\n" + b);
    ParseAtBoundary(a, x + "\n" + b);
    FirstParsed(x, b);
  }

  lemma ClassifyConcat(x: seq<string>, y: seq<string>)
    ensures ClassifyAll(x + y) == ClassifyAll(x) + ClassifyAll(y)
  {
    hide Classify;
  }

  /** Where line k of p + q is once a line was put between them. */
  function Moved(p: seq<Line>, k: nat): nat {
    if k < |p| then k else k + 1
  }

  lemma {:induction false} InSectionMoved(p: seq<Line>, q: seq<Line>, section: string, k: nat)
    requires k <= |p + q|
    ensures InSection(p + [Blank] + q, section, Moved(p, k)) == InSection(p + q, section, k)
    decreases k
  {
    hide SameName;
    var l, m := p + [Blank] + q, p + q;
    if k > 0 {
      InSectionMoved(p, q, section, k - 1);
      if k < |p| {
        assert l[k - 1] == m[k - 1];
      } else if k > |p| {
        assert l[k] == m[k - 1];
      } else {
        assert l[k] == Blank && l[k - 1] == m[k - 1];
        assert InSection(l, section, k + 1) == InSection(l, section, k);
      }
    } else if |p| == 0 {
      assert l[0] == Blank;
      assert InSection(l, section, 1) == InSection(l, section, 0);
    }
  }

  /** Matches and faults move along, and the new line is neither. */
  lemma MatchesMoved(p: seq<Line>, q: seq<Line>, section: string, key: string)
    ensures var l, m := p + [Blank] + q, p + q;
      && (forall k :: 0 <= k < |m| ==> m[k] == l[Moved(p, k)] && Matches(m, section, key, k) == Matches(l, section, key, Moved(p, k)))
      && !Matches(l, section, key, |p|) && !Faulty(l[|p|])
  {
    hide SameName, KeyOf;
    var l, m := p + [Blank] + q, p + q;
    forall k | 0 <= k < |m|
      ensures m[k] == l[Moved(p, k)] && Matches(m, section, key, k) == Matches(l, section, key, Moved(p, k))
    {
      InSectionMoved(p, q, section, k);
    }
    assert l[|p|] == Blank;
  }

  function Back(p: seq<Line>, k: nat): nat
    requires k != |p|
    ensures Moved(p, Back(p, k)) == k
  {
    if k < |p| then k else k - 1
  }

  lemma BlankKeepsFaults(p: seq<Line>, q: seq<Line>, section: string, key: string)
    ensures HasFault(p + [Blank] + q) <==> HasFault(p + q)
    ensures HasRepeat(p + [Blank] + q, section, key) <==> HasRepeat(p + q, section, key)
  {
    hide Matches, Faulty;
    var l, m := p + [Blank] + q, p + q;
    MatchesMoved(p, q, section, key);
    if k :| 0 <= k < |m| && Faulty(m[k]) {
      assert Faulty(l[Moved(p, k)]);
    }
    if k :| 0 <= k < |l| && Faulty(l[k]) {
      assert Faulty(m[Back(p, k)]);
    }
    if i, j :| 0 <= i < j < |m| && Matches(m, section, key, i) && Matches(m, section, key, j) {
      assert Matches(l, section, key, Moved(p, i)) && Matches(l, section, key, Moved(p, j));
    }
    if i, j :| 0 <= i < j < |l| && Matches(l, section, key, i) && Matches(l, section, key, j) {
      assert Matches(m, section, key, Back(p, i)) && Matches(m, section, key, Back(p, j));
    }
  }

  lemma BlankKeepsAnswer(p: seq<Line>, q: seq<Line>, section: string, key: string, a: Answer)
    ensures Answers(p + [Blank] + q, section, key, a) <==> Answers(p + q, section, key, a)
  {
    var l, m := p + [Blank] + q, p + q;
    MatchesMoved(p, q, section, key);
    BlankKeepsFaults(p, q, section, key);
    hide HasFault, HasRepeat, Faulty, ValueOf, InSection, SameName;
    match a
    case Compromised =>
    case Missing =>
      if k :| 0 <= k < |m| && Matches(m, section, key, k) {
        assert Matches(l, section, key, Moved(p, k));
      }
      if k :| 0 <= k < |l| && Matches(l, section, key, k) {
        assert Matches(m, section, key, Back(p, k));
      }
    case Found(v) =>
      if k :| 0 <= k < |m| && Matches(m, section, key, k) && v == ValueOf(m[k].text) {
        assert Matches(l, section, key, Moved(p, k));
      }
      if k :| 0 <= k < |l| && Matches(l, section, key, k) && v == ValueOf(l[k].text) {
        assert Matches(m, section, key, Back(p, k));
      }
  }

  lemma {:induction false} BlankKeepsEntries(p: seq<Line>, q: seq<Line>, section: string, inSection: bool)
    ensures Entries(p + [Blank] + q, section, inSection) == Entries(p + q, section, inSection)
    ensures HasBadHeader(p + [Blank] + q) <==> HasBadHeader(p + q)
  {
    hide EntryText, SameName;
    var l, m := p + [Blank] + q, p + q;
    if p == [] {
      assert m == q && l[1..] == q && l[0] == Blank;
      EntryTextOfBlank();
      assert Entries(l, section, inSection) == Entries(q, section, inSection);
      assert forall k :: 0 <= k < |q| ==> l[k + 1] == q[k];
    } else {
      assert l[1..] == p[1..] + [Blank] + q && m[1..] == p[1..] + q && l[0] == m[0] == p[0];
      BlankKeepsEntries(p[1..], q, section, if p[0].Header? then SameName(p[0].name, section) else inSection);
      BadHeaderCons(l);
      BadHeaderCons(m);
    }
  }

  lemma EntryTextOfBlank()
    ensures EntryText(Blank) == ""
  {
  }

  lemma BadHeaderCons(ls: seq<Line>)
    requires ls != []
    ensures HasBadHeader(ls) <==> ls[0].BadHeader? || HasBadHeader(ls[1..])
  {
    if k :| 0 <= k < |ls[1..]| && ls[1..][k].BadHeader? {
      assert ls[k + 1].BadHeader?;
    }
  }

  lemma BlankKeepsParsed(p: seq<Line>, q: seq<Line>, section: string, key: string, index: nat)
    ensures Lookup(p + [Blank] + q, section, key) == Lookup(p + q, section, key)
    ensures EntryAnswer(p + [Blank] + q, section, index) == EntryAnswer(p + q, section, index)
  {
    hide Answers, Lookup, Entries, HasBadHeader;
    var r := Lookup(p + q, section, key);
    BlankKeepsAnswer(p, q, section, key, r);
    OneAnswer(p + [Blank] + q, section, key, r);
    BlankKeepsEntries(p, q, section, section == "");
  }

  lemma BlankKeepsLookup(a: string, x: string, b: string, section: string, key: string, index: nat)
    requires Boundary(a) && '\n' !in x && Classify(x).Blank?
    ensures Lookup(Parse(a + x + "\n" + b), section, key) == Lookup(Parse(a + b), section, key)
    ensures EntryAnswer(Parse(a + x + "\n" + b), section, index) == EntryAnswer(Parse(a + b), section, index)
  {
    hide Parse, Lookup, EntryAnswer;
    ParseAtBoundary(a, b);
    ParseAround(a, x, b);
    BlankKeepsParsed(Parse(a), Parse(b), section, key, index);
  }

  /** A last line is the same with a line end behind it and without. */
  lemma {:induction false} LastLineEnds(a: string)
    requires !Boundary(a)
    ensures Lines(a + "\n") == Lines(a)
    decreases |a|
  {
    hide Lines;
    var i := IndexOf(a, '\n');
    if i == |a| {
      assert a + "\n" == a + "\n" + "";
      FirstLine(a, "");
      LinesOfNothing();
      OnlyLine(a);
    } else {
      var line, rest := a[..i], a[i + 1..];
      assert a == line + "\n" + rest && a + "\n" == line + "\n" + (rest + "\n");
      FirstLine(line, rest);
      FirstLine(line, rest + "\n");
      LastLineEnds(rest);
    }
  }

  lemma OnlyLine(a: string)
    requires a != "" && IndexOf(a, '\n') == |a|
    ensures Lines(a) == [a]
  {
    LinesOfNothing();
  }

  /** What follows a text when it is given another line, without a line end. */
  function Tail(a: string, x: string): seq<Line> {
    (if Boundary(a) then [Blank] else []) + (if x == "" then [] else [Blank])
  }

  lemma ParseLast(a: string, x: string)
    requires '\n' !in x && Classify(x).Blank?
    ensures Parse(a + "\n" + x) == Parse(a) + Tail(a, x)
  {
    hide Classify, ClassifyAll, Lines, Parse;
    ParseAtBoundary(a + "\n", x);
    ParseBlank(x);
    if Boundary(a) {
      ParseAtBoundary(a, "\n");
      ParseLineEnd();
    } else {
      SameLines(a);
    }
  }

  lemma SameLines(a: string)
    requires !Boundary(a)
    ensures Parse(a + "\n") == Parse(a)
  {
    LastLineEnds(a);
  }

  lemma ParseLineEnd()
    ensures Parse("\n") == [Blank]
  {
    hide Lines;
    assert "\n" == "" + "\n" + "";
    FirstLine("", "");
    LinesOfNothing();
  }

  lemma ParseBlank(x: string)
    requires '\n' !in x && Classify(x).Blank?
    ensures Parse(x) == if x == "" then [] else [Blank]
  {
    hide Classify, Lines;
    if x == "" {
      LinesOfNothing();
    } else {
      OnlyLine(x);
    }
  }

  lemma TailKeepsLookup(a: string, x: string, section: string, key: string, index: nat)
    requires '\n' !in x && Classify(x).Blank?
    ensures Lookup(Parse(a + "\n" + x), section, key) == Lookup(Parse(a), section, key)
    ensures EntryAnswer(Parse(a + "\n" + x), section, index) == EntryAnswer(Parse(a), section, index)
  {
    hide Parse, Lookup, EntryAnswer, Boundary;
    ParseLast(a, x);
    BlankTail(Parse(a), Tail(a, x), section, key, index);
  }

  lemma {:induction false} BlankTail(p: seq<Line>, t: seq<Line>, section: string, key: string, index: nat)
    requires forall i :: 0 <= i < |t| ==> t[i] == Blank
    ensures Lookup(p + t, section, key) == Lookup(p, section, key)
    ensures EntryAnswer(p + t, section, index) == EntryAnswer(p, section, index)
    decreases |t|
  {
    hide Lookup, EntryAnswer;
    if t == [] {
      assert p + t == p;
    } else {
      BlankTail(p + [Blank], t[1..], section, key, index);
      assert t[0] == Blank;
      assert p + t == p + [Blank] + t[1..];
      BlankKeepsParsed(p, [], section, key, index);
      assert p + [Blank] + [] == p + [Blank] && p + [] == p;
    }
  }

  lemma NothingFound(section: string, key: string, index: nat)
    ensures Lookup(Parse(""), section, key) == Missing && EntryAnswer(Parse(""), section, index) == Missing
  {
    LinesOfNothing();
    assert Parse("") == [];
    assert Answers([], section, key, Missing);
    OneAnswer([], section, key, Missing);
  }

  /** An empty or commented-out line at any line boundary changes neither answer, unless it brings a NUL
      or makes the text too long; a text of nothing else has nothing to find. */
  lemma BlankLinesMakeNoDifference(a: string, x: string, b: string, section: string, key: string, index: nat)
    requires Boundary(a) && '\n' !in x && Classify(x).Blank?
    ensures var t := a + x + "\n" + b;
      && TextValue(t, section, key)
         == (if |t| > MAX_SIZE || '\0' in x then Compromised
             else if a + b == "" then Missing else TextValue(a + b, section, key))
      && TextEntry(t, section, index)
         == (if |t| > MAX_SIZE || '\0' in x then Compromised
             else if a + b == "" then Missing else TextEntry(a + b, section, index))
  {
    hide Parse, Lookup, EntryAnswer, Boundary, Classify;
    BlankKeepsLookup(a, x, b, section, key, index);
    NothingFound(section, key, index);
    NulAround(a, x, b);
  }

  /** So does one behind the end of a text, whether or not the last line of that has a line end, and without
      a line end of its own. */
  lemma BlankLastLineMakesNoDifference(a: string, x: string, section: string, key: string, index: nat)
    requires '\n' !in x && Classify(x).Blank?
    ensures var t := a + "\n" + x;
      && TextValue(t, section, key)
         == (if |t| > MAX_SIZE || '\0' in x then Compromised
             else if a == "" then Missing else TextValue(a, section, key))
      && TextEntry(t, section, index)
         == (if |t| > MAX_SIZE || '\0' in x then Compromised
             else if a == "" then Missing else TextEntry(a, section, index))
  {
    hide Parse, Lookup, EntryAnswer, Boundary, Classify;
    TailKeepsLookup(a, x, section, key, index);
    NothingFound(section, key, index);
    assert forall c :: c in a + "\n" + x <==> c in a || c in "\n" || c in x;
  }

  lemma NulAround(a: string, x: string, b: string)
    ensures '\0' in a + x + "\n" + b <==> '\0' in x || '\0' in a + b
  {
    var t := a + x + "\n" + b;
    assert t == a + (x + ("\n" + b));
    assert forall c :: c in t <==> c in a || c in x || c in "\n" || c in b;
  }

  /** Only a comment with a NUL in it spoils an answer. */
  lemma NulInCommentSpoils(a: string, b: string, section: string, key: string)
    requires Boundary(a)
    ensures TextValue(a + "#\0" + "\n" + b, section, key) == Compromised
  {
    var x := "#\0";
    assert x[0] == '#' && TrimLeft(x) == x;
    assert TrimRight(x) == x;
    BlankLinesMakeNoDifference(a, x, b, section, key, 0);
  }
}
