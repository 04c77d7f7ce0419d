/** Service messages for a build server: values are escaped so that a reader of the whole
    output can find the messages among other text and recover every value. */
module TeamCity {
  import opened Octets

  // ---- Escaping ----

  /** The letter that stands for a character behind the bar; None if it is written as it is. */
  function Code(c: char): Option<char> {
    match c
    case '\n' => Some('n')
    case '\r' => Some('r')
    case '\'' => Some('\'')
    case '|' => Some('|')
    case ']' => Some(']')
    case _ => None
  }

  function EscapeChar(c: char): string {
    if Code(c).Some? then ['|', Code(c).value] else [c]
  }

  function Escaped(s: string): string {
    if s == [] then [] else EscapeChar(s[0]) + Escaped(s[1..])
  }

  lemma {:induction false} EscapeSnoc(s: string, c: char)
    ensures Escaped(s + [c]) == Escaped(s) + EscapeChar(c)
    decreases |s|
  {
    if s == [] {
      assert [c][1..] == [] && EscapeChar(c) + [] == EscapeChar(c);
    } else {
      assert (s + [c])[1..] == s[1..] + [c];
      EscapeSnoc(s[1..], c);
    }
  }

  // ---- A reader's view of a value ----

  function Decode(c: char): Option<char> {
    match c
    case 'n' => Some('\n')
    case 'r' => Some('\r')
    case '\'' => Some('\'')
    case '|' => Some('|')
    case ']' => Some(']')
    case _ => None
  }

  /** A value up to its closing quote, and what follows. A line break or a bracket that is
      not behind a bar makes the text unreadable. */
  function ReadValue(s: string): Option<(string, string)> {
    if s == [] then None
    else if s[0] == '\'' then Some(("", s[1..]))
    else if s[0] == '|' then
      if |s| < 2 || Decode(s[1]).None? then None
      else match ReadValue(s[2..])
        case None => None
        case Some(r) => Some(([Decode(s[1]).value] + r.0, r.1))
    else if s[0] == '\n' || s[0] == '\r' || s[0] == ']' then None
    else match ReadValue(s[1..])
      case None => None
      case Some(r) => Some(([s[0]] + r.0, r.1))
  }

  lemma ReadOne(c: char, s: string)
    ensures ReadValue(EscapeChar(c) + s)
            == match ReadValue(s) case None => None case Some(r) => Some(([c] + r.0, r.1))
  {
    var e := EscapeChar(c);
    assert (e + s)[|e|..] == s;
    if Code(c).Some? { assert (e + s)[0] == '|' && (e + s)[1] == Code(c).value; } else { assert (e + s)[0] == c; }
  }

  lemma ReadQuote(rest: string)
    ensures ReadValue(['\''] + rest) == Some(([], rest))
  {
    assert (['\''] + rest)[1..] == rest;
  }

  /** An escaped value is read back whole, whatever follows its closing quote. */
  lemma {:induction false} ValueRoundTrip(v: string, rest: string)
    ensures ReadValue(Escaped(v) + (['\''] + rest)) == Some((v, rest))
    decreases |v|
  {
    hide ReadValue, EscapeChar;
    var tail := ['\''] + rest;
    if v == [] {
      ReadQuote(rest);
      assert [] + tail == tail;
    } else {
      ValueRoundTrip(v[1..], rest);
      ReadOne(v[0], Escaped(v[1..]) + tail);
      assert Escaped(v) + tail == EscapeChar(v[0]) + (Escaped(v[1..]) + tail);
      assert [v[0]] + v[1..] == v;
    }
  }

  /** Escaped text stays on its line. */
  lemma {:induction false} EscapeHasNoBreaks(v: string)
    ensures '\n' !in Escaped(v) && '\r' !in Escaped(v)
    decreases |v|
  {
    if v != [] { EscapeHasNoBreaks(v[1..]); }
  }

  // ---- Messages ----

  datatype Property = Property(name: string, value: string)

  datatype Message = Message(name: string, properties: seq<Property>)

  const MARKER := "##teamcity["

  function PrintProperty(p: Property): string { " " + p.name + "='" + Escaped(p.value) + "'" }

  function PrintProperties(ps: seq<Property>): string {
    if ps == [] then "" else PrintProperty(ps[0]) + PrintProperties(ps[1..])
  }

  /** The line of a message, without its breaks. */
  function Line(m: Message): string { MARKER + m.name + PrintProperties(m.properties) + "]" }

  function Print(m: Message): string { "\n" + Line(m) + "\n" }

  predicate IsLetter(c: char) { 'a' <= c <= 'z' || 'A' <= c <= 'Z' }

  predicate Letters(s: string) { forall i :: 0 <= i < |s| ==> IsLetter(s[i]) }

  /** Names of messages and properties are words. */
  predicate Named(m: Message) {
    Letters(m.name) && forall i :: 0 <= i < |m.properties| ==> Letters(m.properties[i].name)
  }

  // ---- Reading messages ----

  function Word(s: string): string {
    if s != [] && IsLetter(s[0]) then [s[0]] + Word(s[1..]) else []
  }

  lemma {:induction false} WordBound(s: string)
    ensures Word(s) <= s
    decreases |s|
  {
    if s != [] { WordBound(s[1..]); }
  }

  lemma {:induction false} WordRead(w: string, rest: string)
    requires Letters(w) && (rest == [] || !IsLetter(rest[0]))
    ensures Word(w + rest) == w
    decreases |w|
  {
    if w == [] {
      assert w + rest == rest;
    } else {
      assert (w + rest)[1..] == w[1..] + rest;
      WordRead(w[1..], rest);
    }
  }

  function ReadProperties(s: string): Option<seq<Property>>
    decreases |s|
  {
    if s == "]" then Some([])
    else if s == [] || s[0] != ' ' then None
    else
      var name := Word(s[1..]);
      if |s| < |name| + 3 || s[|name| + 1..|name| + 3] != "='" then None
      else
        match ReadValue(s[|name| + 3..])
        case None => None
        case Some(r) =>
          if |r.1| >= |s| then None
          else match ReadProperties(r.1)
            case None => None
            case Some(ps) => Some([Property(name, r.0)] + ps)
  }

  function ReadLine(line: string): Option<Message>
    requires MARKER <= line
  {
    var s := line[|MARKER|..];
    var name := Word(s);
    WordBound(s);
    match ReadProperties(s[|name|..])
    case None => None
    case Some(ps) => Some(Message(name, ps))
  }

  lemma ReadOneProperty(p: Property, rest: string)
    requires Letters(p.name)
    ensures ReadProperties(PrintProperty(p) + rest)
            == match ReadProperties(rest) case None => None case Some(ps) => Some([p] + ps)
  {
    hide ReadValue, Escaped, Letters;
    var value := Escaped(p.value) + (['\''] + rest);
    var after := "='" + value;
    var s := PrintProperty(p) + rest;
    assert s == " " + (p.name + after) && s[0] == ' ';
    assert s[1..] == p.name + after;
    WordRead(p.name, after);
    assert s[|p.name| + 1..] == after;
    assert s[|p.name| + 1..|p.name| + 3] == after[..2] == "='";
    assert s[|p.name| + 3..] == after[2..] == value;
    ValueRoundTrip(p.value, rest);
    assert |s| == 1 + |p.name| + 2 + |value| && s != "]";
  }

  lemma {:induction false} PropertiesRoundTrip(ps: seq<Property>)
    requires forall i :: 0 <= i < |ps| ==> Letters(ps[i].name)
    ensures ReadProperties(PrintProperties(ps) + "]") == Some(ps)
    decreases |ps|
  {
    if ps == [] {
      assert PrintProperties(ps) + "]" == "]";
    } else {
      PropertiesRoundTrip(ps[1..]);
      ReadOneProperty(ps[0], PrintProperties(ps[1..]) + "]");
      hide ReadProperties, PrintProperty;
      assert PrintProperties(ps) + "]" == PrintProperty(ps[0]) + (PrintProperties(ps[1..]) + "]");
      assert [ps[0]] + ps[1..] == ps;
    }
  }

  lemma LineRoundTrip(m: Message)
    requires Named(m)
    ensures MARKER <= Line(m) && ReadLine(Line(m)) == Some(m)
  {
    var rest := PrintProperties(m.properties) + "]";
    assert Line(m) == MARKER + (m.name + rest);
    assert Line(m)[|MARKER|..] == m.name + rest;
    WordRead(m.name, rest);
    assert (m.name + rest)[|m.name|..] == rest;
    PropertiesRoundTrip(m.properties);
  }

  // ---- A whole output ----

  function Put(c: char, lines: seq<string>): (r: seq<string>)
    requires 0 < |lines|
    ensures 0 < |r|
  {
    if c == '\n' then [[]] + lines else [[c] + lines[0]] + lines[1..]
  }

  function Lines(s: string): (lines: seq<string>)
    ensures 0 < |lines|
  {
    if s == [] then [[]] else Put(s[0], Lines(s[1..]))
  }

  lemma PutAppend(c: char, x: seq<string>, y: seq<string>)
    requires 0 < |x|
    ensures Put(c, x + y) == Put(c, x) + y
  {
    assert (x + y)[1..] == x[1..] + y;
  }

  lemma {:induction false} LinesJoin(a: string, b: string)
    ensures Lines(a + (['\n'] + b)) == Lines(a) + Lines(b)
    decreases |a|
  {
    var s := a + (['\n'] + b);
    if a == [] {
      assert s == ['\n'] + b && s[1..] == b;
    } else {
      LinesJoin(a[1..], b);
      assert s[1..] == a[1..] + (['\n'] + b);
      PutAppend(a[0], Lines(a[1..]), Lines(b));
    }
  }

  lemma {:induction false} OneLine(s: string)
    requires '\n' !in s
    ensures Lines(s) == [s]
    decreases |s|
  {
    if s != [] {
      OneLine(s[1..]);
      assert [s[0]] + s[1..] == s && [s[1..]][1..] == [];
    }
  }

  /** What the lines that carry the marker say; None for one that cannot be read. */
  function ReadLines(lines: seq<string>): seq<Option<Message>> {
    if lines == [] then [] else ReadMarked(lines[0]) + ReadLines(lines[1..])
  }

  function ReadMarked(line: string): seq<Option<Message>> {
    if MARKER <= line then [ReadLine(line)] else []
  }

  function ReadOutput(text: string): seq<Option<Message>> { ReadLines(Lines(text)) }

  lemma {:induction false} ReadLinesAppend(a: seq<string>, b: seq<string>)
    ensures ReadLines(a + b) == ReadLines(a) + ReadLines(b)
    decreases |a|
  {
    hide ReadMarked;
    if a == [] {
      assert a + b == b && [] + ReadLines(b) == ReadLines(b);
    } else {
      assert ReadMarked(a[0]) + (ReadLines(a[1..]) + ReadLines(b))
          == ReadMarked(a[0]) + ReadLines(a[1..]) + ReadLines(b);
      ReadLinesAppend(a[1..], b);
      assert (a + b)[1..] == a[1..] + b;
    }
  }

  /** Text of other origin; no line of it looks like a message. */
  predicate Quiet(text: string) {
    forall i :: 0 <= i < |Lines(text)| ==> !(MARKER <= Lines(text)[i])
  }

  lemma {:induction false} QuietLines(lines: seq<string>)
    requires forall i :: 0 <= i < |lines| ==> !(MARKER <= lines[i])
    ensures ReadLines(lines) == []
    decreases |lines|
  {
    if lines != [] { QuietLines(lines[1..]); }
  }

  lemma {:induction false} PropertiesHaveNoBreaks(ps: seq<Property>)
    requires forall i :: 0 <= i < |ps| ==> Letters(ps[i].name)
    ensures '\n' !in PrintProperties(ps)
    decreases |ps|
  {
    if ps != [] {
      EscapeHasNoBreaks(ps[0].value);
      PropertiesHaveNoBreaks(ps[1..]);
      assert '\n' !in ps[0].name;
    }
  }

  lemma MessageIsOneLine(m: Message)
    requires Named(m)
    ensures Lines(Line(m)) == [Line(m)]
  {
    PropertiesHaveNoBreaks(m.properties);
    assert '\n' !in m.name && '\n' !in MARKER;
    OneLine(Line(m));
  }

  /** Messages, each with the text printed before it. */
  type Mixed = seq<(string, Message)>

  function PrintMixed(items: Mixed, end: string): string {
    if items == [] then end else items[0].0 + (Print(items[0].1) + PrintMixed(items[1..], end))
  }

  function Messages(items: Mixed): seq<Option<Message>> {
    if items == [] then [] else [Some(items[0].1)] + Messages(items[1..])
  }

  /** Among whatever other text, a reader of the output finds every message, in order, with
      every property as it was given. */
  lemma {:induction false} OutputRoundTrip(items: Mixed, end: string)
    requires Quiet(end) && forall i :: 0 <= i < |items| ==> Quiet(items[i].0) && Named(items[i].1)
    ensures ReadOutput(PrintMixed(items, end)) == Messages(items)
    decreases |items|
  {
    hide ReadLine, Line, Named, Lines;
    if items == [] {
      QuietLines(Lines(end));
    } else {
      var text, m, rest := items[0].0, items[0].1, PrintMixed(items[1..], end);
      assert Quiet(text) && Named(m);
      OutputRoundTrip(items[1..], end);
      assert Print(m) + rest == ['\n'] + (Line(m) + (['\n'] + rest));
      LinesJoin(text, Line(m) + (['\n'] + rest));
      LinesJoin(Line(m), rest);
      MessageIsOneLine(m);
      ReadLinesAppend(Lines(text), [Line(m)] + Lines(rest));
      ReadLinesAppend([Line(m)], Lines(rest));
      QuietLines(Lines(text));
      LineRoundTrip(m);
      assert [Line(m)][1..] == [] && ReadLines([]) == [];
      assert ReadLines([Line(m)]) == [Some(m)] + [] == [Some(m)];
    }
  }

  // ---- The writer ----

  datatype Report =
    | SuiteStarted(name: string)
    | SuiteFinished(name: string)
    | TestStarted(name: string)
    | TestFinished(name: string)
    | TestFailed(name: string, message: string, details: string)
    | TestIgnored(name: string, message: string)

  function MessageOf(r: Report): Message {
    match r
    case SuiteStarted(name) => Message("testSuiteStarted", [Property("name", name)])
    case SuiteFinished(name) => Message("testSuiteFinished", [Property("name", name)])
    case TestStarted(name) => Message("testStarted", [Property("name", name)])
    case TestFinished(name) => Message("testFinished", [Property("name", name)])
    case TestFailed(name, message, details) =>
      Message("testFailed", [Property("name", name), Property("message", message), Property("details", details)])
    case TestIgnored(name, message) => Message("testIgnored", [Property("name", name), Property("message", message)])
  }

  lemma ReportsAreNamed(r: Report)
    ensures Named(MessageOf(r))
  {
  }

  /** The five characters that are escaped, and one that is not. */
  lemma EscapeTable(c: char)
    requires c != '\n' && c != '\r' && c != '\'' && c != '|' && c != ']'
    ensures Escaped("\n") == "|n" && Escaped("\r") == "|r" && Escaped("'") == "|'"
    ensures Escaped("|") == "||" && Escaped("]") == "|]" && Escaped([c]) == [c]
  {
    OneEscaped('\n');
    OneEscaped('\r');
    OneEscaped('\'');
    OneEscaped('|');
    OneEscaped(']');
    OneEscaped(c);
  }

  lemma OneEscaped(c: char)
    ensures Escaped([c]) == EscapeChar(c)
  {
    assert [c][1..] == [] && EscapeChar(c) + [] == EscapeChar(c);
  }

  /** The report of a failed test, as it goes out. */
  lemma FailureText(name: string, message: string, details: string)
    ensures Print(MessageOf(Report.TestFailed(name, message, details)))
            == "\n##teamcity[testFailed" + (" name='" + Escaped(name) + "'")
               + (" message='" + Escaped(message) + "'") + (" details='" + Escaped(details) + "'") + "]\n"
  {
    hide Escaped, PrintProperty, PrintProperties, Print;
    var a, b, c := Property("name", name), Property("message", message), Property("details", details);
    var open := "\n##teamcity[testFailed";
    assert [a, b] + [c] == [a, b, c] && "\n" + MARKER + "testFailed" == open;
    Printed("", "testFailed", [a, b], c);
    Printed2(open, a, b);
    PropertyTexts(name, message, details);
    var m := MessageOf(Report.TestFailed(name, message, details));
    assert "" + open == open && "" + Print(m) == Print(m);
    assert m == Message("testFailed", [a, b, c]);
  }

  /** The reports that carry a name only. */
  lemma NameText(name: string)
    ensures var text := " name='" + Escaped(name) + "'";
            && Print(MessageOf(Report.SuiteStarted(name))) == "\n##teamcity[" + "testSuiteStarted" + text + "]\n"
            && Print(MessageOf(Report.SuiteFinished(name))) == "\n##teamcity[" + "testSuiteFinished" + text + "]\n"
            && Print(MessageOf(Report.TestStarted(name))) == "\n##teamcity[" + "testStarted" + text + "]\n"
            && Print(MessageOf(Report.TestFinished(name))) == "\n##teamcity[" + "testFinished" + text + "]\n"
  {
    hide Escaped, Print;
    OneNameText("testSuiteStarted", name);
    OneNameText("testSuiteFinished", name);
    OneNameText("testStarted", name);
    OneNameText("testFinished", name);
  }

  lemma OneNameText(kind: string, name: string)
    ensures Print(Message(kind, [Property("name", name)]))
            == "\n##teamcity[" + kind + (" name='" + Escaped(name) + "'") + "]\n"
  {
    hide Escaped, PrintProperty, PrintProperties, Print;
    var a := Property("name", name);
    Printed("", kind, [], a);
    PropertyTexts(name, "", "");
    NoProperties();
    assert [] + [a] == [a] && "" + Print(Message(kind, [a])) == Print(Message(kind, [a]));
    var open := "\n" + MARKER + kind;
    assert "\n" + MARKER == "\n##teamcity[" && "" + open == open && open + "" == open;
  }

  lemma NoProperties()
    ensures PrintProperties([]) == ""
  {
  }

  /** The report of an ignored test. */
  lemma IgnoredText(name: string, message: string)
    ensures Print(MessageOf(Report.TestIgnored(name, message)))
            == "\n##teamcity[testIgnored" + (" name='" + Escaped(name) + "'")
               + (" message='" + Escaped(message) + "'") + "]\n"
  {
    hide Escaped, PrintProperty, PrintProperties, Print;
    var a, b := Property("name", name), Property("message", message);
    var open := "\n##teamcity[testIgnored";
    assert [a] + [b] == [a, b] && "\n" + MARKER + "testIgnored" == open && "" + open == open;
    Printed("", "testIgnored", [a], b);
    Printed1(open, a);
    PropertyTexts(name, message, "");
    var m := MessageOf(Report.TestIgnored(name, message));
    assert m == Message("testIgnored", [a, b]) && "" + Print(m) == Print(m);
  }

  lemma PropertyTexts(name: string, message: string, details: string)
    ensures PrintProperty(Property("name", name)) == " name='" + Escaped(name) + "'"
    ensures PrintProperty(Property("message", message)) == " message='" + Escaped(message) + "'"
    ensures PrintProperty(Property("details", details)) == " details='" + Escaped(details) + "'"
  {
    hide Escaped;
    assert " " + "name" + "='" == " name='" && " " + "message" + "='" == " message='";
    assert " " + "details" + "='" == " details='";
  }

  lemma {:induction false} PropertiesSnoc(ps: seq<Property>, p: Property)
    ensures PrintProperties(ps + [p]) == PrintProperties(ps) + PrintProperty(p)
    decreases |ps|
  {
    hide PrintProperty;
    if ps == [] {
      assert ps + [p] == [p] && [p][1..] == [];
      assert PrintProperties([p]) == PrintProperty(p) + "";
    } else {
      PropertiesSnoc(ps[1..], p);
      assert (ps + [p])[1..] == ps[1..] + [p];
    }
  }

  /** A message is its opening, its properties one by one, and its closing. */
  lemma Printed(out: string, name: string, ps: seq<Property>, p: Property)
    ensures out + ("\n" + MARKER + name) + PrintProperties(ps) + PrintProperty(p) + "]\n"
            == out + Print(Message(name, ps + [p]))
  {
    hide PrintProperties, PrintProperty;
    PropertiesSnoc(ps, p);
    assert "]\n" == "]" + "\n";
  }

  lemma Printed1(out: string, p: Property)
    ensures out + PrintProperties([p]) == out + PrintProperty(p)
  {
    PropertiesSnoc([], p);
    assert [] + [p] == [p] && "" + PrintProperty(p) == PrintProperty(p);
  }

  lemma Printed2(out: string, p: Property, q: Property)
    ensures out + PrintProperties([p, q]) == out + PrintProperty(p) + PrintProperty(q)
  {
    hide PrintProperty;
    PropertiesSnoc([p], q);
    Printed1(out, p);
    assert [p] + [q] == [p, q];
    assert out + (PrintProperties([p]) + PrintProperty(q)) == out + PrintProperties([p]) + PrintProperty(q);
  }

  class TeamcityMessages {
    var out: string

    constructor ()
      ensures out == ""
    {
      out := "";
    }

    static method Escape(s: string) returns (result: string)
      ensures result == Escaped(s)
    {
      result := "";
      var i := 0;
      assert s[..0] == [];
      while i < |s|
        invariant 0 <= i <= |s| && result == Escaped(s[..i])
      {
        var c := s[i];
        EscapeSnoc(s[..i], c);
        assert s[..i] + [c] == s[..i + 1];
        match c {
          case '\n' => result := result + "|n";
          case '\r' => result := result + "|r";
          case '\'' => result := result + "|'";
          case '|' => result := result + "||";
          case ']' => result := result + "|]";
          case _ => result := result + [c];
        }
        i := i + 1;
      }
      assert s[..|s|] == s;
    }

    method OpenMsg(name: string)
      modifies this
      ensures out == old(out) + ("\n" + MARKER + name)
    {
      out := out + ("\n" + MARKER + name);
    }

    method WriteProperty(name: string, value: string)
      modifies this
      ensures out == old(out) + PrintProperty(Property(name, value))
    {
      var e := Escape(value);
      out := out + (" " + name + "='" + e + "'");
    }

    method CloseMsg()
      modifies this
      ensures out == old(out) + "]\n"
    {
      out := out + "]";
      out := out + "\n";
    }

    method Message1(message: string, name: string)
      modifies this
      ensures out == old(out) + Print(Message(message, [Property("name", name)]))
    {
      hide Print, PrintProperty, Escaped;
      var p := Property("name", name);
      Printed(out, message, [], p);
      assert [] + [p] == [p] && PrintProperties([]) == "";
      assert out + ("\n" + MARKER + message) + "" == out + ("\n" + MARKER + message);
      OpenMsg(message);
      WriteProperty("name", name);
      CloseMsg();
    }

    method SuiteStarted(name: string)
      modifies this
      ensures out == old(out) + Print(MessageOf(Report.SuiteStarted(name)))
    {
      Message1("testSuiteStarted", name);
    }

    method SuiteFinished(name: string)
      modifies this
      ensures out == old(out) + Print(MessageOf(Report.SuiteFinished(name)))
    {
      Message1("testSuiteFinished", name);
    }

    method TestStarted(name: string)
      modifies this
      ensures out == old(out) + Print(MessageOf(Report.TestStarted(name)))
    {
      Message1("testStarted", name);
    }

    method TestFinished(name: string)
      modifies this
      ensures out == old(out) + Print(MessageOf(Report.TestFinished(name)))
    {
      Message1("testFinished", name);
    }

    method TestFailed(name: string, message: string, details: string)
      modifies this
      ensures out == old(out) + Print(MessageOf(Report.TestFailed(name, message, details)))
    {
      hide Print, PrintProperties, PrintProperty, Escaped;
      Printed(out, "testFailed", [Property("name", name), Property("message", message)], Property("details", details));
      assert [Property("name", name), Property("message", message)] + [Property("details", details)]
             == [Property("name", name), Property("message", message), Property("details", details)];
      Printed2(out + ("\n" + MARKER + "testFailed"), Property("name", name), Property("message", message));
      OpenMsg("testFailed");
      WriteProperty("name", name);
      WriteProperty("message", message);
      WriteProperty("details", details);
      CloseMsg();
    }

    method TestIgnored(name: string, message: string)
      modifies this
      ensures out == old(out) + Print(MessageOf(Report.TestIgnored(name, message)))
    {
      hide Print, PrintProperties, PrintProperty, Escaped;
      Printed(out, "testIgnored", [Property("name", name)], Property("message", message));
      assert [Property("name", name)] + [Property("message", message)]
          == [Property("name", name), Property("message", message)];
      Printed1(out + ("\n" + MARKER + "testIgnored"), Property("name", name));
      OpenMsg("testIgnored");
      WriteProperty("name", name);
      WriteProperty("message", message);
      CloseMsg();
    }
  }
}
