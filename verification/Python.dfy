/** The Python outline: classes and functions nested by indentation. */
module Python {
  import opened Basics
  import opened Outline
  import opened LineIndex
  import opened LineText
  import opened Nesting
  import opened Utf8

  datatype Definition = Class(name: string) | Function(name: string)

  /** A line that is neither blank nor a comment. */
  datatype Statement = Statement(line: nat, indent: nat, definition: Option<Definition>)

  predicate IsCode(line: string) {
    Trim(line) != [] && !("#" <= Trim(line))
  }

  /** Bytes of leading whitespace. */
  function Indent(line: string): nat {
    |EncodeAll(line[..|line| - |TrimStart(line)|])|
  }

  function Named(name: string): Option<string> {
    if name == [] then None else Some(name)
  }

  /** What a trimmed line defines; a keyword without a name defines nothing. */
  function DefinitionOf(trimmed: string): Option<Definition> {
    if "def " <= trimmed || "async def " <= trimmed then
      var after := if "async def " <= trimmed then trimmed[10..] else trimmed[4..];
      match Named(Trim(Before(after, {'('})))
      case None => None
      case Some(name) => Some(Definition.Function(name))
    else if "class " <= trimmed then
      match Named(Trim(Before(trimmed[6..], {'(', ':'})))
      case None => None
      case Some(name) => Some(Definition.Class(name))
    else None
  }

  // ----- What a line says -----

  /** The indentation is the bytes of the whitespace in front. */
  lemma IndentIsPad(pad: string, rest: string)
    requires AllWhitespace(pad) && (rest != [] ==> !IsWhitespace(rest[0]))
    ensures Indent(pad + rest) == |EncodeAll(pad)|
  {
    hide IsWhitespace, EncodeAll;
    TrimStartSplits(pad, rest);
    assert (pad + rest)[..|pad|] == pad;
  }

  /** Blank lines and comments are no code, however they are indented; all others are. */
  lemma CodeIsNoComment(pad: string, text: string, tail: string)
    requires AllWhitespace(pad) && Bare(text) && AllWhitespace(tail)
    ensures IsCode(pad + text + tail) <==> text != [] && text[0] != '#'
  {
    hide IsWhitespace, Trim;
    TrimSplits(pad, text, tail);
  }

  /** What can be the name of a definition: no whitespace at its ends, and nothing that
      ends a name. */
  predicate IsName(name: string) {
    Bare(name) && '(' !in name && ':' !in name
  }

  lemma NotThisKeyword(keyword: string, other: string, rest: string)
    requires keyword != [] && other != [] && keyword[0] != other[0]
    ensures !(keyword <= other + rest)
  {
    assert (other + rest)[0] == other[0];
  }

  /** A function is read back from either keyword: the name with whitespace around it,
      then nothing or an opening parenthesis. */
  lemma FunctionReadsBack(pad: string, name: string, tail: string, rest: string)
    requires AllWhitespace(pad) && IsName(name) && AllWhitespace(tail) && (rest == [] || rest[0] == '(')
    ensures
      var text := pad + name + tail + rest;
      DefinitionOf("def " + text) == DefinitionOf("async def " + text)
      == if name == [] then None else Some(Definition.Function(name))
  {
    var own := pad + name + tail;
    TrimSplits(pad, name, tail);
    NoStops(pad, name, tail);
    hide IsWhitespace, Trim, TrimStart, TrimEnd, IsName, AllWhitespace;
    BeforeIs(own + rest, {'('}, |own|);
    assert (own + rest)[..|own|] == own;
    NotThisKeyword("async def ", "def ", own + rest);
    assert ("def " + (own + rest))[4..] == own + rest && ("async def " + (own + rest))[10..] == own + rest;
  }

  /** And a class: its name may end at a colon as well. */
  lemma ClassReadsBack(pad: string, name: string, tail: string, rest: string)
    requires AllWhitespace(pad) && IsName(name) && AllWhitespace(tail)
    requires rest == [] || rest[0] == '(' || rest[0] == ':'
    ensures
      DefinitionOf("class " + (pad + name + tail + rest)) == if name == [] then None else Some(Definition.Class(name))
  {
    var own := pad + name + tail;
    TrimSplits(pad, name, tail);
    NoStops(pad, name, tail);
    hide IsWhitespace, Trim, TrimStart, TrimEnd, IsName, AllWhitespace;
    BeforeIs(own + rest, {'(', ':'}, |own|);
    assert (own + rest)[..|own|] == own;
    NotThisKeyword("async def ", "class ", own + rest);
    NotThisKeyword("def ", "class ", own + rest);
    assert ("class " + (own + rest))[6..] == own + rest;
  }

  lemma NoStops(pad: string, name: string, tail: string)
    requires AllWhitespace(pad) && IsName(name) && AllWhitespace(tail)
    ensures forall k :: 0 <= k < |pad + name + tail| ==> (pad + name + tail)[k] !in {'(', ':'}
  {
  }

  /** No other line defines anything. */
  lemma OnlyDefinitions(trimmed: string)
    ensures DefinitionOf(trimmed).Some? ==>
      "def " <= trimmed || "async def " <= trimmed || "class " <= trimmed
  {
  }

  /** A line of code, by its indentation and the rest. */
  lemma LineSays(pad: string, text: string)
    requires AllWhitespace(pad) && Bare(text) && text != [] && text[0] != '#'
    ensures IsCode(pad + text) && Indent(pad + text) == |EncodeAll(pad)| && Trim(pad + text) == text
  {
    hide IsWhitespace, Trim, IsCode, Indent;
    assert pad + text + [] == pad + text;
    TrimSplits(pad, text, []);
    CodeIsNoComment(pad, text, []);
    IndentIsPad(pad, text);
  }

  function Statements(lines: seq<string>): seq<Statement> {
    if lines == [] then []
    else
      var last := lines[|lines| - 1];
      Statements(lines[..|lines| - 1]) +
      if IsCode(last) then [Statement(|lines|, Indent(last), DefinitionOf(Trim(last)))] else []
  }

  function Events(statements: seq<Statement>): seq<Event> {
    seq(|statements|, k requires 0 <= k < |statements| => Event(statements[k].indent, statements[k].definition.Some?))
  }

  /** A definition inside another is a method, one at the top a function. */
  predicate Describes(entry: Entry, definition: Definition) {
    && entry.name == definition.name
    && match definition
       case Class(_) => entry.kind == Kind.Class
       case Function(_) => entry.kind == if entry.parent.Some? then Method else Kind.Function
  }

  /** Entry k describes the definition at statement at[k]. */
  ghost predicate Described(log: seq<Entry>, at: seq<nat>, statements: seq<Statement>, code: seq<byte>) {
    && |log| == |at|
    && forall k :: 0 <= k < |at| ==>
        && at[k] < |statements| && statements[at[k]].definition.Some?
        && Describes(log[k], statements[at[k]].definition.value)
        && CoversLine(log[k].evidence, code, statements[at[k]].line)
  }

  lemma DescribedStays(log: seq<Entry>, at: seq<nat>, statements: seq<Statement>, statement: Statement, code: seq<byte>)
    requires Described(log, at, statements, code)
    ensures Described(log, at, statements + [statement], code)
  {
    hide Describes, CoversLine;
  }

  lemma DescribedGrows(log: seq<Entry>, at: seq<nat>, statements: seq<Statement>, statement: Statement, entry: Entry,
                       code: seq<byte>)
    requires Described(log, at, statements, code)
    requires statement.definition.Some? && Describes(entry, statement.definition.value)
    requires CoversLine(entry.evidence, code, statement.line)
    ensures Described(log + [entry], at + [|statements|], statements + [statement], code)
  {
    hide Describes, CoversLine;
    DescribedStays(log, at, statements, statement, code);
  }

  lemma StatementsGrow(lines: seq<string>, n: nat)
    requires n < |lines|
    ensures Statements(lines[..n + 1]) == Statements(lines[..n]) +
      (if IsCode(lines[n]) then [Statement(n + 1, Indent(lines[n]), DefinitionOf(Trim(lines[n])))] else [])
  {
    assert lines[..n + 1][..n] == lines[..n];
  }

  lemma NoStatements(lines: seq<string>, code: seq<byte>)
    ensures Statements(lines[..0]) == [] && Events([]) == [] && Described([], [], [], code)
  {
  }

  /** Every code line closes the definitions it is not indented under, then opens
      its own if it has one. */
  method AddStatement(nesting: NestingStack, ghost statements: seq<Statement>, statement: Statement, id: nat,
                      index: Index, code: seq<byte>) returns (nextId: nat)
    requires nesting.Valid() && nesting.events == Events(statements) && id == |nesting.log| + 1
    requires Described(nesting.log, nesting.at, statements, code)
    requires index.Indexes(code) && 0 < statement.line <= 1 + Newlines(code)
    modifies nesting
    ensures nesting.Valid() && nesting.events == Events(statements + [statement]) && nextId == |nesting.log| + 1
    ensures Described(nesting.log, nesting.at, statements + [statement], code)
  {
    hide LogOk, AreOpen, AreSurvivors, FramesOk, CoversLine, StackEntries, Entries, IsLineStarts, Described, Newlines;
    assert Events(statements + [statement])
        == Events(statements) + [Event(statement.indent, statement.definition.Some?)];
    nesting.CloseTo(statement.indent);
    match statement.definition {
      case None =>
        nesting.Skip(statement.indent);
        DescribedStays(nesting.log, nesting.at, statements, statement, code);
        nextId := id;
      case Some(definition) =>
        var kind := match definition
          case Class(_) => Kind.Class
          case Function(_) => if nesting.stack != [] then Method else Kind.Function;
        var evidence := LineEvidence(index, code, statement.line);
        var item := Item(id, definition.name, kind, evidence.value, []);
        DescribedGrows(nesting.log, nesting.at, statements, statement, EntryOf(item, TopId(nesting.stack)), code);
        nesting.Push(statement.indent, item);
        nextId := id + 1;
    }
  }

  /** Lines that define something. */
  function Definitions(statements: seq<Statement>): nat {
    if statements == [] then 0
    else Definitions(statements[..|statements| - 1]) + if statements[|statements| - 1].definition.Some? then 1 else 0
  }

  lemma {:induction false} ItemsAreDefinitions(at: seq<nat>, statements: seq<Statement>)
    requires ListsItems(at, Events(statements))
    ensures |at| == Definitions(statements)
    decreases |statements|
  {
    hide ListsItems, Events;
    if statements == [] {
      NothingListed(at, statements);
    } else {
      EventsFront(statements);
      LastItem(at, Events(statements));
      var front := statements[..|statements| - 1];
      ItemsAreDefinitions(if statements[|front|].definition.Some? then at[..|at| - 1] else at, front);
    }
  }

  lemma NothingListed(at: seq<nat>, statements: seq<Statement>)
    requires ListsItems(at, Events(statements)) && statements == []
    ensures at == []
  {
    FirstIsIn(at);
  }

  lemma EventsFront(statements: seq<Statement>)
    requires statements != []
    ensures
      var n := |statements| - 1;
      && |Events(statements)| == n + 1 && Events(statements)[..n] == Events(statements[..n])
      && Events(statements)[n].isItem == statements[n].definition.Some?
  {
  }

  lemma LastItem(at: seq<nat>, events: seq<Event>)
    requires ListsItems(at, events) && events != []
    ensures events[|events| - 1].isItem ==> at != [] && ListsItems(at[..|at| - 1], events[..|events| - 1])
    ensures !events[|events| - 1].isItem ==> ListsItems(at, events[..|events| - 1])
  {
    var last := |events| - 1;
    if events[last].isItem {
      assert last in at;
      var k :| 0 <= k < |at| && at[k] == last;
      assert at[|at| - 1] <= last && k == |at| - 1;
      forall i | 0 <= i < last && events[i].isItem ensures i in at[..k] {
        assert i in at;
        var j :| 0 <= j < |at| && at[j] == i;
        assert at[..k][j] == i;
      }
    }
  }

  /** The flat outline lists exactly the definitions of the decoded text. */
  ghost predicate IsDefinitionForest(items: seq<Item>, at: seq<nat>, code: seq<byte>) {
    && LogOk(Entries(items, None), at, Events(Statements(Lines(Lossy(code)))))
    && Described(Entries(items, None), at, Statements(Lines(Lossy(code))), code)
  }

  /** The outline has as many items as there are definitions, so the item limit bounds
      it if and only if it bounds those. */
  lemma LimitBounds(items: seq<Item>, at: seq<nat>, code: seq<byte>, maxItems: nat)
    requires IsDefinitionForest(items, at, code)
    ensures CountAll(items) == Definitions(Statements(Lines(Lossy(code))))
    ensures CountAll(items) <= maxItems <==> Definitions(Statements(Lines(Lossy(code)))) <= maxItems
  {
    hide Described, Events, Statements, Lines, Lossy;
    LogLists(Entries(items, None), at, Events(Statements(Lines(Lossy(code)))));
    ItemsAreDefinitions(at, Statements(Lines(Lossy(code))));
    EntriesFollowPreorder(items, None);
    CountIsFlatLength(items);
  }

  /** This many lines `def f`. */
  function Functions(k: nat): seq<byte> {
    if k == 0 then [] else Functions(k - 1) + [100, 101, 102, 32, 102, 10]
  }

  lemma {:induction false} FunctionLines(k: nat)
    ensures Lines(Lossy(Functions(k))) == seq(k, _ => "def f") && EndsLine(Lossy(Functions(k)))
    ensures LineEndsAt(Functions(k), |Functions(k)|)
  {
    hide Lines, LossyFrom;
    if k == 0 {
      NothingDecodes();
    } else {
      FunctionLines(k - 1);
      var before, own := Functions(k - 1), [100, 101, 102, 32, 102, 10];
      assert (before + own)[..|before|] == before && (before + own)[|before|..] == own;
      LossyJoins(before + own, |before|);
      DecodesTo(own, "def f\n");
      OneTextLine("def f");
      assert "def f" + "\n" == "def f\n";
      LinesJoin(Lossy(before), Lossy(own));
      assert seq(k, _ => "def f") == seq(k - 1, _ => "def f") + ["def f"];
    }
  }

  lemma ShortNames()
    ensures Bare("def f") && IsName("f")
  {
    assert !IsWhitespace('d') && !IsWhitespace('f');
    hide IsWhitespace;
  }

  lemma FunctionDefines()
    ensures IsCode("def f") && DefinitionOf(Trim("def f")) == Some(Definition.Function("f"))
  {
    hide IsCode, Trim, Indent, DefinitionOf, Bare, IsName, IsWhitespace, AllWhitespace;
    ShortNames();
    NoPad();
    assert [] + "def f" == "def f" && "def " + ([] + "f" + [] + []) == "def f";
    LineSays([], "def f");
    FunctionReadsBack([], "f", [], []);
  }

  lemma {:induction false} FunctionDefinitions(k: nat)
    ensures Definitions(Statements(seq(k, _ => "def f"))) == k
  {
    var lines := seq(k, _ => "def f");
    if k > 0 {
      FunctionDefinitions(k - 1);
      FunctionDefines();
      hide IsCode, DefinitionOf, Trim, Indent;
      StatementsGrow(lines, k - 1);
      assert lines[..k - 1] == seq(k - 1, _ => "def f") && lines[..k] == lines;
      var before := Statements(lines[..k - 1]);
      assert Statements(lines)[..|before|] == before;
    }
  }

  /** No limit keeps a file of functions from having all of them in its outline. */
  lemma FunctionsEscapeTheLimit(k: nat, items: seq<Item>, at: seq<nat>)
    requires IsDefinitionForest(items, at, Functions(k))
    ensures CountAll(items) == k
  {
    hide Definitions, Statements, Lines, Functions, Described, LogOk;
    LimitBounds(items, at, Functions(k), 0);
    FunctionLines(k);
    FunctionDefinitions(k);
  }

  // ----- A function indented under a class -----

  predicate IsLineName(name: string) { IsName(name) && name != [] && '\n' !in name }

  /** Two lines: a class, and a function indented by `pad`. */
  function Nested(outer: string, pad: string, inner: string): string {
    "class " + outer + ":\n" + pad + "def " + inner + "():\n"
  }

  lemma NestedLines(outer: string, pad: string, inner: string)
    requires IsLineName(outer) && IsLineName(inner) && '\n' !in pad
    ensures Lines(Lossy(EncodeAll(Nested(outer, pad, inner))))
         == ["class " + outer + ":", pad + ("def " + inner + "():")]
  {
    var lines, crlf := ["class " + outer + ":", pad + ("def " + inner + "():")], [false, false];
    TextReadsBack(Nested(outer, pad, inner));
    hide Lines, IsName, EncodeAll, Lossy;
    assert Written(lines, crlf) == Nested(outer, pad, inner) by {
      assert Written(lines[1..], crlf[1..]) == lines[1] + "\n" by {
        assert Written(lines[1..][1..], crlf[1..][1..]) == [];
      }
    }
    LinesReadBack(lines, crlf);
  }

  /** A keyword, a name and what follows it, put together the way a definition is read. */
  lemma PutTogether(keyword: string, name: string, rest: string)
    ensures keyword + ([] + name + [] + rest) == keyword + name + rest && [] + name == name
  {
  }

  lemma BareText(keyword: string, name: string, rest: string)
    requires keyword != [] && rest != [] && !IsWhitespace(keyword[0]) && !IsWhitespace(rest[|rest| - 1])
    ensures Bare(keyword + name + rest) && (keyword + name + rest)[0] == keyword[0]
  {
    hide IsWhitespace;
  }

  lemma ClassLine(name: string)
    requires IsLineName(name)
    ensures
      var line := "class " + name + ":";
      IsCode(line) && Indent(line) == 0 && DefinitionOf(Trim(line)) == Some(Definition.Class(name))
  {
    assert !IsWhitespace('c') && !IsWhitespace(':');
    hide IsCode, Trim, Indent, DefinitionOf, Bare, IsName, IsWhitespace;
    var line := "class " + name + ":";
    BareText("class ", name, ":");
    LineSays([], line);
    ClassReadsBack([], name, [], ":");
    PutTogether("class ", name, ":");
    PutTogether([], line, []);
    PadHasBytes([]);
  }

  lemma FunctionLine(pad: string, name: string)
    requires IsLineName(name) && AllWhitespace(pad)
    ensures
      var line := pad + ("def " + name + "():");
      && IsCode(line) && Indent(line) == |EncodeAll(pad)|
      && DefinitionOf(Trim(line)) == Some(Definition.Function(name))
  {
    assert !IsWhitespace('d') && !IsWhitespace(':');
    hide IsCode, Trim, Indent, DefinitionOf, Bare, IsName, IsWhitespace, EncodeAll, AllWhitespace;
    BareText("def ", name, "():");
    LineSays(pad, "def " + name + "():");
    assert AllWhitespace([]) by { NoPad(); }
    FunctionReadsBack([], name, [], "():");
    PutTogether("def ", name, "():");
  }

  lemma TwoStatements(first: string, second: string)
    requires IsCode(first) && IsCode(second)
    ensures Statements([first, second])
         == [Statement(1, Indent(first), DefinitionOf(Trim(first))),
             Statement(2, Indent(second), DefinitionOf(Trim(second)))]
  {
    hide IsCode, Trim, Indent, DefinitionOf;
    var lines := [first, second];
    StatementsGrow(lines, 0);
    StatementsGrow(lines, 1);
    assert lines[..2] == lines && lines[..0] == [];
  }

  /** Two items, the first one not indented: the second hangs under it when it is. */
  lemma TwoEntries(log: seq<Entry>, at: seq<nat>, indent: nat)
    requires LogOk(log, at, [Event(0, true), Event(indent, true)])
    ensures at == [0, 1] && |log| == 2
    ensures log[0].parent.None? && log[1].parent == if indent == 0 then None else Some(1)
  {
    var events := [Event(0, true), Event(indent, true)];
    TwoItems(at, events);
    assert Open(events, 0, 1) <==> 0 < indent;
    assert ParentOk(log[0].parent, at, events, 0) && ParentOk(log[1].parent, at, events, 1);
  }

  /** The function is a method of the class exactly when it is indented. */
  lemma MethodsAreIndented(outer: string, pad: string, inner: string, items: seq<Item>, at: seq<nat>)
    requires IsLineName(outer) && IsLineName(inner) && AllWhitespace(pad) && '\n' !in pad
    requires IsDefinitionForest(items, at, EncodeAll(Nested(outer, pad, inner)))
    ensures
      var log := Entries(items, None);
      && |log| == 2
      && log[0].name == outer && log[0].kind == Kind.Class && log[0].parent.None?
      && log[1].name == inner
      && (log[1].kind, log[1].parent) == if pad == [] then (Kind.Function, None) else (Method, Some(1))
  {
    NestedLines(outer, pad, inner);
    ClassLine(outer);
    FunctionLine(pad, inner);
    TwoStatements("class " + outer + ":", pad + ("def " + inner + "():"));
    PadHasBytes(pad);
    hide IsCode, Trim, Indent, DefinitionOf, Statements, Lines, Lossy, EncodeAll, Nested, CoversLine, IsLineName,
      AllWhitespace, Entries, LogOk;
    var log, statements := Entries(items, None), Statements(Lines(Lossy(EncodeAll(Nested(outer, pad, inner)))));
    assert Events(statements) == [Event(0, true), Event(|EncodeAll(pad)|, true)];
    TwoEntries(log, at, |EncodeAll(pad)|);
    assert Describes(log[0], statements[0].definition.value) && Describes(log[1], statements[1].definition.value);
  }

  lemma PadHasBytes(pad: string)
    ensures |EncodeAll(pad)| == 0 <==> pad == []
  {
  }

  lemma TwoItems(at: seq<nat>, events: seq<Event>)
    requires ListsItems(at, events) && |events| == 2 && events[0].isItem && events[1].isItem
    ensures at == [0, 1]
  {
    LastItem(at, events);
    var front := at[..|at| - 1];
    LastItem(front, events[..1]);
    FirstIsIn(front[..|front| - 1]);
  }

  /** The flat outline lists exactly the definitions in source order, numbered from
      one, each under the innermost earlier definition that every line since has
      been indented under. The item limit plays no part. */
  method ExtractPython(code: seq<byte>, maxItems: nat, linesPerBlock: nat) returns (items: seq<Item>, fallback: bool)
    ensures fallback ==> code != [] && |items| <= maxItems && Definitions(Statements(Lines(Lossy(code)))) == 0
    ensures !fallback ==> exists at: seq<nat> :: IsDefinitionForest(items, at, code)
    ensures !fallback ==> items == [] ==> code == []
    ensures fallback ==> exists byteEnd: nat, lineEnd: nat ::
      Tiles(items, byteEnd, lineEnd, Max(linesPerBlock, 1), code) && (|items| < maxItems ==> byteEnd == |code|)
  {
    hide Statements, Tiles, IsLineStarts, Described, Events, Entries, DefinitionOf, IsCode, Indent, Trim, LogOk,
      AreOpen, FramesOk, StackEntries, Lines, Lossy, Newlines, Definitions;
    var index := NewIndex(code);
    var lines := Lines(Lossy(code));
    LinesAreFew(code);
    var id, n := 1, 0;
    var nesting := new NestingStack();
    ghost var statements: seq<Statement> := [];
    NoStatements(lines, code);
    while n < |lines|
      invariant n <= |lines| && fresh(nesting)
      invariant nesting.Valid() && nesting.events == Events(statements) && id == |nesting.log| + 1
      invariant statements == Statements(lines[..n])
      invariant Described(nesting.log, nesting.at, statements, code)
    {
      StatementsGrow(lines, n);
      var line := lines[n];
      n := n + 1;
      if !IsCode(line) { continue; }
      var statement := Statement(n, Indent(line), DefinitionOf(Trim(line)));
      id := AddStatement(nesting, statements, statement, id, index, code);
      statements := statements + [statement];
    }
    assert lines[..n] == lines;
    nesting.Drain();
    items, fallback := nesting.top, nesting.top == [] && code != [];
    assert IsDefinitionForest(items, nesting.at, code);
    if fallback {
      LogLists(nesting.log, nesting.at, nesting.events);
      ItemsAreDefinitions(nesting.at, statements);
      ghost var lineCount;
      items, lineCount := ExtractLineBlocks(code, maxItems, linesPerBlock);
    }
  }

  /** Code lines indented by at most this many bytes never nest deeper than one more
      definition than that. */
  lemma PythonDepth(items: seq<Item>, at: seq<nat>, statements: seq<Statement>, limit: nat)
    requires LogOk(Entries(items, None), at, Events(statements))
    requires forall s :: s in statements ==> s.indent <= limit
    ensures DepthAll(items) <= limit + 1
  {
    DepthIsBounded(items, at, Events(statements), 0, limit);
  }
}
