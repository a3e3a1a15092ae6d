/** The Markdown outline: headings outside code fences, nested by level. */
module Markdown {
  import opened Basics
  import opened Outline
  import opened LineIndex
  import opened LineText
  import opened Nesting
  import opened Utf8

  datatype Title = Title(level: nat, name: string)

  datatype Found = Found(line: nat, title: Title)

  predicate IsFence(line: string) {
    "```" <= TrimStart(line) || "~~~" <= TrimStart(line)
  }

  function Hashes(text: string): nat
    ensures Hashes(text) <= |text|
  {
    if text != [] && text[0] == '#' then 1 + Hashes(text[1..]) else 0
  }

  /** One to six `#` and then a space or the end of the line. */
  function TitleOf(line: string): Option<Title> {
    var trimmed := TrimStart(line);
    var level := Hashes(trimmed);
    var rest := trimmed[level..];
    if 1 <= level <= 6 && (rest == [] || rest[0] == ' ') then
      Some(Title(level, if Trim(rest) == [] then "Heading " + DecimalText(level) else Trim(rest)))
    else None
  }

  function FenceLines(lines: seq<string>): nat {
    if lines == [] then 0
    else FenceLines(lines[..|lines| - 1]) + if IsFence(lines[|lines| - 1]) then 1 else 0
  }

  /** Every heading line with an even number of fence lines before it. */
  function Headings(lines: seq<string>): seq<Found> {
    if lines == [] then []
    else
      var before, last := lines[..|lines| - 1], lines[|lines| - 1];
      Headings(before) +
      if IsFence(last) || FenceLines(before) % 2 == 1 then []
      else match TitleOf(last)
        case None => []
        case Some(title) => [Found(|lines|, title)]
  }

  /** A fence is three backquotes or tildes behind any indentation. */
  lemma FencesOpen(pad: string, text: string)
    requires AllWhitespace(pad) && (text != [] ==> !IsWhitespace(text[0]))
    ensures IsFence(pad + text) <==>
      3 <= |text| && text[0] == text[1] == text[2] && (text[0] == '`' || text[0] == '~')
  {
    hide IsWhitespace;
    TrimStartSplits(pad, text);
  }

  /** Any line is whitespace, then so many `#`, then what is no `#`. It is a heading exactly
      when there are one to six of them and a space or nothing follows; its name is what is
      left without the whitespace around it, or says its level when that is nothing. */
  lemma TitleExactly(pad: string, level: nat, gap: string, name: string, tail: string)
    requires AllWhitespace(pad) && AllWhitespace(gap) && AllWhitespace(tail) && Bare(name)
    requires var rest := gap + name + tail; rest != [] ==> rest[0] != '#' && (level == 0 ==> !IsWhitespace(rest[0]))
    ensures
      var rest := gap + name + tail;
      TitleOf(pad + seq(level, _ => '#') + rest)
      == if 1 <= level <= 6 && (rest == [] || rest[0] == ' ')
         then Some(Title(level, if name == [] then "Heading " + ['0' + level as char] else name)) else None
  {
    var marks, rest := seq(level, _ => '#'), gap + name + tail;
    Marks();
    LevelDigit(level);
    hide IsWhitespace, Hashes, TrimStart, Trim, AllWhitespace, Bare, DecimalText;
    assert pad + marks + rest == pad + (marks + rest);
    TrimStartSplits(pad, marks + rest);
    HashesCount(level, rest);
    assert (marks + rest)[level..] == rest;
    TrimSplits(gap, name, tail);
  }

  lemma LevelDigit(level: nat)
    ensures 1 <= level <= 6 ==> DecimalText(level) == ['0' + level as char]
  {
    if 1 <= level <= 6 { assert Digits(level) == [48 + level as byte]; }
  }

  /** A printed heading reads back as itself. */
  lemma TitleRoundTrip(pad: string, level: nat, name: string)
    requires AllWhitespace(pad) && 1 <= level <= 6
    requires name != [] && !IsWhitespace(name[0]) && !IsWhitespace(name[|name| - 1])
    ensures TitleOf(pad + seq(level, _ => '#') + " " + name) == Some(Title(level, name))
  {
    Marks();
    hide IsWhitespace;
    assert pad + seq(level, _ => '#') + (" " + name + []) == pad + seq(level, _ => '#') + " " + name;
    TitleExactly(pad, level, " ", name, []);
  }

  lemma Marks()
    ensures AllWhitespace(" ") && !IsWhitespace('#')
  {
  }

  lemma {:induction false} HashesCount(level: nat, rest: string)
    requires rest != [] ==> rest[0] != '#'
    ensures Hashes(seq(level, _ => '#') + rest) == level
  {
    if level == 0 {
      assert seq(0, _ => '#') + rest == rest;
    } else {
      HashesCount(level - 1, rest);
      assert (seq(level, _ => '#') + rest)[1..] == seq(level - 1, _ => '#') + rest;
    }
  }

  /** Heading j is the closest earlier one of strictly lower level. */
  ghost predicate ClosestLower(found: seq<Found>, j: nat, k: nat) {
    && j < k < |found| && found[j].title.level < found[k].title.level
    && forall m :: j < m < k ==> found[m].title.level >= found[k].title.level
  }

  ghost predicate HangsRight(parent: Option<nat>, found: seq<Found>, k: nat)
    requires k < |found|
  {
    match parent
    case None => forall j :: 0 <= j < k ==> found[j].title.level >= found[k].title.level
    case Some(p) => 1 <= p <= k && ClosestLower(found, p - 1, k)
  }

  ghost predicate Describes(entry: Entry, heading: Found, code: seq<byte>) {
    && entry.name == heading.title.name && entry.kind == Heading(heading.title.level)
    && CoversLine(entry.evidence, code, heading.line)
  }

  /** The flat view of the outline is the headings in source order, numbered from
      one, each under the closest earlier heading of strictly lower level. */
  ghost predicate IsHeadingForest(log: seq<Entry>, found: seq<Found>, code: seq<byte>) {
    && |log| == |found|
    && forall k: nat :: k < |found| ==>
        && log[k].id == k + 1 && Describes(log[k], found[k], code) && HangsRight(log[k].parent, found, k)
  }

  // ----- The stack machine's events are the headings -----

  function Levels(found: seq<Found>): seq<Event> {
    seq(|found|, k requires 0 <= k < |found| => Event(found[k].title.level, true))
  }

  /** Among headings, something of lower level is still open if any came before. */
  lemma {:induction false} LowerStaysOpen(found: seq<Found>, j: nat, k: nat)
    requires j < k < |found| && found[j].title.level < found[k].title.level
    ensures exists m: nat :: j <= m < k && Open(Levels(found), m, k)
    decreases k - j
  {
    if m :| j < m < k && found[m].title.level < found[k].title.level {
      LowerStaysOpen(found, m, k);
    } else {
      assert Open(Levels(found), j, k);
    }
  }

  lemma ItemsAreAll(at: seq<nat>, events: seq<Event>)
    requires ListsItems(at, events) && |at| == |events|
    ensures forall k :: 0 <= k < |at| ==> at[k] == k
  {
    forall k | 0 <= k < |at| ensures at[k] == k { AtLeast(at, k); AtMost(at, |events|, k); }
  }

  lemma {:induction false} AtLeast(at: seq<nat>, k: nat)
    requires (forall i, j :: 0 <= i < j < |at| ==> at[i] < at[j]) && k < |at|
    ensures at[k] >= k
  {
    if k > 0 { AtLeast(at, k - 1); }
  }

  lemma {:induction false} AtMost(at: seq<nat>, n: nat, k: nat)
    requires (forall i, j :: 0 <= i < j < |at| ==> at[i] < at[j]) && k < |at|
    requires forall i :: 0 <= i < |at| ==> at[i] < n
    ensures at[k] + |at| <= n + k
    decreases |at| - k
  {
    if k + 1 < |at| { AtMost(at, n, k + 1); }
  }

  lemma ParentIsClosestLower(parent: Option<nat>, at: seq<nat>, found: seq<Found>, k: nat)
    requires ListsItems(at, Levels(found)) && |at| == |found| && k < |at|
    requires ParentOk(parent, at, Levels(found), k)
    ensures HangsRight(parent, found, k)
  {
    ItemsAreAll(at, Levels(found));
    hide ListsItems, Levels;
    assert at[k] == k;
    match parent
    case None =>
      assert forall m: nat :: m < k ==> !Open(Levels(found), m, k);
      NothingOpenBetween(found, 0, k);
    case Some(p) =>
      assert IsParent(Levels(found), p - 1, k);
      assert found[p - 1].title.level < found[k].title.level by { OpenIsLower(found, p - 1, k); }
      assert forall m: nat :: p <= m < k ==> !Open(Levels(found), m, k);
      NothingOpenBetween(found, p, k);
  }

  lemma OpenIsLower(found: seq<Found>, j: nat, k: nat)
    requires j < k < |found| && Open(Levels(found), j, k)
    ensures found[j].title.level < found[k].title.level
  {
    assert Levels(found)[k].level > Levels(found)[j].level;
  }

  lemma NothingOpenBetween(found: seq<Found>, j: nat, k: nat)
    requires j <= k < |found|
    requires forall m: nat :: j <= m < k ==> !Open(Levels(found), m, k)
    ensures forall m :: j <= m < k ==> found[m].title.level >= found[k].title.level
  {
    hide Open, Levels;
    forall m | j <= m < k ensures found[m].title.level >= found[k].title.level {
      if found[m].title.level < found[k].title.level { LowerStaysOpen(found, m, k); }
    }
  }

  lemma ForestFollows(log: seq<Entry>, at: seq<nat>, found: seq<Found>, code: seq<byte>)
    requires LogOk(log, at, Levels(found)) && Described(log, found, code)
    ensures IsHeadingForest(log, found, code)
  {
    hide Describes, HangsRight, ParentOk, ListsItems, Levels;
    forall k: nat | k < |found| ensures HangsRight(log[k].parent, found, k) {
      ParentIsClosestLower(log[k].parent, at, found, k);
    }
  }

  ghost predicate Described(log: seq<Entry>, found: seq<Found>, code: seq<byte>) {
    |log| == |found| && forall k :: 0 <= k < |log| ==> Describes(log[k], found[k], code)
  }

  lemma HeadingsGrow(lines: seq<string>, n: nat)
    requires n < |lines|
    ensures var here := lines[n];
      Headings(lines[..n + 1]) == Headings(lines[..n]) +
        (if IsFence(here) || FenceLines(lines[..n]) % 2 == 1 || TitleOf(here).None? then []
         else [Found(n + 1, TitleOf(here).value)])
    ensures FenceLines(lines[..n + 1]) == FenceLines(lines[..n]) + if IsFence(lines[n]) then 1 else 0
  {
    assert lines[..n + 1][..n] == lines[..n];
  }

  lemma {:induction false} HeadingsStable(lines: seq<string>, n: nat)
    requires n <= |lines|
    ensures Headings(lines[..n]) <= Headings(lines)
    decreases |lines| - n
  {
    hide Headings, FenceLines, TitleOf, IsFence;
    if n < |lines| {
      HeadingsGrow(lines, n);
      HeadingsStable(lines, n + 1);
    } else {
      assert lines[..n] == lines;
    }
  }

  // ----- What the item limit is compared with -----

  predicate IsRoot(found: seq<Found>, k: nat)
    requires k < |found|
  {
    forall j :: 0 <= j < k ==> found[j].title.level >= found[k].title.level
  }

  predicate StillOpen(found: seq<Found>, j: nat)
    requires j < |found|
  {
    forall m :: j < m < |found| ==> found[m].title.level > found[j].title.level
  }

  function RootsAmong(found: seq<Found>, n: nat): nat
    requires n <= |found|
  {
    if n == 0 then 0 else RootsAmong(found, n - 1) + if IsRoot(found, n - 1) then 1 else 0
  }

  function OpenAmong(found: seq<Found>, n: nat): nat
    requires n <= |found|
  {
    if n == 0 then 0 else OpenAmong(found, n - 1) + if StillOpen(found, n - 1) then 1 else 0
  }

  /** Top-level headings and open ones, counting the one that is both once. */
  function Tally(found: seq<Found>): int {
    RootsAmong(found, |found|) + OpenAmong(found, |found|) - 1
  }

  /** Headings are taken up to the first at which the tally reaches the limit. */
  ghost predicate TakenUnder(found: seq<Found>, n: nat, maxItems: nat) {
    && n <= |found|
    && (forall k: nat :: 0 < k < n ==> Tally(found[..k]) < maxItems)
    && (n < |found| ==> 0 < n && Tally(found[..n]) >= maxItems)
  }

  /** Only one root can be open, so the tally never exceeds the headings taken. */
  lemma {:induction false} TallyIsSmall(found: seq<Found>, n: nat)
    requires n <= |found|
    ensures RootsAmong(found, n) + OpenAmong(found, n)
         <= n + if exists k :: 0 <= k < n && IsRoot(found, k) && StillOpen(found, k) then 1 else 0
  {
    if n > 0 {
      TallyIsSmall(found, n - 1);
      if IsRoot(found, n - 1) && StillOpen(found, n - 1) {
        assert forall k :: 0 <= k < n - 1 && IsRoot(found, k) ==> !StillOpen(found, k);
      }
    }
  }

  lemma TakenBounds(found: seq<Found>, n: nat, maxItems: nat)
    requires TakenUnder(found, n, maxItems)
    ensures n <= maxItems <==> |found| <= maxItems || Tally(found[..maxItems]) >= maxItems
  {
    if 0 < n { TallyIsSmall(found[..n], n); }
    hide RootsAmong, OpenAmong;
  }

  lemma ForestCount(items: seq<Item>, found: seq<Found>, code: seq<byte>)
    requires IsHeadingForest(Entries(items, None), found, code)
    ensures CountAll(items) == |found|
  {
    hide Describes, HangsRight, Entries;
    EntriesFollowPreorder(items, None);
    CountIsFlatLength(items);
  }

  /** The limit bounds the number of items if and only if there are no more headings, or
      the tally of the first that many reaches it. */
  lemma LimitBounds(items: seq<Item>, code: seq<byte>, n: nat, maxItems: nat)
    requires TakenUnder(Headings(Lines(Lossy(code))), n, maxItems)
    requires IsHeadingForest(Entries(items, None), Headings(Lines(Lossy(code)))[..n], code)
    ensures
      var found := Headings(Lines(Lossy(code)));
      CountAll(items) <= maxItems <==> |found| <= maxItems || Tally(found[..maxItems]) >= maxItems
  {
    hide Headings, Lines, Lossy, Tally, IsHeadingForest, Entries;
    TakenBounds(Headings(Lines(Lossy(code))), n, maxItems);
    ForestCount(items, Headings(Lines(Lossy(code)))[..n], code);
  }

  ghost predicate IsTitleWithSubheadings(found: seq<Found>) {
    found != [] && found[0].title.level == 1 && forall k :: 0 < k < |found| ==> found[k].title.level == 2
  }

  lemma {:induction false} FlatTally(found: seq<Found>, n: nat)
    requires 0 < n <= |found| && found[0].title.level == 1
    requires forall k :: 0 < k < |found| ==> found[k].title.level == 2
    ensures RootsAmong(found, n) == 1 && OpenAmong(found, n) <= if n == |found| then 2 else 1
  {
    if n == 1 {
      assert IsRoot(found, 0) && StillOpen(found, 0);
      assert RootsAmong(found, 0) == 0 && OpenAmong(found, 0) == 0;
    } else {
      FlatTally(found, n - 1);
      assert found[0].title.level < found[n - 1].title.level;
      if n < |found| { assert found[n].title.level == 2; }
    }
  }

  /** `# T` and then this many lines `## s`. */
  function Subheadings(k: nat): seq<byte> {
    if k == 0 then [35, 32, 84, 10] else Subheadings(k - 1) + [35, 35, 32, 115, 10]
  }

  lemma {:induction false} SubheadingLines(k: nat)
    ensures Lines(Lossy(Subheadings(k))) == ["# T"] + seq(k, _ => "## s")
    ensures EndsLine(Lossy(Subheadings(k)))
  {
    hide Lines, LossyFrom;
    if k == 0 {
      DecodesTo([35, 32, 84, 10], "# T\n");
      OneTextLine("# T");
      assert "# T" + "\n" == "# T\n" && ["# T"] + seq(0, _ => "## s") == ["# T"];
    } else {
      SubheadingLines(k - 1);
      var before, own := Subheadings(k - 1), [35, 35, 32, 115, 10];
      assert before[|before| - 1] == NEWLINE;
      assert (before + own)[..|before|] == before && (before + own)[|before|..] == own;
      LossyJoins(before + own, |before|);
      DecodesTo(own, "## s\n");
      OneTextLine("## s");
      assert "## s" + "\n" == "## s\n";
      LinesJoin(Lossy(before), Lossy(own));
      assert Subheadings(k) == before + own;
      assert ["# T"] + seq(k, _ => "## s") == ["# T"] + seq(k - 1, _ => "## s") + ["## s"];
    }
  }

  lemma NotFence(line: string)
    requires line != [] && line[0] == '#'
    ensures !IsFence(line)
  {
    Marks();
    hide IsWhitespace;
    assert [] + line == line;
    TrimStartSplits([], line);
  }

  // ----- A file of headings -----

  function HeadingLine(title: Title): string { seq(title.level, _ => '#') + " " + title.name }

  predicate Printable(title: Title) {
    1 <= title.level <= 6 && title.name != [] && Bare(title.name) && '\n' !in title.name
  }

  lemma HeadingLineReads(title: Title)
    requires Printable(title)
    ensures TitleOf(HeadingLine(title)) == Some(title) && !IsFence(HeadingLine(title))
  {
    NotFence(HeadingLine(title));
    NoPad();
    hide TitleOf, IsFence, IsWhitespace, AllWhitespace;
    assert [] + seq(title.level, _ => '#') + " " + title.name == HeadingLine(title);
    TitleRoundTrip([], title.level, title.name);
  }

  lemma HeadingLineStands(title: Title)
    requires Printable(title)
    ensures '\n' !in HeadingLine(title) && !EndsInReturn(HeadingLine(title))
  {
    assert IsWhitespace('\r');
    hide IsWhitespace;
  }

  lemma {:induction false} PrintedLines(titles: seq<Title>, lines: seq<string>, n: nat)
    requires n <= |titles| == |lines|
    requires forall k :: 0 <= k < |titles| ==> Printable(titles[k]) && lines[k] == HeadingLine(titles[k])
    ensures Headings(lines[..n]) == seq(n, k requires 0 <= k < n => Found(k + 1, titles[k]))
    ensures FenceLines(lines[..n]) == 0
  {
    hide TitleOf, IsFence, Printable, HeadingLine;
    if 0 < n {
      PrintedLines(titles, lines, n - 1);
      HeadingLineReads(titles[n - 1]);
      HeadingsGrow(lines, n - 1);
    }
  }

  /** A file of printed headings, whatever their characters and terminators, has them as
      its headings, line by line. */
  lemma PrintedHeadings(titles: seq<Title>, crlf: seq<bool>)
    requires |titles| == |crlf| && forall k :: 0 <= k < |titles| ==> Printable(titles[k])
    ensures
      var lines := seq(|titles|, k requires 0 <= k < |titles| => HeadingLine(titles[k]));
      Headings(Lines(Lossy(EncodeAll(Written(lines, crlf)))))
        == seq(|titles|, k requires 0 <= k < |titles| => Found(k + 1, titles[k]))
  {
    hide Headings, FenceLines, Lines, Lossy, EncodeAll, Printable, HeadingLine, EndsInReturn, Written;
    var lines := seq(|titles|, k requires 0 <= k < |titles| => HeadingLine(titles[k]));
    forall k | 0 <= k < |titles| ensures '\n' !in lines[k] && !EndsInReturn(lines[k]) { HeadingLineStands(titles[k]); }
    TextReadsBack(Written(lines, crlf));
    LinesReadBack(lines, crlf);
    PrintedLines(titles, lines, |lines|);
    assert lines[..|lines|] == lines;
  }

  lemma TitleLine()
    ensures TitleOf("# T") == Some(Title(1, "T")) && !IsFence("# T")
  {
    NotFence("# T");
    hide TitleOf, IsFence;
    assert [] + seq(1, _ => '#') + " " + "T" == "# T";
    TitleRoundTrip([], 1, "T");
  }

  lemma SubheadingLine()
    ensures TitleOf("## s") == Some(Title(2, "s")) && !IsFence("## s")
  {
    NotFence("## s");
    hide TitleOf, IsFence;
    assert [] + seq(2, _ => '#') + " " + "s" == "## s";
    TitleRoundTrip([], 2, "s");
  }

  lemma {:induction false} SubheadingLevels(k: nat)
    ensures
      var lines := ["# T"] + seq(k, _ => "## s");
      |Headings(lines)| == k + 1 && IsTitleWithSubheadings(Headings(lines)) && FenceLines(lines) == 0
  {
    hide TitleOf, IsFence;
    TitleLine();
    SubheadingLine();
    var lines := ["# T"] + seq(k, _ => "## s");
    if k == 0 {
      HeadingsGrow(lines, 0);
      NothingFound(lines, []);
      assert lines[..1] == lines;
    } else {
      SubheadingLevels(k - 1);
      assert lines[..k] == ["# T"] + seq(k - 1, _ => "## s") && lines[..k + 1] == lines;
      HeadingsGrow(lines, k);
    }
  }

  /** It fails for a title with subheadings: under a limit of three, all of them are
      items however many there are. */
  lemma SubheadingsEscapeTheLimit(items: seq<Item>, k: nat, n: nat)
    requires TakenUnder(Headings(Lines(Lossy(Subheadings(k)))), n, 3)
    requires IsHeadingForest(Entries(items, None), Headings(Lines(Lossy(Subheadings(k))))[..n], Subheadings(k))
    ensures CountAll(items) == k + 1
  {
    hide Headings, Lines, Subheadings, Tally, IsHeadingForest, Entries;
    SubheadingLines(k);
    SubheadingLevels(k);
    var found := Headings(["# T"] + seq(k, _ => "## s"));
    if 0 < n { FlatTallyOf(found[..n]); }
    ForestCount(items, Headings(Lines(Lossy(Subheadings(k))))[..n], Subheadings(k));
  }

  lemma FlatTallyOf(found: seq<Found>)
    requires IsTitleWithSubheadings(found)
    ensures Tally(found) < 3
  {
    FlatTally(found, |found|);
  }

  // ----- The stack holds what the tally counts -----

  lemma {:induction false} OpenMatch(open: seq<nat>, found: seq<Found>, n: nat)
    requires n <= |found|
    requires forall s, t :: 0 <= s < t < |open| ==> open[s] < open[t]
    requires forall j: nat :: j in open <==> j < n && StillOpen(found, j)
    ensures |open| == OpenAmong(found, n)
    decreases n
  {
    hide StillOpen;
    FirstIsIn(open);
    if n == 0 {
    } else if StillOpen(found, n - 1) {
      var front, last := open[..|open| - 1], open[|open| - 1];
      assert n - 1 in open;
      assert last == n - 1 by { assert last in open; }
      forall j: nat ensures j in front <==> j < n - 1 && StillOpen(found, j) {
        if j in front { assert j in open; }
        if j in open && j != last { assert j in front; }
      }
      OpenMatch(front, found, n - 1);
    } else {
      OpenMatch(open, found, n - 1);
    }
  }

  lemma {:induction false} RootsMatch(log: seq<Entry>, found: seq<Found>, n: nat)
    requires n <= |log| == |found|
    requires forall k: nat :: k < |log| ==> (log[k].parent.None? <==> IsRoot(found, k))
    ensures RootEntries(log[..n]) == RootsAmong(found, n)
  {
    if n > 0 {
      RootsMatch(log, found, n - 1);
      assert log[..n][..n - 1] == log[..n - 1];
    }
  }

  lemma TallyMatches(log: seq<Entry>, at: seq<nat>, open: seq<nat>, found: seq<Found>)
    requires LogOk(log, at, Levels(found)) && AreOpen(open, Levels(found)) && |log| == |found| && found != []
    ensures RootEntries(log) + |open| - 1 == Tally(found)
  {
    forall k: nat | k < |log| ensures log[k].parent.None? <==> IsRoot(found, k) {
      ParentIsClosestLower(log[k].parent, at, found, k);
    }
    RootsMatch(log, found, |log|);
    assert log[..|log|] == log;
    forall j: nat ensures j in open <==> j < |found| && StillOpen(found, j) {
      if j < |found| { StillOpenIsOpen(found, j); }
    }
    hide LogOk, RootEntries;
    OpenMatch(open, found, |found|);
  }

  lemma StillOpenIsOpen(found: seq<Found>, j: nat)
    requires j < |found|
    ensures StillOpen(found, j) <==> Open(Levels(found), j, |found| - 1)
  {
    var events := Levels(found);
    assert forall m :: 0 <= m < |found| ==> events[m].level == found[m].title.level;
  }

  /** Close what this heading closes and open it. */
  method AddHeading(nesting: NestingStack, ghost found: seq<Found>, heading: Found, id: nat, index: Index,
                    code: seq<byte>)
    requires nesting.Valid() && nesting.events == Levels(found) && id == |found| + 1
    requires Described(nesting.log, found, code)
    requires index.Indexes(code) && 0 < heading.line <= 1 + Newlines(code)
    modifies nesting
    ensures nesting.Valid() && nesting.events == Levels(found + [heading])
    ensures Described(nesting.log, found + [heading], code)
    ensures |nesting.top| + |nesting.stack| == Tally(found + [heading])
  {
    hide LogOk, AreOpen, AreSurvivors, FramesOk, CoversLine, StackEntries, Entries, IsLineStarts, Tally, RootEntries,
      Newlines;
    var evidence := LineEvidence(index, code, heading.line);
    nesting.CloseTo(heading.title.level);
    var item := Item(id, heading.title.name, Heading(heading.title.level), evidence.value, []);
    nesting.Push(heading.title.level, item);
    assert Levels(found + [heading]) == Levels(found) + [Event(heading.title.level, true)];
    TallyMatches(nesting.log, nesting.at, nesting.open, found + [heading]);
    FramesMatch(nesting.stack, nesting.open, nesting.at, nesting.events);
  }

  /** Only an empty result on a nonempty file falls back to line blocks. */
  method ExtractMarkdown(code: seq<byte>, maxItems: nat, linesPerBlock: nat) returns (items: seq<Item>, fallback: bool)
    ensures fallback <==> Headings(Lines(Lossy(code))) == [] && code != []
    ensures !fallback ==> exists n: nat ::
      && TakenUnder(Headings(Lines(Lossy(code))), n, maxItems)
      && IsHeadingForest(Entries(items, None), Headings(Lines(Lossy(code)))[..n], code)
    ensures fallback ==> |items| <= maxItems && exists byteEnd: nat, lineEnd: nat ::
      Tiles(items, byteEnd, lineEnd, Max(linesPerBlock, 1), code) && (|items| < maxItems ==> byteEnd == |code|)
  {
    hide Headings, FenceLines, Tiles, IsLineStarts, Described, IsHeadingForest, Levels, Entries, TitleOf, IsFence,
      LogOk, AreOpen, FramesOk, StackEntries, Lines, Tally, TakenUnder, Lossy, Newlines;
    var index := NewIndex(code);
    var lines := Lines(Lossy(code));
    LinesAreFew(code);
    var inFence, id, n := false, 1, 0;
    var nesting := new NestingStack();
    ghost var found: seq<Found> := [];
    NothingFound(lines, code);
    var cut := false;
    while n < |lines| && !cut
      invariant n <= |lines| && fresh(nesting)
      invariant nesting.Valid() && nesting.events == Levels(found) && id == |found| + 1
      invariant found == Headings(lines[..n]) && Described(nesting.log, found, code)
      invariant inFence <==> FenceLines(lines[..n]) % 2 == 1
      invariant if cut then found != [] && Tally(found) >= maxItems else found == [] || Tally(found) < maxItems
      invariant forall k: nat :: 0 < k < |found| ==> Tally(found[..k]) < maxItems
    {
      HeadingsGrow(lines, n);
      var line := lines[n];
      n := n + 1;
      if IsFence(line) {
        inFence := !inFence;
        continue;
      }
      if inFence { continue; }
      var title := TitleOf(line);
      if title.Some? {
        AddHeading(nesting, found, Found(n, title.value), id, index, code);
        ghost var before := found;
        found := found + [Found(n, title.value)];
        forall k: nat | 0 < k < |found| ensures Tally(found[..k]) < maxItems {
          assert found[..k] == if k < |before| then before[..k] else before;
        }
        id := id + 1;
        if |nesting.top| + |nesting.stack| >= maxItems { cut := true; }
      }
    }
    HeadingsStable(lines, n);
    assert n == |lines| ==> lines[..n] == lines;
    nesting.Drain();
    DescribedLength(nesting.log, found, code);
    items, fallback := nesting.top, nesting.top == [] && code != [];
    if fallback {
      ghost var lineCount;
      items, lineCount := ExtractLineBlocks(code, maxItems, linesPerBlock);
    } else {
      ForestFollows(nesting.log, nesting.at, found, code);
      assert found == Headings(lines)[..|found|];
      TakenSoFar(Headings(lines), found, maxItems);
    }
  }

  lemma TakenSoFar(all: seq<Found>, found: seq<Found>, maxItems: nat)
    requires found <= all && (found != all ==> found != [] && Tally(found) >= maxItems)
    requires forall k: nat :: 0 < k < |found| ==> Tally(found[..k]) < maxItems
    ensures TakenUnder(all, |found|, maxItems)
  {
    hide Tally;
    assert all[..|found|] == found;
    forall k: nat | 0 < k < |found| ensures Tally(all[..k]) < maxItems { assert all[..k] == found[..k]; }
  }

  lemma NothingFound(lines: seq<string>, code: seq<byte>)
    ensures Headings(lines[..0]) == [] && FenceLines(lines[..0]) == 0 && Levels([]) == [] && Described([], [], code)
  {
  }

  lemma DescribedLength(log: seq<Entry>, found: seq<Found>, code: seq<byte>)
    requires Described(log, found, code)
    ensures |log| == |found|
  {
  }

  lemma {:induction false} LevelsAreHeadingLevels(lines: seq<string>)
    ensures forall f :: f in Headings(lines) ==> 1 <= f.title.level <= 6
    decreases |lines|
  {
    if lines != [] {
      LevelsAreHeadingLevels(lines[..|lines| - 1]);
      hide Trim, Hashes, FenceLines, IsFence;
    }
  }

  /** Parents by closest lower level make at most six generations. */
  lemma MarkdownDepth(items: seq<Item>, found: seq<Found>, code: seq<byte>, lines: seq<string>)
    requires IsHeadingForest(Entries(items, None), found, code) && found <= Headings(lines)
    ensures DepthAll(items) <= 6
  {
    hide Entries, Headings, Describes;
    LevelsAreHeadingLevels(lines);
    var log := Entries(items, None);
    forall i | 0 <= i < |found| ensures 1 <= found[i].title.level <= 6 {
      assert found[i] == Headings(lines)[i];
    }
    var ranks := seq(|found|,
        k requires 0 <= k < |found| => if found[k].title.level >= 1 then found[k].title.level - 1 else 0);
    hide IsHeadingForest;
    forall e | e in log ensures RanksAbove(e, ranks, 5) {
      var k :| 0 <= k < |log| && log[k] == e;
      HeadingRanks(log, found, code, k, ranks);
    }
    DepthByRank(items, None, ranks, 5);
  }

  lemma HeadingRanks(log: seq<Entry>, found: seq<Found>, code: seq<byte>, k: nat, ranks: seq<nat>)
    requires IsHeadingForest(log, found, code) && k < |log| && |ranks| == |found|
    requires forall i :: 0 <= i < |found| ==> 1 <= found[i].title.level <= 6 && ranks[i] == found[i].title.level - 1
    ensures RanksAbove(log[k], ranks, 5)
  {
    hide Describes;
    assert HangsRight(log[k].parent, found, k) && log[k].id == k + 1;
  }
}
