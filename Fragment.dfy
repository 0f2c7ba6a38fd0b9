/**
 * Story files and their parser (main.py, parse_story_file and the loading loop
 * of load_story_files).
 *
 * A file is a header of `From:` / `Title:` lines and blank lines, followed by
 * the body, which starts at the first other line. The header scan is given as
 * a line classifier and a left-to-right fold (`Classify`, `HeaderOf`,
 * `BodyStart`, `Parse`); `ParseStoryFile` is the scanning loop itself, proved
 * to compute `Parse`.
 */
module Fragment {
  import opened Wrappers
  import opened Text

  /** A parsed story file: main.py's `{"from_file", "title", "text"}` record. */
  datatype Story = Story(fromFile: Option<string>, title: string, text: string)

  /** Why a file is dropped: the two warnings of parse_story_file. */
  datatype ParseError = MissingTitle | NoStoryContent

  /** How the header scan treats one line. */
  datatype LineKind =
    | FromLine(parent: Option<string>)
    | TitleLine(title: string)
    | BlankLine
    | BodyLine

  /** The metadata gathered by the header scan so far. */
  datatype Header = Header(fromFile: Option<string>, title: Option<string>)

  /** The value of a `From:` line: `none`, in any case, means "no parent". */
  function ParentValue(v: string): Option<string> {
    if Lower(v) == "none" then None else Some(v)
  }

  /** The class of a raw line, judged on the line with its white space trimmed. */
  function Classify(raw: string): LineKind {
    var line := Strip(raw);
    if StartsWith(Lower(line), "from:") then FromLine(ParentValue(Strip(line[5..])))
    else if StartsWith(Lower(line), "title:") then TitleLine(Strip(line[6..]))
    else if line == "" then BlankLine
    else BodyLine
  }

  /**
   * The if-chain's classes, judged on the trimmed, lower-cased line: a
   * `From:` line exactly when it starts with `from:`; a `Title:` line exactly
   * when it starts with `title:` but not `from:`; blank exactly when it trims
   * to nothing; a body line exactly when it is none of these. A title is
   * kept trimmed.
   */
  lemma ClassifyFacts(raw: string)
    ensures Classify(raw).FromLine? <==> StartsWith(Lower(Strip(raw)), "from:")
    ensures Classify(raw).BlankLine? <==> Strip(raw) == ""
    ensures Classify(raw).BodyLine? <==>
      Strip(raw) != "" && !StartsWith(Lower(Strip(raw)), "from:") && !StartsWith(Lower(Strip(raw)), "title:")
    ensures Classify(raw).TitleLine? <==>
      !StartsWith(Lower(Strip(raw)), "from:") && StartsWith(Lower(Strip(raw)), "title:")
    ensures Classify(raw).TitleLine? ==> Strip(Classify(raw).title) == Classify(raw).title
  {
    var line := Strip(raw);
    if |line| >= 6 {
      StripIdempotent(line[6..]);
    }
  }

  /** One header line's effect: a later `From:` or `Title:` overwrites an earlier one. */
  function Apply(h: Header, kind: LineKind): Header {
    match kind
    case FromLine(p) => h.(fromFile := p)
    case TitleLine(t) => h.(title := Some(t))
    case _ => h
  }

  /** The header that scanning `lines` from the first to the last produces. */
  function HeaderOf(lines: seq<string>): Header
    decreases |lines|
  {
    if lines == [] then Header(None, None)
    else Apply(HeaderOf(lines[..|lines| - 1]), Classify(lines[|lines| - 1]))
  }

  /** Scanning one more line applies that line's effect. */
  lemma HeaderOfStep(lines: seq<string>, i: nat)
    requires i < |lines|
    ensures HeaderOf(lines[..i + 1]) == Apply(HeaderOf(lines[..i]), Classify(lines[i]))
  {
    assert lines[..i + 1][..i] == lines[..i];
  }

  /** The index of the first body line, or `|lines|` when every line is header. */
  function BodyStart(lines: seq<string>): (k: nat)
    ensures k <= |lines|
    ensures forall j :: 0 <= j < k ==> !Classify(lines[j]).BodyLine?
    ensures k < |lines| ==> Classify(lines[k]).BodyLine?
    decreases |lines|
  {
    if lines == [] then 0
    else if Classify(lines[0]).BodyLine? then 0
    else 1 + BodyStart(lines[1..])
  }

  /** The lines of `content` before its first body line. */
  function HeaderLines(content: string): seq<string> {
    var lines := Split(content);
    lines[..BodyStart(lines)]
  }

  /** The lines of `content` from its first body line on (none when there is no body line). */
  function BodyLines(content: string): seq<string> {
    var lines := Split(content);
    lines[BodyStart(lines)..]
  }

  /** What parsing a file's content yields: the header's metadata and the trimmed body. */
  function Parse(content: string): Result<Story, ParseError> {
    var h := HeaderOf(HeaderLines(content));
    var text := Strip(Join(BodyLines(content)));
    if h.title.None? || h.title.value == "" then Failure(MissingTitle)
    else if text == "" then Failure(NoStoryContent)
    else Success(Story(h.fromFile, h.title.value, text))
  }

  /** parse_story_file: the forward scan over the lines of `content`. */
  method ParseStoryFile(content: string) returns (result: Result<Story, ParseError>)
    ensures result == Parse(content)
  {
    var lines := Split(content);
    var fromFile: Option<string> := None;
    var title: Option<string> := None;
    var textLines: seq<string> := [];
    var i := 0;
    while i < |lines|
      invariant 0 <= i <= |lines|
      invariant i <= BodyStart(lines)
      invariant Header(fromFile, title) == HeaderOf(lines[..i])
      invariant textLines == []
    {
      HeaderOfStep(lines, i);
      ghost var before := Header(fromFile, title);
      var line := Strip(lines[i]);
      if StartsWith(Lower(line), "from:") {
        var value := Strip(line[5..]);
        assert Classify(lines[i]) == FromLine(ParentValue(value));
        fromFile := Some(value);
        if Lower(value) == "none" {
          fromFile := None;
        }
      } else if StartsWith(Lower(line), "title:") {
        assert Classify(lines[i]) == TitleLine(Strip(line[6..]));
        title := Some(Strip(line[6..]));
      } else if line == "" {
        assert Classify(lines[i]) == BlankLine;
      } else {
        assert Classify(lines[i]) == BodyLine;
        textLines := lines[i..];
        break;
      }
      assert Header(fromFile, title) == Apply(before, Classify(lines[i]));
      assert !Classify(lines[i]).BodyLine?;
      assert i != BodyStart(lines);
      i := i + 1;
    }
    assert i == BodyStart(lines);
    assert Header(fromFile, title) == HeaderOf(HeaderLines(content));
    assert textLines == BodyLines(content);
    if title.None? || title.value == "" {
      return Failure(MissingTitle);
    }
    var text := Strip(Join(textLines));
    if text == "" {
      return Failure(NoStoryContent);
    }
    return Success(Story(fromFile, title.value, text));
  }

  /** Each value the header keeps is trimmed, and a kept parent is never `none`. */
  lemma {:induction false} HeaderValuesTrimmed(lines: seq<string>)
    ensures var h := HeaderOf(lines);
      && (h.fromFile.Some? ==> Strip(h.fromFile.value) == h.fromFile.value && Lower(h.fromFile.value) != "none")
      && (h.title.Some? ==> Strip(h.title.value) == h.title.value)
    decreases |lines|
  {
    if lines != [] {
      HeaderValuesTrimmed(lines[..|lines| - 1]);
      var line := Strip(lines[|lines| - 1]);
      match Classify(lines[|lines| - 1])
      case FromLine(p) =>
        StripIdempotent(line[5..]);
      case TitleLine(t) =>
        StripIdempotent(line[6..]);
      case _ =>
    }
  }

  /** The last `From:` line of the header decides the parent. */
  lemma {:induction false} HeaderLastFrom(lines: seq<string>, j: nat)
    requires j < |lines| && Classify(lines[j]).FromLine?
    requires forall k :: j < k < |lines| ==> !Classify(lines[k]).FromLine?
    ensures HeaderOf(lines).fromFile == Classify(lines[j]).parent
    decreases |lines|
  {
    var n := |lines| - 1;
    assert HeaderOf(lines) == Apply(HeaderOf(lines[..n]), Classify(lines[n]));
    if j < n {
      assert forall k :: j < k < n ==> lines[..n][k] == lines[k];
      HeaderLastFrom(lines[..n], j);
    }
  }

  /** Without a `From:` line in the header there is no parent. */
  lemma {:induction false} HeaderNoFrom(lines: seq<string>)
    requires forall k :: 0 <= k < |lines| ==> !Classify(lines[k]).FromLine?
    ensures HeaderOf(lines).fromFile == None
    decreases |lines|
  {
    if lines != [] {
      var n := |lines| - 1;
      assert HeaderOf(lines) == Apply(HeaderOf(lines[..n]), Classify(lines[n]));
      assert forall k :: 0 <= k < n ==> lines[..n][k] == lines[k];
      HeaderNoFrom(lines[..n]);
    }
  }

  /** The last `Title:` line of the header decides the title. */
  lemma {:induction false} HeaderLastTitle(lines: seq<string>, j: nat)
    requires j < |lines| && Classify(lines[j]).TitleLine?
    requires forall k :: j < k < |lines| ==> !Classify(lines[k]).TitleLine?
    ensures HeaderOf(lines).title == Some(Classify(lines[j]).title)
    decreases |lines|
  {
    var n := |lines| - 1;
    assert HeaderOf(lines) == Apply(HeaderOf(lines[..n]), Classify(lines[n]));
    if j < n {
      assert forall k :: j < k < n ==> lines[..n][k] == lines[k];
      HeaderLastTitle(lines[..n], j);
    }
  }

  /** Without a `Title:` line in the header there is no title. */
  lemma {:induction false} HeaderNoTitle(lines: seq<string>)
    requires forall k :: 0 <= k < |lines| ==> !Classify(lines[k]).TitleLine?
    ensures HeaderOf(lines).title == None
    decreases |lines|
  {
    if lines != [] {
      var n := |lines| - 1;
      assert HeaderOf(lines) == Apply(HeaderOf(lines[..n]), Classify(lines[n]));
      assert forall k :: 0 <= k < n ==> lines[..n][k] == lines[k];
      HeaderNoTitle(lines[..n]);
    }
  }

  /**
   * What an accepted record holds: a non-empty trimmed title, a non-empty
   * trimmed body, and a parent that is trimmed and not `none`.
   */
  lemma ParseAccepted(content: string)
    requires Parse(content).Success?
    ensures var s := Parse(content).value;
      && s.title != "" && Strip(s.title) == s.title
      && s.text != "" && Strip(s.text) == s.text
      && (s.fromFile.Some? ==> Strip(s.fromFile.value) == s.fromFile.value && Lower(s.fromFile.value) != "none")
  {
    HeaderValuesTrimmed(HeaderLines(content));
    StripIdempotent(Join(BodyLines(content)));
  }

  /** A file whose header has no `Title:` line is dropped for its missing title. */
  lemma ParseWithoutTitle(content: string)
    requires forall j :: 0 <= j < |HeaderLines(content)| ==> !Classify(HeaderLines(content)[j]).TitleLine?
    ensures Parse(content) == Failure(MissingTitle)
  {
    HeaderNoTitle(HeaderLines(content));
  }

  /**
   * With a `Title:` line in the header, the last one decides: an empty value
   * drops the file, any other value is the record's title.
   */
  lemma ParseLastTitle(content: string, j: nat)
    requires j < |HeaderLines(content)| && Classify(HeaderLines(content)[j]).TitleLine?
    requires forall k :: j < k < |HeaderLines(content)| ==> !Classify(HeaderLines(content)[k]).TitleLine?
    ensures var t := Classify(HeaderLines(content)[j]).title;
      && (t == "" ==> Parse(content) == Failure(MissingTitle))
      && (Parse(content).Success? ==> Parse(content).value.title == t)
  {
    HeaderLastTitle(HeaderLines(content), j);
  }

  /** No `From:` line in the header: the record has no parent. */
  lemma ParseWithoutParent(content: string)
    requires Parse(content).Success?
    requires forall j :: 0 <= j < |HeaderLines(content)| ==> !Classify(HeaderLines(content)[j]).FromLine?
    ensures Parse(content).value.fromFile == None
  {
    HeaderNoFrom(HeaderLines(content));
  }

  /**
   * With a `From:` line in the header, the last one decides: its trimmed
   * value, or no parent when that value is `none` in any case.
   */
  lemma ParseLastParent(content: string, j: nat)
    requires Parse(content).Success?
    requires j < |HeaderLines(content)| && Classify(HeaderLines(content)[j]).FromLine?
    requires forall k :: j < k < |HeaderLines(content)| ==> !Classify(HeaderLines(content)[k]).FromLine?
    ensures var line := Strip(HeaderLines(content)[j]);
      Parse(content).value.fromFile == ParentValue(Strip(line[5..]))
  {
    HeaderLastFrom(HeaderLines(content), j);
  }

  /** `none` in any case means no parent; an empty value is kept as the empty string. */
  lemma ParentValueExamples()
    ensures ParentValue("none") == None && ParentValue("None") == None && ParentValue("NONE") == None
    ensures ParentValue("") == Some("")
    ensures ParentValue("start") == Some("start")
  {
  }

  /**
   * The body boundary: the content is the header lines, then the body lines,
   * joined by line breaks; no header line is a body line and the first body
   * line is one; the body text is the body lines as they are, trimmed only at
   * the two ends, so later lines that look like metadata stay in it.
   */
  lemma ParseBody(content: string)
    requires Parse(content).Success?
    ensures var header, body := HeaderLines(content), BodyLines(content);
      && header != [] && body != []
      && content == Join(header) + "\n" + Join(body)
      && (forall j :: 0 <= j < |header| ==> !Classify(header[j]).BodyLine?)
      && Classify(body[0]).BodyLine?
      && Parse(content).value.text == Strip(Join(body))
  {
    var lines := Split(content);
    var k := BodyStart(lines);
    assert HeaderLines(content) == lines[..k];
    assert BodyLines(content) == lines[k..];
    JoinAt(lines, k);
  }

  /** A trimmed value `v` after `From: ` makes a `From:` line with parent `ParentValue(v)`. */
  lemma ClassifyFromLine(v: string)
    requires Strip(v) == v
    ensures Classify("From: " + v) == FromLine(ParentValue(v))
  {
    var x := "From: " + v;
    assert x[1..] == "rom: " + v;
    assert StripStart(x) == x;
    var line := Strip(x);
    if v == [] {
      assert x[..|x| - 1] == "From:";
      assert !IsSpace(':') && IsSpace(' ');
      assert StripEnd("From:") == "From:";
      assert line == "From:";
      assert line[5..] == [];
    } else {
      StripFacts(v);
      assert line == x;
      assert x[5..] == [' '] + v;
    }
    assert Lower(line)[..5] == "from:";
    if line[5..] != [] {
      StripLeadingSpace(' ', v);
    }
  }

  /** A non-empty trimmed value `t` after `Title: ` makes a `Title:` line with title `t`. */
  lemma ClassifyTitleLine(t: string)
    requires Strip(t) == t
    ensures Classify("Title: " + t) == TitleLine(t)
  {
    var x := "Title: " + t;
    if t == [] {
      assert x == "Title: ";
      ClassifyEmptyTitle();
    } else {
      assert x[1..] == "itle: " + t;
      assert StripStart(x) == x;
      StripFacts(t);
      assert Strip(x) == x;
      assert Lower(x)[..5] != "from:" by {
        assert Lower(x)[0] == 't';
      }
      assert Lower(x)[..6] == "title:";
      assert x[6..] == [' '] + t;
      StripLeadingSpace(' ', t);
    }
  }

  /** `Title:` with nothing after it is a `Title:` line with the empty title. */
  lemma ClassifyEmptyTitle()
    ensures Classify("Title: ") == TitleLine("")
  {
    var line := "Title:";
    assert Strip("Title: ") == line by {
      assert "Title: "[1..] == "itle: ";
      assert StripStart("Title: ") == "Title: ";
      assert StripEnd("Title: ") == line;
    }
    assert Lower(line)[..5] != "from:" by {
      assert Lower(line)[0] == 't';
    }
    assert Lower(line)[..6] == "title:";
    assert line[6..] == [];
  }

  /**
   * A well-formed file, a `From:` line and a non-empty `Title:` line in either
   * order followed by the body lines, parses to exactly the parent, title and
   * body it encodes (`ClassifyFromLine` and `ClassifyTitleLine` give the
   * classes of the lines `From: <parent>` and `Title: <title>`).
   */
  lemma ParseWellFormed(header: seq<string>, body: seq<string>, fromAt: nat)
    requires |header| == 2 && fromAt < 2
    requires NoNewline(header[0]) && NoNewline(header[1])
    requires Classify(header[fromAt]).FromLine?
    requires Classify(header[1 - fromAt]).TitleLine? && Classify(header[1 - fromAt]).title != ""
    requires body != [] && forall k :: 0 <= k < |body| ==> NoNewline(body[k])
    requires Classify(body[0]).BodyLine?
    ensures Parse(Join(header + body))
      == Success(Story(Classify(header[fromAt]).parent, Classify(header[1 - fromAt]).title, Strip(Join(body))))
  {
    assert header == [header[0], header[1]];
    HeaderOfPair(header[0], header[1]);
    ParseOfParts(header, body);
  }

  /** The header fold over two lines. */
  lemma HeaderOfPair(a: string, b: string)
    ensures HeaderOf([a, b]) == Apply(Apply(Header(None, None), Classify(a)), Classify(b))
  {
    assert [a, b][..1] == [a] && [a][..0] == [];
    assert HeaderOf([a]) == Apply(HeaderOf([]), Classify(a));
    assert HeaderOf([a, b]) == Apply(HeaderOf([a]), Classify(b));
  }

  /** A file made of header lines with a title and body lines parses to that header and body. */
  lemma ParseOfParts(header: seq<string>, body: seq<string>)
    requires forall k :: 0 <= k < |header| ==> NoNewline(header[k]) && !Classify(header[k]).BodyLine?
    requires body != [] && forall k :: 0 <= k < |body| ==> NoNewline(body[k])
    requires Classify(body[0]).BodyLine?
    requires HeaderOf(header).title.Some? && HeaderOf(header).title.value != ""
    ensures Parse(Join(header + body))
      == Success(Story(HeaderOf(header).fromFile, HeaderOf(header).title.value, Strip(Join(body))))
  {
    SplitAtBody(header, body);
    BodyNotBlank(body);
  }

  /** Header lines followed by body lines split back into exactly those two parts. */
  lemma SplitAtBody(header: seq<string>, body: seq<string>)
    requires forall k :: 0 <= k < |header| ==> NoNewline(header[k]) && !Classify(header[k]).BodyLine?
    requires body != [] && forall k :: 0 <= k < |body| ==> NoNewline(body[k])
    requires Classify(body[0]).BodyLine?
    ensures HeaderLines(Join(header + body)) == header
    ensures BodyLines(Join(header + body)) == body
  {
    var lines := header + body;
    SplitJoin(lines);
    BodyStartAfter(header, body);
  }

  /** The body starts right after a run of header lines. */
  lemma {:induction false} BodyStartAfter(header: seq<string>, body: seq<string>)
    requires forall k :: 0 <= k < |header| ==> !Classify(header[k]).BodyLine?
    requires body != [] && Classify(body[0]).BodyLine?
    ensures BodyStart(header + body) == |header|
    decreases |header|
  {
    if header != [] {
      assert (header + body)[1..] == header[1..] + body;
      BodyStartAfter(header[1..], body);
    }
  }

  /** Body lines that start with a body line never trim to the empty text. */
  lemma BodyNotBlank(body: seq<string>)
    requires body != [] && Classify(body[0]).BodyLine?
    ensures Strip(Join(body)) != ""
  {
    StripFacts(body[0]);
    var i :| 0 <= i < |body[0]| && !IsSpace(body[0][i]);
    JoinStartsWith(body);
    assert Join(body)[i] == body[0][i];
    StripFacts(Join(body));
  }

  /** One stored story: its identifier (the file's stem) and its record. */
  datatype Entry = Entry(id: string, story: Story)

  /** The identifiers of `stories`: the keys of main.py's `stories` dictionary. */
  function IdSet(stories: seq<Entry>): set<string> {
    set e | e in stories :: e.id
  }

  /** Dictionary keys are unique. */
  predicate DistinctIds(stories: seq<Entry>) {
    forall i, j :: 0 <= i < j < |stories| ==> stories[i].id != stories[j].id
  }

  /**
   * The stories kept and the files dropped, in file order, given the files as
   * (stem, content) pairs and what parsing each one gave.
   */
  function Kept(files: seq<(string, string)>, parsed: seq<Result<Story, ParseError>>): (seq<Entry>, seq<(string, ParseError)>)
    requires |parsed| == |files|
    decreases |files|
  {
    if files == [] then ([], [])
    else
      var n := |files| - 1;
      var (kept, dropped) := Kept(files[..n], parsed[..n]);
      if parsed[n].Success? then (kept + [Entry(files[n].0, parsed[n].value)], dropped)
      else (kept, dropped + [(files[n].0, parsed[n].error)])
  }

  /** What parsing each file gives; main.py strips the content before parsing it. */
  function ParseAll(files: seq<(string, string)>): (parsed: seq<Result<Story, ParseError>>)
    ensures |parsed| == |files|
  {
    seq(|files|, i requires 0 <= i < |files| => Parse(Strip(files[i].1)))
  }

  /** Loading files in order: the stories kept and the files dropped, with the reason. */
  function Load(files: seq<(string, string)>): (seq<Entry>, seq<(string, ParseError)>) {
    Kept(files, ParseAll(files))
  }

  /** The loop of load_story_files over the files already read. */
  method LoadStories(files: seq<(string, string)>) returns (stories: seq<Entry>, dropped: seq<(string, ParseError)>)
    ensures (stories, dropped) == Load(files)
  {
    ghost var parsedAll := ParseAll(files);
    stories, dropped := [], [];
    for i := 0 to |files|
      invariant (stories, dropped) == Kept(files[..i], parsedAll[..i])
    {
      KeptSnoc(files, parsedAll, i);
      var (stem, content) := files[i];
      var parsed := ParseStoryFile(Strip(content));
      match parsed
      case Success(s) =>
        stories := stories + [Entry(stem, s)];
      case Failure(e) =>
        dropped := dropped + [(stem, e)];
    }
    assert files[..|files|] == files;
    assert parsedAll[..|files|] == parsedAll;
  }

  /** Considering one more file keeps or drops it after the ones before. */
  lemma KeptSnoc(files: seq<(string, string)>, parsed: seq<Result<Story, ParseError>>, i: nat)
    requires |parsed| == |files| && i < |files|
    ensures var (kept, dropped) := Kept(files[..i], parsed[..i]);
      Kept(files[..i + 1], parsed[..i + 1])
        == if parsed[i].Success? then (kept + [Entry(files[i].0, parsed[i].value)], dropped)
           else (kept, dropped + [(files[i].0, parsed[i].error)])
  {
    assert files[..i + 1][..i] == files[..i];
    assert parsed[..i + 1][..i] == parsed[..i];
  }

  /** Every kept story comes from a file that parsed to it, under that file's stem. */
  lemma {:induction false} KeptOnlyParsed(files: seq<(string, string)>, parsed: seq<Result<Story, ParseError>>, e: Entry)
    requires |parsed| == |files| && e in Kept(files, parsed).0
    ensures exists k :: 0 <= k < |files| && files[k].0 == e.id && parsed[k] == Success(e.story)
    decreases |files|
  {
    var n := |files| - 1;
    if e in Kept(files[..n], parsed[..n]).0 {
      KeptOnlyParsed(files[..n], parsed[..n], e);
      var k :| 0 <= k < n && files[..n][k].0 == e.id && parsed[..n][k] == Success(e.story);
      assert files[..n][k] == files[k] && parsed[..n][k] == parsed[k];
    }
  }

  /** Every file that parsed is kept, under its stem, with its record. */
  lemma {:induction false} KeptAllParsed(files: seq<(string, string)>, parsed: seq<Result<Story, ParseError>>, k: nat)
    requires |parsed| == |files| && k < |files| && parsed[k].Success?
    ensures Entry(files[k].0, parsed[k].value) in Kept(files, parsed).0
    decreases |files|
  {
    var n := |files| - 1;
    if k < n {
      assert files[..n][k] == files[k] && parsed[..n][k] == parsed[k];
      KeptAllParsed(files[..n], parsed[..n], k);
    }
  }

  /** Files with distinct stems give stories with distinct identifiers. */
  lemma {:induction false} KeptDistinct(files: seq<(string, string)>, parsed: seq<Result<Story, ParseError>>)
    requires |parsed| == |files|
    requires forall i, j :: 0 <= i < j < |files| ==> files[i].0 != files[j].0
    ensures DistinctIds(Kept(files, parsed).0)
    decreases |files|
  {
    if files != [] {
      var n := |files| - 1;
      var kept := Kept(files[..n], parsed[..n]).0;
      KeptDistinct(files[..n], parsed[..n]);
      forall e | e in kept ensures e.id != files[n].0 {
        KeptOnlyParsed(files[..n], parsed[..n], e);
      }
    }
  }

  /**
   * Loading keeps exactly the files that parse, each under its stem with its
   * parsed record, and drops the rest; distinct stems give distinct
   * identifiers.
   */
  lemma LoadContents(files: seq<(string, string)>)
    ensures forall e :: e in Load(files).0 ==>
      exists k :: 0 <= k < |files| && files[k].0 == e.id && Parse(Strip(files[k].1)) == Success(e.story)
    ensures forall k :: 0 <= k < |files| && Parse(Strip(files[k].1)).Success? ==>
      Entry(files[k].0, Parse(Strip(files[k].1)).value) in Load(files).0
    ensures (forall i, j :: 0 <= i < j < |files| ==> files[i].0 != files[j].0) ==> DistinctIds(Load(files).0)
  {
    var parsed := ParseAll(files);
    forall e | e in Load(files).0
      ensures exists k :: 0 <= k < |files| && files[k].0 == e.id && Parse(Strip(files[k].1)) == Success(e.story)
    {
      KeptOnlyParsed(files, parsed, e);
      var k :| 0 <= k < |files| && files[k].0 == e.id && parsed[k] == Success(e.story);
      assert Parse(Strip(files[k].1)) == parsed[k];
    }
    forall k | 0 <= k < |files| && Parse(Strip(files[k].1)).Success?
      ensures Entry(files[k].0, Parse(Strip(files[k].1)).value) in Load(files).0
    {
      assert Parse(Strip(files[k].1)) == parsed[k];
      KeptAllParsed(files, parsed, k);
    }
    if forall i, j :: 0 <= i < j < |files| ==> files[i].0 != files[j].0 {
      KeptDistinct(files, parsed);
    }
  }
}
