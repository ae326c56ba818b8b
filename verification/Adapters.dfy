/** Adapter generation: the generated header is stripped from the canonical text and put back on every variant. */
module Adapters {
  import opened Text

  const HEADER_START := "<!-- Generated from shared/adapter-"
  const HEADER_END := "source.md. Do not edit directly. -->"
  const HEADER_LINE: string := HEADER_START + HEADER_END
  const YAML_HEADER := "# Generated from shared/adapter-source.md. Do not edit directly.\n"

  // ---------- lines ----------

  /** The characters at which `str.splitlines` breaks. */
  predicate IsBreak(c: char) {
    var n := c as int;
    10 <= n <= 13 || 28 <= n <= 30 || n == 0x85 || n == 0x2028 || n == 0x2029
  }

  /** The line breaks one by one: \n, \v, \f, \r, three separators, next line, line and paragraph separator. */
  lemma BreaksAre(c: char)
    ensures IsBreak(c) <==> c as int in {0x0A, 0x0B, 0x0C, 0x0D, 0x1C, 0x1D, 0x1E, 0x85, 0x2028, 0x2029}
  {}

  function LineEnd(s: string): (n: nat)
    ensures n <= |s|
    ensures forall i :: 0 <= i < n ==> !IsBreak(s[i])
    ensures n < |s| ==> IsBreak(s[n])
  {
    if s == "" || IsBreak(s[0]) then 0 else 1 + LineEnd(s[1..])
  }

  /** `str.splitlines`: a carriage return and line feed count as one break. */
  function SplitLines(s: string): seq<string>
    decreases |s|
  {
    if s == "" then []
    else
      var n := LineEnd(s);
      if n == |s| then [s]
      else
        var skip := if s[n] == '\r' && n + 1 < |s| && s[n + 1] == '\n' then 2 else 1;
        [s[..n]] + SplitLines(s[n + skip..])
  }

  function Join(lines: seq<string>): string {
    if lines == [] then ""
    else if |lines| == 1 then lines[0]
    else lines[0] + "\n" + Join(lines[1..])
  }

  ghost predicate Unbroken(line: string) { forall i :: 0 <= i < |line| ==> !IsBreak(line[i]) }

  ghost predicate AllUnbroken(lines: seq<string>) { forall k :: 0 <= k < |lines| ==> Unbroken(lines[k]) }

  /** The only breaks are line feeds. */
  ghost predicate Clean(s: string) { forall i :: 0 <= i < |s| && IsBreak(s[i]) ==> s[i] == '\n' }

  lemma {:induction false} SplitIsUnbroken(s: string)
    ensures AllUnbroken(SplitLines(s))
    decreases |s|
  {
    if s != "" {
      var n := LineEnd(s);
      if n < |s| {
        var skip := if s[n] == '\r' && n + 1 < |s| && s[n + 1] == '\n' then 2 else 1;
        SplitIsUnbroken(s[n + skip..]);
      }
    }
  }

  lemma {:induction false} JoinIsClean(lines: seq<string>)
    requires AllUnbroken(lines)
    ensures Clean(Join(lines))
  {
    if |lines| == 1 {
      assert Unbroken(lines[0]);
    } else if |lines| > 1 {
      assert Unbroken(lines[0]) && AllUnbroken(lines[1..]);
      JoinIsClean(lines[1..]);
    }
  }

  /** A first line without breaks is split off at its line feed. */
  lemma {:induction false} SplitFirst(line: string, rest: string)
    requires Unbroken(line)
    ensures SplitLines(line + "\n" + rest) == [line] + SplitLines(rest)
  {
    var s := line + "\n" + rest;
    assert s[|line|] == '\n' && forall i :: 0 <= i < |line| ==> s[i] == line[i];
    LineEndIs(s, |line|);
    assert s[..|line|] == line && s[|line| + 1..] == rest;
  }

  lemma {:induction false} LineEndIs(s: string, n: nat)
    requires n < |s| && IsBreak(s[n]) && forall i :: 0 <= i < n ==> !IsBreak(s[i])
    ensures LineEnd(s) == n
  {}

  /** Splitting undoes joining. */
  lemma {:induction false} SplitOfJoin(lines: seq<string>)
    requires lines != [] && AllUnbroken(lines)
    ensures SplitLines(Join(lines) + "\n") == lines
  {
    assert Unbroken(lines[0]);
    if |lines| == 1 {
      assert lines[0] + "\n" == lines[0] + "\n" + "";
      SplitFirst(lines[0], "");
    } else {
      assert AllUnbroken(lines[1..]);
      SplitOfJoin(lines[1..]);
      assert Join(lines) + "\n" == lines[0] + "\n" + (Join(lines[1..]) + "\n");
      SplitFirst(lines[0], Join(lines[1..]) + "\n");
    }
  }

  /** Joining undoes splitting for text whose only breaks are line feeds. */
  lemma {:induction false} JoinOfSplit(t: string)
    requires Clean(t)
    ensures Join(SplitLines(t + "\n")) == t && SplitLines(t + "\n") != []
    decreases |t|
  {
    var n := LineEnd(t);
    if n == |t| {
      assert t + "\n" == t + "\n" + "";
      SplitFirst(t, "");
    } else {
      var rest := t[n + 1..];
      assert t[n] == '\n';
      assert t == t[..n] + "\n" + rest;
      assert t + "\n" == t[..n] + "\n" + (rest + "\n");
      SplitFirst(t[..n], rest + "\n");
      JoinOfSplit(rest);
    }
  }

  /** Any single break ends a line. */
  lemma {:induction false} SplitAtBreak(line: string, c: char, rest: string)
    requires Unbroken(line) && IsBreak(c) && !(c == '\r' && rest != "" && rest[0] == '\n')
    ensures SplitLines(line + [c] + rest) == [line] + SplitLines(rest)
  {
    var s := line + [c] + rest;
    BreakAfter(s, line, c, rest);
    hide IsBreak, Unbroken, LineEnd;
    if rest != "" { assert s[|line| + 1] == rest[0]; }
    assert s[..|line|] == line && s[|line| + 1..] == rest;
  }

  /** A carriage return and the line feed after it are one break. */
  lemma {:induction false} SplitAtCrLf(line: string, rest: string)
    requires Unbroken(line)
    ensures SplitLines(line + ['\r'] + (['\n'] + rest)) == [line] + SplitLines(rest)
  {
    var s := line + ['\r'] + (['\n'] + rest);
    BreakAfter(s, line, '\r', ['\n'] + rest);
    hide IsBreak, Unbroken, LineEnd;
    assert s[|line| + 1] == '\n';
    assert s[..|line|] == line && s[|line| + 2..] == rest;
  }

  lemma {:induction false} BreakAfter(s: string, line: string, c: char, rest: string)
    requires Unbroken(line) && IsBreak(c) && s == line + [c] + rest
    ensures LineEnd(s) == |line| < |s| && s[|line|] == c
  {
    assert s[|line|] == c && forall i :: 0 <= i < |line| ==> s[i] == line[i];
    hide IsBreak;
    LineEndIs(s, |line|);
  }

  // ---------- the header ----------

  /** A printable header line: no breaks and nothing to strip. */
  ghost predicate Header(h: string) {
    Unbroken(h) && h != "" && Strip(h) == h
  }

  lemma {:induction false} HeaderLineIsHeader()
    ensures Header(HEADER_LINE)
  {
    HeaderStartIsPrintable();
    HeaderEndIsPrintable();
    forall i | 0 <= i < |HEADER_LINE| ensures ' ' <= HEADER_LINE[i] <= '~' {
      assert HEADER_LINE[i] == if i < |HEADER_START| then HEADER_START[i] else HEADER_END[i - |HEADER_START|];
    }
    NothingToStrip(HEADER_LINE);
  }

  ghost predicate Printable(s: string) { forall i :: 0 <= i < |s| ==> ' ' <= s[i] <= '~' }

  lemma {:induction false} HeaderStartIsPrintable()
    ensures Printable(HEADER_START) && HEADER_START[0] == '<'
  {}

  lemma {:induction false} HeaderEndIsPrintable()
    ensures Printable(HEADER_END) && HEADER_END[|HEADER_END| - 1] == '>'
  {}

  lemma {:induction false} NothingToStrip(h: string)
    requires h != "" && !IsSpace(h[0]) && !IsSpace(h[|h| - 1])
    ensures Strip(h) == h
  {
    LStripIs(h, 0);
    assert h[0..] == h && h[..|h|] == h;
    RStripIs(h, |h|);
  }

  /** The lines without a leading header line and the blank line after it. */
  function Body(lines: seq<string>, header: string): seq<string> {
    if lines != [] && Strip(lines[0]) == header then
      if |lines| > 1 && Strip(lines[1]) == "" then lines[2..] else lines[1..]
    else lines
  }

  function StripGeneratedHeader(content: string, header: string): string {
    RStrip(Join(Body(SplitLines(content), header))) + "\n"
  }

  function AddHeader(text: string, header: string): string { header + "\n\n" + text }

  /** A stripped text is a clean text without trailing whitespace, plus one line feed. */
  ghost predicate Canonical(text: string) {
    exists t :: text == t + "\n" && Clean(t) && RStrip(t) == t
  }

  lemma {:induction false} RStripTwice(s: string)
    ensures RStrip(RStrip(s)) == RStrip(s)
  {
    RStripIs(RStrip(s), |RStrip(s)|);
  }

  lemma {:induction false} BodyIsUnbroken(lines: seq<string>, header: string)
    ensures AllUnbroken(lines) ==> AllUnbroken(Body(lines, header))
  {
    hide Strip;
  }

  lemma {:induction false} StrippedIsCanonical(content: string, header: string)
    ensures Canonical(StripGeneratedHeader(content, header))
  {
    hide SplitLines, IsBreak, Join, Body, RStrip, Strip;
    BodyIsUnbroken(SplitLines(content), header);
    var body := Body(SplitLines(content), header);
    SplitIsUnbroken(content);
    JoinIsClean(body);
    RStripIsCanonical(Join(body));
  }

  lemma {:induction false} RStripIsCanonical(s: string)
    requires Clean(s)
    ensures Canonical(RStrip(s) + "\n")
  {
    var t := RStrip(s);
    RStripTwice(s);
    hide RStrip;
    assert Clean(t);
  }

  /** Stripping the header that was just added gives the canonical text back. */
  lemma {:induction false} StripUndoesAdd(text: string, header: string)
    requires Header(header) && Canonical(text)
    ensures StripGeneratedHeader(AddHeader(text, header), header) == text
  {
    var t :| text == t + "\n" && Clean(t) && RStrip(t) == t;
    hide Clean, IsBreak, RStrip, Unbroken, SplitLines, Strip;
    SplitWithHeader(text, header);
    JoinOfSplit(t);
    BlankStripsToNothing();
    assert ([header, ""] + SplitLines(text))[2..] == SplitLines(text);
  }

  lemma {:induction false} SplitWithHeader(text: string, header: string)
    requires Unbroken(header)
    ensures SplitLines(AddHeader(text, header)) == [header, ""] + SplitLines(text)
  {
    hide SplitLines, IsBreak;
    assert AddHeader(text, header) == header + "\n" + ("\n" + text);
    SplitFirst(header, "\n" + text);
    assert "\n" + text == "" + "\n" + text;
    SplitFirst("", text);
  }

  lemma BlankStripsToNothing()
    ensures Strip("") == ""
  {}

  /** For every source text, regenerating from a generated file recovers the same canonical text. */
  lemma {:induction false} StripIsFixedPoint(content: string, header: string)
    requires Header(header)
    ensures var text := StripGeneratedHeader(content, header); StripGeneratedHeader(AddHeader(text, header), header) == text
  {
    StrippedIsCanonical(content, header);
    StripUndoesAdd(StripGeneratedHeader(content, header), header);
  }

  /** What stripping does: the header line goes, with the blank line after it if there is one, and nothing else. */
  lemma {:induction false} HeaderIsStripped(lines: seq<string>, header: string, first: string, blank: string)
    requires Strip(first) == header && Strip(blank) == ""
    ensures Body([first, blank] + lines, header) == lines
    ensures lines != [] && Strip(lines[0]) != "" ==> Body([first] + lines, header) == lines
    ensures Body([first], header) == []
    ensures lines != [] && Strip(lines[0]) != header ==> Body(lines, header) == lines
    ensures Body([], header) == []
  {
    hide Strip;
    assert ([first, blank] + lines)[2..] == lines && ([first] + lines)[1..] == lines;
  }

  /** A clean text without the header only loses its trailing whitespace. */
  lemma {:induction false} TextWithoutHeaderIsKept(text: string, header: string)
    requires Clean(text) && (SplitLines(text + "\n") == [] || Strip(SplitLines(text + "\n")[0]) != header)
    ensures StripGeneratedHeader(text + "\n", header) == RStrip(text) + "\n"
  {
    JoinOfSplit(text);
    hide Strip, SplitLines, Join, RStrip, Clean;
  }

  // ---------- the YAML block ----------

  function IndentLine(line: string): string { if line == "" then "" else "  " + line }

  function IndentLines(lines: seq<string>): (r: seq<string>)
    ensures |r| == |lines| && forall k :: 0 <= k < |lines| ==> r[k] == IndentLine(lines[k])
  {
    seq(|lines|, k requires 0 <= k < |lines| => IndentLine(lines[k]))
  }

  /** `indent_markdown(content, 2)`. */
  function IndentMarkdown(content: string): string { Join(IndentLines(SplitLines(content))) + "\n" }

  /** What a block-scalar reader does: two columns off every line that is not empty. */
  function Unindent(text: string): string { Join(OutdentLines(SplitLines(text))) }

  function OutdentLine(line: string): string { if |line| < 2 then line else line[2..] }

  function OutdentLines(lines: seq<string>): (r: seq<string>)
    ensures |r| == |lines| && forall k :: 0 <= k < |lines| ==> r[k] == OutdentLine(lines[k])
  {
    seq(|lines|, k requires 0 <= k < |lines| => OutdentLine(lines[k]))
  }

  lemma {:induction false} IndentIsUnbroken(lines: seq<string>)
    requires AllUnbroken(lines)
    ensures AllUnbroken(IndentLines(lines))
  {
    forall k | 0 <= k < |lines| ensures Unbroken(IndentLines(lines)[k]) {
      assert Unbroken(lines[k]);
      var r := IndentLine(lines[k]);
      assert forall i :: 0 <= i < |r| ==> r[i] == ' ' || r[i] == lines[k][i - 2];
    }
  }

  lemma EmptySplitsToNothing()
    ensures SplitLines("") == []
  {}

  lemma {:induction false} SplitWhole(t: string)
    requires t != "" && LineEnd(t) == |t|
    ensures SplitLines(t) == [t]
  {}

  lemma {:induction false} UnterminatedStep(line: string, rest: string)
    requires Unbroken(line) && SplitLines(rest) == SplitLines(rest + "\n")
    ensures SplitLines(line + "\n" + rest) == SplitLines(line + "\n" + rest + "\n")
  {
    hide SplitLines, Unbroken;
    assert line + "\n" + rest + "\n" == line + "\n" + (rest + "\n");
    SplitFirst(line, rest);
    SplitFirst(line, rest + "\n");
  }

  lemma {:induction false} UnterminatedLine(t: string)
    requires t != "" && LineEnd(t) == |t|
    ensures SplitLines(t) == SplitLines(t + "\n")
  {
    SplitWhole(t);
    EmptySplitsToNothing();
    assert Unbroken(t);
    hide SplitLines, Unbroken, LineEnd;
    assert t + "\n" == t + "\n" + "";
    SplitFirst(t, "");
  }

  lemma {:induction false} FirstLine(t: string) returns (line: string, rest: string)
    requires Clean(t) && LineEnd(t) < |t| && !IsBreak(t[|t| - 1])
    ensures t == line + "\n" + rest && Unbroken(line) && Clean(rest) && rest != "" && !IsBreak(rest[|rest| - 1])
  {
    var n := LineEnd(t);
    line, rest := t[..n], t[n + 1..];
    assert t[n] == '\n';
    assert rest != "" by { assert IsBreak(t[n]); }
    assert rest[|rest| - 1] == t[|t| - 1];
  }

  /** A clean text that does not end in a line feed splits into the lines that its terminated form splits into. */
  lemma {:induction false} SplitUnterminated(t: string)
    requires Clean(t) && t != "" && !IsBreak(t[|t| - 1])
    ensures SplitLines(t) == SplitLines(t + "\n")
    decreases |t|
  {
    hide SplitLines, IsBreak, Clean, Unbroken;
    if LineEnd(t) == |t| {
      UnterminatedLine(t);
    } else {
      var line, rest := FirstLine(t);
      SplitUnterminated(rest);
      UnterminatedStep(line, rest);
    }
  }

  /** Un-indenting the YAML block recovers the canonical text without its trailing whitespace. */
  lemma {:induction false} UnindentRecovers(text: string)
    requires Canonical(text)
    ensures Unindent(IndentMarkdown(RStrip(text))) == RStrip(text)
  {
    var t :| text == t + "\n" && Clean(t) && RStrip(t) == t;
    RStripOfCanonical(t);
    if t == "" {
      BlankBlock();
    } else {
      UnindentOfIndent(t);
    }
  }

  lemma {:induction false} RStripOfCanonical(t: string)
    requires RStrip(t) == t
    ensures RStrip(t + "\n") == t
  {
    RStripIs(t + "\n", |t|);
    assert (t + "\n")[..|t|] == t;
  }

  lemma {:induction false} BlankBlock()
    ensures Unindent(IndentMarkdown("")) == ""
  {
    assert "\n" == "" + "\n" + "";
    SplitFirst("", "");
  }

  lemma {:induction false} UnindentOfIndent(t: string)
    requires t != "" && Clean(t) && RStrip(t) == t
    ensures Unindent(IndentMarkdown(t)) == t
  {
    LastIsNoBreak(t);
    SplitUnterminated(t);
    JoinOfSplit(t);
    SplitIsUnbroken(t);
    hide SplitLines, IsBreak, Clean, RStrip, Join, Unbroken, AllUnbroken;
    var lines := SplitLines(t);
    IndentIsUnbroken(lines);
    SplitOfJoin(IndentLines(lines));
    forall k | 0 <= k < |lines| ensures OutdentLine(IndentLines(lines)[k]) == lines[k] {}
    assert OutdentLines(IndentLines(lines)) == lines;
  }

  lemma {:induction false} LastIsNoBreak(t: string)
    requires t != "" && RStrip(t) == t
    ensures !IsBreak(t[|t| - 1])
  {}

  lemma {:induction false} IndentLinesOf(lines: seq<string>)
    requires lines != [] && AllUnbroken(lines)
    ensures IndentMarkdown(Join(lines) + "\n") == Join(IndentLines(lines)) + "\n"
  {
    SplitOfJoin(lines);
    hide SplitLines, Join, AllUnbroken, IndentLines;
  }

  /** Every line that is not empty moves two columns to the right, and the block ends in one line feed. */
  lemma {:induction false} IndentedByTwo(a: string, b: string)
    requires a != "" && Unbroken(a) && b != "" && Unbroken(b)
    ensures Join([a, "", b]) == a + "\n" + "" + "\n" + b
    ensures IndentMarkdown(Join([a, "", b]) + "\n") == "  " + a + "\n" + "" + "\n" + ("  " + b) + "\n"
  {
    JoinOfThree(a, "", b);
    JoinOfThree("  " + a, "", "  " + b);
    assert IndentLines([a, "", b]) == ["  " + a, "", "  " + b];
    assert AllUnbroken([a, "", b]);
    hide Join, IndentLines, IndentMarkdown, AllUnbroken, Unbroken;
    IndentLinesOf([a, "", b]);
  }

  lemma {:induction false} JoinOfThree(a: string, b: string, c: string)
    ensures Join([a, b, c]) == a + "\n" + b + "\n" + c
  {
    assert [a, b, c][1..] == [b, c] && [b, c][1..] == [c];
    assert Join([c]) == c && Join([b, c]) == b + "\n" + c;
    assert a + "\n" + (b + "\n" + c) == a + "\n" + b + "\n" + c;
  }

  // ---------- files ----------

  datatype Path = Path(skill: string, name: string)

  /** The six variants written for one skill. */
  function Variants(skill: string, canonical: string): map<Path, string> {
    var md := AddHeader(canonical, HEADER_LINE);
    var block := IndentMarkdown(RStrip(canonical));
    map[
      Path(skill, "CLAUDE.md") := md,
      Path(skill, ".cursorrules") := md,
      Path(skill, ".windsurfrules") := md,
      Path(skill, "system-prompt.md") := AddHeader("# System Prompt\n\n" + canonical, HEADER_LINE),
      Path(skill, ".aider.conf.yml") := YAML_HEADER + "system-prompt: |\n" + block,
      Path(skill, "continue-config.yaml") := YAML_HEADER + "systemMessage: |\n" + block
    ]
  }

  /** The variants of one skill when its canonical file exists. */
  ghost function OutputsOf(skill: string, files: map<Path, string>): map<Path, string> {
    var source := Path(skill, "CLAUDE.md");
    if source in files then Variants(skill, StripGeneratedHeader(files[source], HEADER_LINE)) else map[]
  }

  /** What one build must contain: for every skill its own variants, and nothing else. */
  ghost predicate IsBuild(skills: seq<string>, files: map<Path, string>, outputs: map<Path, string>) {
    forall p :: (p in outputs <==> p.skill in skills && p in OutputsOf(p.skill, files))
             && (p in outputs ==> outputs[p] == OutputsOf(p.skill, files)[p])
  }

  lemma {:induction false} VariantsBelongToSkill(skill: string, canonical: string)
    ensures forall p :: p in Variants(skill, canonical) ==> p.skill == skill
  {}

  method BuildAdapterOutputs(skills: seq<string>, files: map<Path, string>) returns (outputs: map<Path, string>)
    ensures IsBuild(skills, files, outputs)
  {
    hide Variants, StripGeneratedHeader;
    outputs := map[];
    for i := 0 to |skills|
      invariant IsBuild(skills[..i], files, outputs)
    {
      assert skills[..i + 1] == skills[..i] + [skills[i]];
      var source := Path(skills[i], "CLAUDE.md");
      if source in files {
        var canonical := StripGeneratedHeader(files[source], HEADER_LINE);
        VariantsBelongToSkill(skills[i], canonical);
        outputs := outputs + Variants(skills[i], canonical);
      }
    }
    assert skills[..|skills|] == skills;
  }

  method Generate(skills: seq<string>, files: map<Path, string>) returns (written: map<Path, string>)
    ensures exists outputs :: IsBuild(skills, files, outputs) && written == files + outputs
  {
    var outputs := BuildAdapterOutputs(skills, files);
    written := files + outputs;
  }

  lemma {:induction false} CanonicalFileIsWritten(skill: string, canonical: string)
    ensures Path(skill, "CLAUDE.md") in Variants(skill, canonical)
    ensures Variants(skill, canonical)[Path(skill, "CLAUDE.md")] == AddHeader(canonical, HEADER_LINE)
  {}

  /** A skill's variants built from the generated files are those built from the sources. */
  lemma {:induction false} OutputsAreStable(skills: seq<string>, files: map<Path, string>, outputs: map<Path, string>, skill: string)
    requires IsBuild(skills, files, outputs) && skill in skills
    ensures OutputsOf(skill, files + outputs) == OutputsOf(skill, files)
  {
    hide Variants, StripGeneratedHeader;
    var source := Path(skill, "CLAUDE.md");
    if source in files {
      var canonical := StripGeneratedHeader(files[source], HEADER_LINE);
      CanonicalFileIsWritten(skill, canonical);
      assert source in outputs && outputs[source] == AddHeader(canonical, HEADER_LINE);
      HeaderLineIsHeader();
      StripIsFixedPoint(files[source], HEADER_LINE);
    }
  }

  /** A second generation writes exactly the files that are already there. */
  lemma {:induction false} GenerateIsIdempotent(skills: seq<string>, files: map<Path, string>, first: map<Path, string>, second: map<Path, string>)
    requires IsBuild(skills, files, first) && IsBuild(skills, files + first, second)
    ensures second == first
    ensures files + first + second == files + first
  {
    hide OutputsOf;
    forall p: Path | p.skill in skills ensures OutputsOf(p.skill, files + first) == OutputsOf(p.skill, files) {
      OutputsAreStable(skills, files, first, p.skill);
    }
    assert forall p :: p in first <==> p in second;
  }

  const VARIANT_NAMES :=
    {"CLAUDE.md", ".cursorrules", ".windsurfrules", "system-prompt.md", ".aider.conf.yml", "continue-config.yaml"}

  /** The six files of a skill, by name: the markdown variants carry the header and the text, the prompt adds its
      title, and the two YAML files hold the indented text as a block scalar. */
  lemma {:induction false} SixVariants(skill: string, canonical: string)
    ensures var v := Variants(skill, canonical);
            && (forall p :: p in v <==> p.skill == skill && p.name in VARIANT_NAMES)
            && (forall name :: name in ["CLAUDE.md", ".cursorrules", ".windsurfrules"] ==>
                 v[Path(skill, name)] == HEADER_LINE + "\n\n" + canonical)
            && v[Path(skill, "system-prompt.md")] == HEADER_LINE + "\n\n" + "# System Prompt\n\n" + canonical
            && v[Path(skill, ".aider.conf.yml")] == YAML_HEADER + "system-prompt: |\n" + IndentMarkdown(RStrip(canonical))
            && v[Path(skill, "continue-config.yaml")] == YAML_HEADER + "systemMessage: |\n" + IndentMarkdown(RStrip(canonical))
  {
    hide IndentMarkdown, RStrip;
  }
}
