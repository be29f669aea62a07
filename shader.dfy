/** The shader-file splitter and the stage selection of src/shader.cpp.
    A shader file holds several stages; a line starting with `@` names the
    stage the following lines belong to. */
module Shaders {
  import opened Options

  /** The OpenGL enumerants the splitter uses as section keys. */
  const GL_FALSE: int := 0
  const GL_FRAGMENT_SHADER: int := 0x8B30
  const GL_VERTEX_SHADER: int := 0x8B31
  const GL_GEOMETRY_SHADER: int := 0x8DD9
  const GL_COMPUTE_SHADER: int := 0x91B9

  /** The sections of a shader file, keyed by stage. */
  type SplitFile = map<int, string>

  /** What a directive token does. */
  datatype Directive = Select(stage: int) | End | Unsupported

  /** The result of PreProcess: the sections, or the position at which the
      loop stops advancing and spins for ever. */
  datatype Outcome = Split(sections: SplitFile) | Diverges(pos: nat)

  function Classify(token: string): (d: Directive)
    ensures d.Select? ==> d.stage in {GL_VERTEX_SHADER, GL_COMPUTE_SHADER, GL_GEOMETRY_SHADER, GL_FRAGMENT_SHADER}
    ensures d.End? <==> token == "end"
  {
    if token == "vertex" then Select(GL_VERTEX_SHADER)
    else if token == "compute" then Select(GL_COMPUTE_SHADER)
    else if token == "geometry" then Select(GL_GEOMETRY_SHADER)
    else if token == "fragment" then Select(GL_FRAGMENT_SHADER)
    else if token == "end" then End
    else Unsupported
  }

  /** The section current after a directive with this token: a stage
      selects that stage, an unsupported token keeps `cur`, and `@end`
      (None) stops the splitter. */
  function NextStage(token: string, cur: int): (n: Option<int>)
    ensures n.None? <==> token == "end"
    ensures n.Some? ==>
      n.value == cur || n.value in {GL_VERTEX_SHADER, GL_COMPUTE_SHADER, GL_GEOMETRY_SHADER, GL_FRAGMENT_SHADER}
    ensures n.Some? && n.value != cur ==> Classify(token) == Select(n.value)
  {
    match Classify(token)
    case End => None
    case Select(stage) => Some(stage)
    case Unsupported => Some(cur)
  }

  /** The end of the token starting at `p`: the first space, newline or
      end of text from `p` on. */
  function TokenEnd(s: string, p: nat): (e: nat)
    requires p <= |s|
    ensures p <= e <= |s|
    decreases |s| - p
  {
    if p == |s| || s[p] == '\n' || s[p] == ' ' then p else TokenEnd(s, p + 1)
  }

  /** The token holds no separator, and a separator (or the end of the
      text) follows it. */
  lemma {:induction false} TokenEndStops(s: string, p: nat)
    requires p <= |s|
    ensures forall k :: p <= k < TokenEnd(s, p) ==> s[k] != '\n' && s[k] != ' '
    ensures TokenEnd(s, p) < |s| ==> s[TokenEnd(s, p)] == '\n' || s[TokenEnd(s, p)] == ' '
    decreases |s| - p
  {
    if !(p == |s| || s[p] == '\n' || s[p] == ' ') {
      TokenEndStops(s, p + 1);
    }
  }

  /** The end of the line containing `p`: the first newline or end of text
      from `p` on. */
  function LineEnd(s: string, p: nat): (e: nat)
    requires p <= |s|
    ensures p <= e <= |s|
    decreases |s| - p
  {
    if p == |s| || s[p] == '\n' then p else LineEnd(s, p + 1)
  }

  /** The line holds no newline, and a newline (or the end of the text)
      follows it. */
  lemma {:induction false} LineEndStops(s: string, p: nat)
    requires p <= |s|
    ensures forall k :: p <= k < LineEnd(s, p) ==> s[k] != '\n'
    ensures LineEnd(s, p) < |s| ==> s[LineEnd(s, p)] == '\n'
    decreases |s| - p
  {
    if !(p == |s| || s[p] == '\n') {
      LineEndStops(s, p + 1);
    }
  }

  /** The token from `p` ends at `e` when no separator lies before `e`
      and one lies at `e` (or the text ends there). */
  lemma TokenEndAt(s: string, p: nat, e: nat)
    requires p <= e <= |s|
    requires forall k :: p <= k < e ==> s[k] != '\n' && s[k] != ' '
    requires e < |s| ==> s[e] == '\n' || s[e] == ' '
    ensures TokenEnd(s, p) == e
    decreases e - p
  {
    if p < e {
      TokenEndAt(s, p + 1, e);
    }
  }

  /** The line from `p` ends at `e` when no newline lies before `e` and
      one lies at `e` (or the text ends there). */
  lemma LineEndAt(s: string, p: nat, e: nat)
    requires p <= e <= |s|
    requires forall k :: p <= k < e ==> s[k] != '\n'
    requires e < |s| ==> s[e] == '\n'
    ensures LineEnd(s, p) == e
    decreases e - p
  {
    if p < e {
      LineEndAt(s, p + 1, e);
    }
  }

  /** `splitFile[key].push_back(...)` for each character of `text`; the
      entry is created empty first when missing. */
  function Append(split: SplitFile, key: int, text: string): SplitFile {
    split[key := (if key in split then split[key] else []) + text]
  }

  /** A comment marker at `pos`. */
  predicate CommentAt(s: string, pos: nat) {
    pos + 1 < |s| && s[pos] == '/' && s[pos + 1] == '/'
  }

  /** The splitter from position `pos` with current stage `cur`. At each
      position the loop reaches: a `@` starts a directive whose token runs
      to the next space or newline and whose terminator is skipped; a
      comment marker stops the loop from advancing; anything else is a
      content line, copied with one newline into the current section. */
  function Run(s: string, pos: nat, cur: int, split: SplitFile): Outcome
    decreases |s| - pos
  {
    if pos >= |s| then Split(split)
    else if s[pos] == '@' then
      var e := TokenEnd(s, pos + 1);
      var next := NextStage(s[pos + 1..e], cur);
      if next.None? then Split(split) else Run(s, e + 1, next.value, split)
    else if CommentAt(s, pos) then Diverges(pos)
    else
      var e := LineEnd(s, pos);
      Run(s, e + 1, cur, Append(split, cur, s[pos..e] + "\n"))
  }

  /** One step of Run at a directive that leaves `next` current. */
  lemma RunDirective(s: string, pos: nat, e: nat, cur: int, next: int, split: SplitFile)
    requires pos < |s| && s[pos] == '@' && TokenEnd(s, pos + 1) == e
    requires NextStage(s[pos + 1..e], cur) == Some(next)
    ensures Run(s, pos, cur, split) == Run(s, e + 1, next, split)
  {
  }

  /** One step of Run at `@end`. */
  lemma RunEnd(s: string, pos: nat, e: nat, cur: int, split: SplitFile)
    requires pos < |s| && s[pos] == '@' && TokenEnd(s, pos + 1) == e
    requires NextStage(s[pos + 1..e], cur) == None
    ensures Run(s, pos, cur, split) == Split(split)
  {
  }

  /** Past the end of the text the sections are those built so far. */
  lemma RunPastEnd(s: string, pos: nat, cur: int, split: SplitFile)
    requires pos >= |s|
    ensures Run(s, pos, cur, split) == Split(split)
  {
  }

  /** One step of Run at a content line. */
  lemma RunLine(s: string, pos: nat, e: nat, cur: int, split: SplitFile)
    requires pos < |s| && s[pos] != '@' && !CommentAt(s, pos) && LineEnd(s, pos) == e
    ensures Run(s, pos, cur, split) == Run(s, e + 1, cur, Append(split, cur, s[pos..e] + "\n"))
  {
  }

  /** The token loop of a directive: the characters from `pos` up to the
      next space, newline or end of text. */
  method ReadToken(fileContent: string, pos: nat) returns (token: string, next: nat)
    requires pos <= |fileContent|
    ensures next == TokenEnd(fileContent, pos) && token == fileContent[pos..next]
  {
    token := "";
    next := pos;
    while next < |fileContent| && fileContent[next] != '\n' && fileContent[next] != ' '
      invariant pos <= next <= |fileContent|
      invariant token == fileContent[pos..next]
      invariant TokenEnd(fileContent, pos) == TokenEnd(fileContent, next)
    {
      token := token + [fileContent[next]];
      next := next + 1;
    }
  }

  /** The copy loop of a content line: the characters from `pos` up to the
      next newline or end of text. */
  method ReadLine(fileContent: string, pos: nat) returns (line: string, next: nat)
    requires pos <= |fileContent|
    ensures next == LineEnd(fileContent, pos) && line == fileContent[pos..next]
  {
    line := "";
    next := pos;
    while next < |fileContent| && fileContent[next] != '\n'
      invariant pos <= next <= |fileContent|
      invariant line == fileContent[pos..next]
      invariant LineEnd(fileContent, pos) == LineEnd(fileContent, next)
    {
      line := line + [fileContent[next]];
      next := next + 1;
    }
  }

  /** The directive branch of PreProcess' loop: reads the token after the
      `@` at `pos` and picks the section that becomes current, None for
      `@end`, which breaks out of the loop. */
  method ReadDirective(fileContent: string, pos: nat, cur: int) returns (next: Option<int>, tokenEnd: nat)
    requires pos < |fileContent|
    ensures tokenEnd == TokenEnd(fileContent, pos + 1)
    ensures next == NextStage(fileContent[pos + 1..tokenEnd], cur)
  {
    var tempShaderType;
    tempShaderType, tokenEnd := ReadToken(fileContent, pos + 1);
    next := Some(cur);
    if tempShaderType == "vertex" {
      next := Some(GL_VERTEX_SHADER);
    } else if tempShaderType == "compute" {
      next := Some(GL_COMPUTE_SHADER);
    } else if tempShaderType == "geometry" {
      next := Some(GL_GEOMETRY_SHADER);
    } else if tempShaderType == "fragment" {
      next := Some(GL_FRAGMENT_SHADER);
    } else if tempShaderType == "end" {
      next := None;
    }
  }

  /** `Shader::PreProcess`: splits `fileContent` into `splitFile`, starting
      in the `GL_FALSE` section. Where the source loops for ever on a
      comment marker, the model stops and reports the position. */
  method PreProcess(fileContent: string, splitFile: SplitFile) returns (r: Outcome)
    ensures r == Run(fileContent, 0, GL_FALSE, splitFile)
  {
    var split := splitFile;
    var pos: nat := 0;
    var curShaderType := GL_FALSE;
    while pos < |fileContent|
      invariant Run(fileContent, pos, curShaderType, split) == Run(fileContent, 0, GL_FALSE, splitFile)
      decreases |fileContent| - pos
    {
      if fileContent[pos] == '@' {
        var next, tokenEnd := ReadDirective(fileContent, pos, curShaderType);
        if next.None? {
          RunEnd(fileContent, pos, tokenEnd, curShaderType, split);
          break;
        }
        RunDirective(fileContent, pos, tokenEnd, curShaderType, next.value, split);
        pos, curShaderType := tokenEnd + 1, next.value;
        continue;
      }
      if pos + 1 < |fileContent| && fileContent[pos] == '/' && fileContent[pos + 1] == '/' {
        return Diverges(pos);
      }
      var line, lineEnd := ReadLine(fileContent, pos);
      RunLine(fileContent, pos, lineEnd, curShaderType, split);
      split := Append(split, curShaderType, line + "\n");
      pos := lineEnd + 1;
    }
    r := Split(split);
  }

  /** Every section of `before` is still in `after`, possibly extended. */
  ghost predicate Extends(before: SplitFile, after: SplitFile) {
    forall k :: k in before ==> k in after && before[k] <= after[k]
  }

  /** Appending to a section extends the file and adds no key but `key`. */
  lemma AppendExtends(split: SplitFile, key: int, text: string)
    ensures Extends(split, Append(split, key, text))
    ensures forall k :: k in Append(split, key, text) ==> k in split || k == key
  {
  }

  /** Extension is transitive. */
  lemma ExtendsTrans(a: SplitFile, b: SplitFile, c: SplitFile)
    requires Extends(a, b) && Extends(b, c)
    ensures Extends(a, c)
  {
    forall k | k in a
      ensures k in c && a[k] <= c[k]
    {
      assert a[k] <= b[k] <= c[k];
    }
  }

  /** Sections already present are only ever appended to. */
  lemma {:induction false} RunExtends(s: string, pos: nat, cur: int, split: SplitFile)
    ensures Run(s, pos, cur, split).Split? ==> Extends(split, Run(s, pos, cur, split).sections)
    decreases |s| - pos
  {
    if pos < |s| {
      if s[pos] == '@' {
        var e := TokenEnd(s, pos + 1);
        var next := NextStage(s[pos + 1..e], cur);
        if next.Some? {
          RunExtends(s, e + 1, next.value, split);
        }
      } else if !CommentAt(s, pos) {
        var e := LineEnd(s, pos);
        var split' := Append(split, cur, s[pos..e] + "\n");
        RunExtends(s, e + 1, cur, split');
        AppendExtends(split, cur, s[pos..e] + "\n");
        var r := Run(s, e + 1, cur, split');
        if r.Split? {
          ExtendsTrans(split, split', r.sections);
        }
      }
    }
  }

  /** The only keys the splitter adds are the current section's and the
      four stages'; from the start, that is `GL_FALSE` and the stages. */
  lemma {:induction false} RunNewKeys(s: string, pos: nat, cur: int, split: SplitFile)
    requires cur in split || cur in {GL_FALSE, GL_VERTEX_SHADER, GL_COMPUTE_SHADER, GL_GEOMETRY_SHADER, GL_FRAGMENT_SHADER}
    ensures Run(s, pos, cur, split).Split? ==> forall k :: k in Run(s, pos, cur, split).sections ==>
      k in split || k in {GL_FALSE, GL_VERTEX_SHADER, GL_COMPUTE_SHADER, GL_GEOMETRY_SHADER, GL_FRAGMENT_SHADER}
    decreases |s| - pos
  {
    if pos < |s| {
      if s[pos] == '@' {
        var e := TokenEnd(s, pos + 1);
        var next := NextStage(s[pos + 1..e], cur);
        if next.Some? {
          RunNewKeys(s, e + 1, next.value, split);
        }
      } else if !CommentAt(s, pos) {
        var e := LineEnd(s, pos);
        var split' := Append(split, cur, s[pos..e] + "\n");
        RunNewKeys(s, e + 1, cur, split');
        AppendExtends(split, cur, s[pos..e] + "\n");
      }
    }
  }

  /** The text ends with a newline. */
  predicate EndsLine(t: string) {
    |t| > 0 && t[|t| - 1] == '\n'
  }

  /** Every section of `after` is as in `before`, or ends with a newline. */
  ghost predicate ChangedEndLines(before: SplitFile, after: SplitFile) {
    forall k :: k in after ==> (k in before && after[k] == before[k]) || EndsLine(after[k])
  }

  /** Every section the splitter creates or extends ends with a newline:
      each content line, including a last one without a newline, is
      appended with exactly one. */
  lemma {:induction false} ChangedSectionsEndLines(s: string, pos: nat, cur: int, split: SplitFile)
    ensures Run(s, pos, cur, split).Split? ==> ChangedEndLines(split, Run(s, pos, cur, split).sections)
    decreases |s| - pos
  {
    if pos < |s| {
      if s[pos] == '@' {
        var e := TokenEnd(s, pos + 1);
        var next := NextStage(s[pos + 1..e], cur);
        if next.Some? {
          ChangedSectionsEndLines(s, e + 1, next.value, split);
        }
      } else if !CommentAt(s, pos) {
        var e := LineEnd(s, pos);
        var split' := Append(split, cur, s[pos..e] + "\n");
        ChangedSectionsEndLines(s, e + 1, cur, split');
        var r := Run(s, e + 1, cur, split');
        if r.Split? {
          AppendedLineEnds(split, cur, s[pos..e] + "\n", r.sections);
        }
      }
    }
  }

  /** Appending a newline-terminated text keeps every changed section
      newline-terminated. */
  lemma AppendedLineEnds(split: SplitFile, cur: int, text: string, after: SplitFile)
    requires EndsLine(text) && ChangedEndLines(Append(split, cur, text), after)
    ensures ChangedEndLines(split, after)
  {
    var t := if cur in split then split[cur] else [];
    assert Append(split, cur, text)[cur] == t + text;
    assert EndsLine(t + text);
  }

  /** The splitter only ever stops advancing at a comment marker, at or
      after the position it starts from. */
  lemma {:induction false} DivergesAtComment(s: string, pos: nat, cur: int, split: SplitFile)
    ensures Run(s, pos, cur, split).Diverges? ==> CommentAt(s, Run(s, pos, cur, split).pos)
    decreases |s| - pos
  {
    if pos < |s| {
      if s[pos] == '@' {
        var e := TokenEnd(s, pos + 1);
        var next := NextStage(s[pos + 1..e], cur);
        if next.Some? {
          DivergesAtComment(s, e + 1, next.value, split);
        }
      } else if !CommentAt(s, pos) {
        var e := LineEnd(s, pos);
        DivergesAtComment(s, e + 1, cur, Append(split, cur, s[pos..e] + "\n"));
      }
    }
  }

  /** Text without a '/' never makes the splitter spin. */
  lemma NoSlashTerminates(s: string, pos: nat, cur: int, split: SplitFile)
    requires forall k :: 0 <= k < |s| ==> s[k] != '/'
    ensures Run(s, pos, cur, split).Split?
  {
    DivergesAtComment(s, pos, cur, split);
  }

  // ---------------------------------------------------------------------
  // What each kind of directive does, on any text

  /** `@end` stops the splitter: the sections are those built so far. */
  lemma EndDirectiveStops(s: string, pos: nat, cur: int, split: SplitFile)
    requires pos < |s| && s[pos] == '@' && s[pos + 1..TokenEnd(s, pos + 1)] == "end"
    ensures Run(s, pos, cur, split) == Split(split)
  {
  }

  /** A directive whose token names no stage and is not `end` is dropped
      with its terminator, and the current section stays current. */
  lemma UnsupportedSkipped(s: string, pos: nat, cur: int, split: SplitFile)
    requires pos < |s| && s[pos] == '@'
    requires s[pos + 1..TokenEnd(s, pos + 1)] !in {"vertex", "compute", "geometry", "fragment", "end"}
    ensures Run(s, pos, cur, split) == Run(s, TokenEnd(s, pos + 1) + 1, cur, split)
  {
  }

  /** A stage directive whose token is ended by a space: the rest of that
      line becomes a line of the selected stage. */
  lemma DirectiveLineRest(s: string, pos: nat, e: nat, cur: int, stage: int, split: SplitFile)
    requires pos < |s| && s[pos] == '@' && e == TokenEnd(s, pos + 1)
    requires Classify(s[pos + 1..e]) == Select(stage)
    requires e + 1 < |s| && s[e] == ' ' && s[e + 1] != '@' && !CommentAt(s, e + 1)
    ensures Run(s, pos, cur, split) ==
      Run(s, LineEnd(s, e + 1) + 1, stage, Append(split, stage, s[e + 1..LineEnd(s, e + 1)] + "\n"))
  {
    RunDirective(s, pos, e, cur, stage, split);
    RunLine(s, e + 1, LineEnd(s, e + 1), stage, split);
  }

  /** The text with one newline added when its last line has none. */
  function Terminated(t: string): string {
    if t != [] && t[|t| - 1] == '\n' then t else t + "\n"
  }

  /** Position `k` starts a line: it is the first position, or follows a
      newline. */
  predicate LineStart(s: string, k: nat) {
    k == 0 || (k <= |s| && s[k - 1] == '\n')
  }

  /** No line from `pos` on starts with a directive or a comment marker. */
  predicate PlainFrom(s: string, pos: nat) {
    forall k :: pos <= k < |s| && LineStart(s, k) ==> s[k] != '@' && !CommentAt(s, k)
  }

  /** Appending twice to one section appends the concatenation. */
  lemma AppendTwice(split: SplitFile, key: int, a: string, b: string)
    ensures Append(Append(split, key, a), key, b) == Append(split, key, a + b)
  {
    var prior := if key in split then split[key] else [];
    assert prior + a + b == prior + (a + b);
  }

  /** Only the last line of a text can lack its newline. */
  lemma TerminatedConcat(a: string, b: string)
    requires b != []
    ensures Terminated(a + b) == a + Terminated(b)
  {
    assert (a + b)[|a + b| - 1] == b[|b| - 1];
  }

  /** Appending the line at `pos` and then the text after it is appending
      the text from `pos` on. */
  lemma JoinLines(s: string, pos: nat, e: nat, cur: int, split: SplitFile)
    requires pos <= e && e + 1 < |s| && s[e] == '\n'
    ensures Append(Append(split, cur, s[pos..e] + "\n"), cur, Terminated(s[e + 1..])) ==
      Append(split, cur, Terminated(s[pos..]))
  {
    assert s[pos..] == s[pos..e] + "\n" + s[e + 1..];
    AppendTwice(split, cur, s[pos..e] + "\n", Terminated(s[e + 1..]));
    TerminatedConcat(s[pos..e] + "\n", s[e + 1..]);
  }

  /** One plain line followed by more text: the line goes to the current
      section ahead of whatever the rest of the text puts there. */
  lemma PlainNext(s: string, pos: nat, e: nat, cur: int, split: SplitFile)
    requires pos < |s| && s[pos] != '@' && !CommentAt(s, pos)
    requires e == LineEnd(s, pos) && e + 1 < |s| && s[e] == '\n'
    requires Run(s, e + 1, cur, Append(split, cur, s[pos..e] + "\n")) ==
      Split(Append(Append(split, cur, s[pos..e] + "\n"), cur, Terminated(s[e + 1..])))
    ensures Run(s, pos, cur, split) == Split(Append(split, cur, Terminated(s[pos..])))
  {
    RunLine(s, pos, e, cur, split);
    JoinLines(s, pos, e, cur, split);
  }

  /** The last plain line of a text, with or without its final newline. */
  lemma PlainLast(s: string, pos: nat, cur: int, split: SplitFile)
    requires pos < |s| && s[pos] != '@' && !CommentAt(s, pos)
    requires LineEnd(s, pos) + 1 >= |s|
    ensures Run(s, pos, cur, split) == Split(Append(split, cur, Terminated(s[pos..])))
  {
    var e := LineEnd(s, pos);
    RunLine(s, pos, e, cur, split);
    RunPastEnd(s, e + 1, cur, Append(split, cur, s[pos..e] + "\n"));
    LineEndStops(s, pos);
    if e + 1 == |s| {
      assert s[pos..] == s[pos..e] + "\n";
    } else {
      assert s[pos..e] == s[pos..];
    }
  }

  /** A text whose lines from `pos` on are all plain goes, from `pos` on,
      into the current section, each line ended by exactly one newline. */
  lemma {:induction false} PlainLines(s: string, pos: nat, cur: int, split: SplitFile)
    requires pos <= |s| && LineStart(s, pos) && PlainFrom(s, pos)
    ensures Run(s, pos, cur, split) ==
      Split(if pos == |s| then split else Append(split, cur, Terminated(s[pos..])))
    decreases |s| - pos
  {
    if pos < |s| {
      assert s[pos] != '@' && !CommentAt(s, pos);
      var e := LineEnd(s, pos);
      if e + 1 < |s| {
        assert s[e] == '\n' by { LineEndStops(s, pos); }
        assert LineStart(s, e + 1);
        PlainLines(s, e + 1, cur, Append(split, cur, s[pos..e] + "\n"));
        PlainNext(s, pos, e, cur, split);
      } else {
        PlainLast(s, pos, cur, split);
      }
    }
  }


  /** A text with no directive and no comment marker at a line start goes
      entirely into the `GL_FALSE` section, line by line, each line ended
      by exactly one newline; an empty text gives no section. */
  lemma PlainText(s: string)
    requires PlainFrom(s, 0)
    ensures Run(s, 0, GL_FALSE, map[]) == Split(if s == [] then map[] else map[GL_FALSE := Terminated(s)])
  {
    PlainLines(s, 0, GL_FALSE, map[]);
    assert s[0..] == s;
    assert [] + Terminated(s) == Terminated(s);
  }

  // ---------------------------------------------------------------------
  // The splitter on small files

  /** Lines after `@vertex` go to the vertex section, lines after
      `@fragment` to the fragment section, and no directive text is copied. */
  lemma TwoStages(s: string)
    requires s == "@vertex\nA\n@fragment\nB\n"
    ensures Run(s, 0, GL_FALSE, map[]) == Split(map[GL_VERTEX_SHADER := "A\n", GL_FRAGMENT_SHADER := "B\n"])
  {
    var m1 := map[GL_VERTEX_SHADER := "A\n"];
    assert s[1..7] == "vertex";
    VertexLine(s, m1);
    FragmentStage(s, m1);
  }

  /** `@vertex` followed by the line `A`, at the start of `s`. */
  lemma VertexLine(s: string, m1: SplitFile)
    requires |s| > 10 && s[0] == '@' && s[1..7] == "vertex" && s[7] == '\n'
    requires s[8] == 'A' && s[9] == '\n' && m1 == map[GL_VERTEX_SHADER := "A\n"]
    ensures Run(s, 0, GL_FALSE, map[]) == Run(s, 10, GL_VERTEX_SHADER, m1)
  {
    TokenEndAt(s, 1, 7);
    assert NextStage("vertex", GL_FALSE) == Some(GL_VERTEX_SHADER);
    RunDirective(s, 0, 7, GL_FALSE, GL_VERTEX_SHADER, map[]);
    LineEndAt(s, 8, 9);
    assert s[8..9] + "\n" == "A\n";
    RunLine(s, 8, 9, GL_VERTEX_SHADER, map[]);
    assert [] + "A\n" == "A\n";
    assert Append(map[], GL_VERTEX_SHADER, "A\n") == m1;
  }

  /** The second half of TwoStages: the `@fragment` line and its content. */
  lemma FragmentStage(s: string, m1: SplitFile)
    requires s == "@vertex\nA\n@fragment\nB\n" && m1 == map[GL_VERTEX_SHADER := "A\n"]
    ensures Run(s, 10, GL_VERTEX_SHADER, m1) == Split(map[GL_VERTEX_SHADER := "A\n", GL_FRAGMENT_SHADER := "B\n"])
  {
    var m2 := map[GL_VERTEX_SHADER := "A\n", GL_FRAGMENT_SHADER := "B\n"];
    assert s[11..19] == "fragment";
    TokenEndAt(s, 11, 19);
    assert NextStage("fragment", GL_VERTEX_SHADER) == Some(GL_FRAGMENT_SHADER);
    RunDirective(s, 10, 19, GL_VERTEX_SHADER, GL_FRAGMENT_SHADER, m1);
    LineEndAt(s, 20, 21);
    assert s[20..21] + "\n" == "B\n";
    RunLine(s, 20, 21, GL_FRAGMENT_SHADER, m1);
    assert [] + "B\n" == "B\n";
    assert Append(m1, GL_FRAGMENT_SHADER, "B\n") == m2;
  }

  /** Text before any directive goes to the `GL_FALSE` section, and a last
      line without a newline still gets one. */
  lemma TextBeforeDirectives()
    ensures Run("A", 0, GL_FALSE, map[]) == Split(map[GL_FALSE := "A\n"])
  {
    assert LineEnd("A", 0) == 1 && "A"[0..1] == "A";
    assert [] + ("A" + "\n") == "A\n";
    assert Append(map[], GL_FALSE, "A" + "\n") == map[GL_FALSE := "A\n"];
    assert Run("A", 0, GL_FALSE, map[]) == Run("A", 2, GL_FALSE, map[GL_FALSE := "A\n"]);
  }

  /** A directive token ending at a space selects its stage, and the rest
      of that line becomes content of that stage. */
  lemma RestOfDirectiveLine()
    ensures Run("@vertex B", 0, GL_FALSE, map[]) == Split(map[GL_VERTEX_SHADER := "B\n"])
  {
    var s := "@vertex B";
    assert TokenEnd(s, 1) == 7 && s[1..7] == "vertex" && NextStage("vertex", GL_FALSE) == Some(GL_VERTEX_SHADER);
    assert Run(s, 0, GL_FALSE, map[]) == Run(s, 8, GL_VERTEX_SHADER, map[]);
    assert LineEnd(s, 8) == 9 && s[8..9] == "B";
    assert [] + ("B" + "\n") == "B\n";
    assert Append(map[], GL_VERTEX_SHADER, "B" + "\n") == map[GL_VERTEX_SHADER := "B\n"];
    assert Run(s, 8, GL_VERTEX_SHADER, map[]) == Run(s, 10, GL_VERTEX_SHADER, map[GL_VERTEX_SHADER := "B\n"]);
  }

  /** An unsupported directive leaves the current section as it was. */
  lemma UnsupportedDirective()
    ensures Run("@foo\nA", 0, GL_FALSE, map[]) == Split(map[GL_FALSE := "A\n"])
  {
    var s := "@foo\nA";
    assert TokenEnd(s, 1) == 4 && s[1..4] == "foo" && NextStage("foo", GL_FALSE) == Some(GL_FALSE);
    assert Run(s, 0, GL_FALSE, map[]) == Run(s, 5, GL_FALSE, map[]);
    assert LineEnd(s, 5) == 6 && s[5..6] == "A";
    assert [] + ("A" + "\n") == "A\n";
    assert Append(map[], GL_FALSE, "A" + "\n") == map[GL_FALSE := "A\n"];
    assert Run(s, 5, GL_FALSE, map[]) == Run(s, 7, GL_FALSE, map[GL_FALSE := "A\n"]);
  }

  /** `@end` stops the splitter: nothing after it reaches a section. */
  lemma EndStops(s: string)
    requires s == "@vertex\nA\n@end\nB\n"
    ensures Run(s, 0, GL_FALSE, map[]) == Split(map[GL_VERTEX_SHADER := "A\n"])
  {
    var m1 := map[GL_VERTEX_SHADER := "A\n"];
    assert s[1..7] == "vertex";
    VertexLine(s, m1);
    assert s[11..14] == "end";
    TokenEndAt(s, 11, 14);
    assert NextStage("end", GL_VERTEX_SHADER) == None;
    RunEnd(s, 10, 14, GL_VERTEX_SHADER, m1);
  }

  /** A line starting with a comment marker is never passed: the loop stays
      at its first character for ever. So does a comment right after a
      directive token on the same line. */
  lemma CommentsSpin()
    ensures Run("x\n// c\n", 0, GL_FALSE, map[]).Diverges?
    ensures Run("x\n// c\n", 0, GL_FALSE, map[]).pos == 2
    ensures Run("@vertex //c", 0, GL_FALSE, map[]) == Diverges(8)
  {
    assert LineEnd("x\n// c\n", 0) == 1;
    var s := "@vertex //c";
    assert TokenEnd(s, 1) == 7 && s[1..7] == "vertex";
  }

  // ---------------------------------------------------------------------
  // Stage selection in Compile

  /** The program Compile builds from the sections, or why it gives up. */
  datatype Program =
    | ComputeProgram(compute: string)
    | RenderProgram(vertex: string, fragment: string, geometry: Option<string>)
    | MissingVertex
    | MissingFragment

  /** `Shader::Compile`, reduced to which sections it uses: a compute
      section alone makes a compute program; otherwise a vertex and a
      fragment section are both needed, and a geometry section is attached
      when there is one. */
  method Compile(splitFile: SplitFile) returns (p: Program)
    ensures p.ComputeProgram? <==> GL_COMPUTE_SHADER in splitFile
    ensures p.ComputeProgram? ==> p.compute == splitFile[GL_COMPUTE_SHADER]
    ensures p.MissingVertex? <==> GL_COMPUTE_SHADER !in splitFile && GL_VERTEX_SHADER !in splitFile
    ensures p.MissingFragment? <==>
      GL_COMPUTE_SHADER !in splitFile && GL_VERTEX_SHADER in splitFile && GL_FRAGMENT_SHADER !in splitFile
    ensures p.RenderProgram? ==>
      p.vertex == splitFile[GL_VERTEX_SHADER] && p.fragment == splitFile[GL_FRAGMENT_SHADER] &&
      (p.geometry.Some? <==> GL_GEOMETRY_SHADER in splitFile) &&
      (p.geometry.Some? ==> p.geometry.value == splitFile[GL_GEOMETRY_SHADER])
  {
    if GL_COMPUTE_SHADER in splitFile {
      return ComputeProgram(splitFile[GL_COMPUTE_SHADER]);
    }
    var usingGeom := GL_GEOMETRY_SHADER in splitFile;
    if GL_VERTEX_SHADER !in splitFile {
      return MissingVertex;
    }
    var vertex := splitFile[GL_VERTEX_SHADER];
    if GL_FRAGMENT_SHADER !in splitFile {
      return MissingFragment;
    }
    var fragment := splitFile[GL_FRAGMENT_SHADER];
    var geometry := None;
    if usingGeom {
      geometry := Some(splitFile[GL_GEOMETRY_SHADER]);
    }
    p := RenderProgram(vertex, fragment, geometry);
  }
}
