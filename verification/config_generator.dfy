/** The two driver loops of the generator: `read_env_file` / `read_env_files`,
    which fold environment files into the variable dictionary, and the render
    loop of `generate_file`, which runs a template through a stack of IF outcomes.
    A file is a sequence of lines (`std::getline` has already split it); a file
    that cannot be opened is `None`. Console messages are returned as data. */
module ConfigGenerator {
  import opened Results
  import opened StringUtils
  import opened ParsingUtils
  import opened Substitution

  type Dictionary = map<string, string>

  /** A file named on the command line, as its lines, or `None` when it cannot be
      opened. */
  datatype Source = Source(path: string, lines: Option<seq<string>>)

  /** What `read_env_file` writes to the console instead of stopping. */
  datatype Notice =
    | MissingEnvFile(path: string)
    | MalformedEnvLine(path: string, line: nat, error: Error)
    | Override(path: string, line: nat, name: string, previous: string, value: string)

  datatype EnvState = EnvState(dict: Dictionary, notices: seq<Notice>)

  /** The state of `read_env_file` between two lines, with its `line_count`. */
  datatype Progress = Progress(state: EnvState, count: nat)

  const EnvSeparator: char := '='

  /** A line that is empty once trimmed. */
  predicate IsBlank(line: string) {
    TrimSafe(line) && Trim(line) == []
  }

  // ---------------------------------------------------------------------------
  // Environment files
  // ---------------------------------------------------------------------------

  /** The assignment a line makes, if it makes one: the line is not blank and its
      trimmed text splits into a name and a value. */
  function Assignment(line: string): Option<(string, string)> {
    if !TrimSafe(line) || Trim(line) == [] then None
    else
      var pair := GetNameValuePair(Trim(line), EnvSeparator);
      if pair.Success? then Some(pair.value) else None
  }

  /** The map after an optional assignment. */
  function Assign(dict: Dictionary, assignment: Option<(string, string)>): Dictionary {
    if assignment.Some? then dict[assignment.value.0 := assignment.value.1] else dict
  }

  /** One iteration of the loop of `read_env_file`. `count` is its `line_count`,
      which only a successful assignment advances. A malformed line is reported
      and skipped; a name already present is reported and overwritten. */
  function EnvLineStep(path: string, line: string, count: nat, st: EnvState): (r: Result<Progress>)
    ensures !TrimSafe(line) ==> r == Failure(UndefinedBehaviour(TrimOfBlankString))
    ensures IsBlank(line) ==> r == Success(Progress(st, count))
    ensures r.Success? ==> st.notices <= r.value.state.notices
    ensures r.Failure? ==> r.error.IsUndefined()
    ensures Assignment(line).Some? ==>
              var (name, value) := Assignment(line).value;
              && r.Success?
              && r.value.state.notices ==
                   st.notices + if name in st.dict then [Override(path, count, name, st.dict[name], value)] else []
    ensures TrimSafe(line) && !IsBlank(line) && Assignment(line).None? ==>
              var e := GetNameValuePair(Trim(line), EnvSeparator).error;
              r == if e.IsUndefined() then Failure(e)
                   else Success(Progress(st.(notices := st.notices + [MalformedEnvLine(path, count, e)]), count))
  {
    if !TrimSafe(line) then Failure(UndefinedBehaviour(TrimOfBlankString))
    else if Trim(line) == [] then Success(Progress(st, count))
    else
      var pair := GetNameValuePair(Trim(line), EnvSeparator);
      if pair.Failure? then
        if pair.error.IsUndefined() then Failure(pair.error)
        else Success(Progress(st.(notices := st.notices + [MalformedEnvLine(path, count, pair.error)]), count))
      else
        var (name, value) := pair.value;
        var notes := if name in st.dict then [Override(path, count, name, st.dict[name], value)] else [];
        Success(Progress(EnvState(st.dict[name := value], st.notices + notes), count + 1))
  }

  /** A line changes the map exactly by the assignment it makes, and only an
      assignment advances `line_count`; a line that makes one always succeeds. */
  lemma EnvLineEffect(path: string, line: string, count: nat, st: EnvState)
    ensures Assignment(line).Some? ==> EnvLineStep(path, line, count, st).Success?
    ensures var r := EnvLineStep(path, line, count, st);
            r.Success? ==>
              && r.value.state.dict == Assign(st.dict, Assignment(line))
              && r.value.count == (if Assignment(line).Some? then count + 1 else count)
  {
  }

  /** The loop of `read_env_file` over the remaining lines. */
  function ReadEnvLines(path: string, lines: seq<string>, count: nat, st: EnvState): (r: Result<EnvState>)
    ensures r.Success? ==> st.notices <= r.value.notices
    ensures r.Failure? ==> r.error.IsUndefined()
    decreases |lines|
  {
    if lines == [] then Success(st)
    else
      var next :- EnvLineStep(path, lines[0], count, st);
      ReadEnvLines(path, lines[1..], next.count, next.state)
  }

  /** `read_env_file`: a missing file is reported and skipped; otherwise its lines
      are read with `line_count` starting at 1. */
  function ReadEnvFile(source: Source, st: EnvState): (r: Result<EnvState>)
    ensures source.lines.None? ==> r == Success(st.(notices := st.notices + [MissingEnvFile(source.path)]))
    ensures r.Success? ==> st.notices <= r.value.notices
    ensures r.Failure? ==> r.error.IsUndefined()
  {
    match source.lines
    case None => Success(st.(notices := st.notices + [MissingEnvFile(source.path)]))
    case Some(lines) => ReadEnvLines(source.path, lines, 1, st)
  }

  /** `read_env_files`: the files in the order they were given. */
  function ReadEnvFiles(sources: seq<Source>, st: EnvState): (r: Result<EnvState>)
    ensures r.Success? ==> st.notices <= r.value.notices
    ensures r.Failure? ==> r.error.IsUndefined()
    decreases |sources|
  {
    if sources == [] then Success(st)
    else
      var next :- ReadEnvFile(sources[0], st);
      ReadEnvFiles(sources[1..], next)
  }

  // The reference: every assignment of every file, in order, laid over the map.

  function LineAssignments(lines: seq<string>): seq<(string, string)>
    decreases |lines|
  {
    if lines == [] then []
    else
      var rest := LineAssignments(lines[1..]);
      match Assignment(lines[0])
      case None => rest
      case Some(pair) => [pair] + rest
  }

  function SourceAssignments(sources: seq<Source>): seq<(string, string)>
    decreases |sources|
  {
    if sources == [] then []
    else
      var here := if sources[0].lines.Some? then LineAssignments(sources[0].lines.value) else [];
      here + SourceAssignments(sources[1..])
  }

  /** The map after the assignments, applied one after the other. */
  function Overlay(dict: Dictionary, pairs: seq<(string, string)>): Dictionary
    decreases |pairs|
  {
    if pairs == [] then dict else Overlay(dict[pairs[0].0 := pairs[0].1], pairs[1..])
  }

  /** The lines of one file act as their assignments, in order. */
  lemma {:induction false} ReadEnvLinesIsOverlay(path: string, lines: seq<string>, count: nat, st: EnvState)
    ensures ReadEnvLines(path, lines, count, st).Success? ==>
              ReadEnvLines(path, lines, count, st).value.dict == Overlay(st.dict, LineAssignments(lines))
    decreases |lines|
  {
    if lines != [] {
      var step := EnvLineStep(path, lines[0], count, st);
      EnvLineEffect(path, lines[0], count, st);
      if step.Success? {
        ReadEnvLinesIsOverlay(path, lines[1..], step.value.count, step.value.state);
      }
    }
  }

  /** All files act as the concatenation of their assignments, in argument order. */
  lemma {:induction false} ReadEnvFilesIsOverlay(sources: seq<Source>, st: EnvState)
    ensures ReadEnvFiles(sources, st).Success? ==>
              ReadEnvFiles(sources, st).value.dict == Overlay(st.dict, SourceAssignments(sources))
    decreases |sources|
  {
    if sources != [] {
      var first := ReadEnvFile(sources[0], st);
      if first.Success? {
        var here := if sources[0].lines.Some? then LineAssignments(sources[0].lines.value) else [];
        if sources[0].lines.Some? {
          ReadEnvLinesIsOverlay(sources[0].path, sources[0].lines.value, 1, st);
        }
        ReadEnvFilesIsOverlay(sources[1..], first.value);
        OverlayAppend(st.dict, here, SourceAssignments(sources[1..]));
      }
    }
  }

  lemma {:induction false} OverlayAppend(dict: Dictionary, a: seq<(string, string)>, b: seq<(string, string)>)
    ensures Overlay(dict, a + b) == Overlay(Overlay(dict, a), b)
    decreases |a|
  {
    if a == [] {
      assert a + b == b;
    } else {
      assert (a + b)[1..] == a[1..] + b;
      OverlayAppend(dict[a[0].0 := a[0].1], a[1..], b);
    }
  }

  /** A name no assignment mentions keeps its old value, or stays absent. */
  lemma {:induction false} OverlayUntouched(dict: Dictionary, pairs: seq<(string, string)>, name: string)
    requires forall j :: 0 <= j < |pairs| ==> pairs[j].0 != name
    ensures name in Overlay(dict, pairs) <==> name in dict
    ensures name in dict ==> Overlay(dict, pairs)[name] == dict[name]
    decreases |pairs|
  {
    if pairs != [] {
      assert pairs[0].0 != name;
      assert forall j :: 0 <= j < |pairs| - 1 ==> pairs[1..][j] == pairs[j + 1];
      OverlayUntouched(dict[pairs[0].0 := pairs[0].1], pairs[1..], name);
    }
  }

  /** Last assignment wins: the value of the last assignment to a name is its
      final value. */
  lemma {:induction false} OverlayLastWins(dict: Dictionary, pairs: seq<(string, string)>, i: nat)
    requires i < |pairs| && forall j :: i < j < |pairs| ==> pairs[j].0 != pairs[i].0
    ensures pairs[i].0 in Overlay(dict, pairs) && Overlay(dict, pairs)[pairs[i].0] == pairs[i].1
    decreases |pairs|
  {
    var next := dict[pairs[0].0 := pairs[0].1];
    assert forall j :: 0 <= j < |pairs| - 1 ==> pairs[1..][j] == pairs[j + 1];
    if i == 0 {
      OverlayUntouched(next, pairs[1..], pairs[0].0);
    } else {
      OverlayLastWins(next, pairs[1..], i - 1);
    }
  }

  /** A line that does not end in a trimming character never reaches undefined
      behaviour: its trimmed text ends where the line ends, so neither side of the
      separator can be a non-empty run of blanks. */
  predicate EndsInNonBlank(line: string) {
    line == [] || !IsTrimChar(line[|line| - 1])
  }

  lemma EnvLineDefined(path: string, line: string, count: nat, st: EnvState)
    requires EndsInNonBlank(line)
    ensures EnvLineStep(path, line, count, st).Success?
  {
    if line != [] {
      var t := Trim(line);
      assert t == line[|line| - |t|..];
      assert t[|t| - 1] == line[|line| - 1];
      NameValueDefined(t, EnvSeparator);
    }
  }

  lemma {:induction false} EnvLinesDefined(path: string, lines: seq<string>, count: nat, st: EnvState)
    requires forall k :: 0 <= k < |lines| ==> EndsInNonBlank(lines[k])
    ensures ReadEnvLines(path, lines, count, st).Success?
    decreases |lines|
  {
    if lines != [] {
      assert forall k :: 0 <= k < |lines| - 1 ==> lines[1..][k] == lines[k + 1];
      EnvLineDefined(path, lines[0], count, st);
      var next := EnvLineStep(path, lines[0], count, st).value;
      EnvLinesDefined(path, lines[1..], next.count, next.state);
    }
  }

  /** Values read from environment files always hold a non-blank character. */
  lemma {:induction false} EnvLinesKeepContent(path: string, lines: seq<string>, count: nat, st: EnvState)
    requires ValuesHaveContent(st.dict)
    ensures ReadEnvLines(path, lines, count, st).Success? ==>
              ValuesHaveContent(ReadEnvLines(path, lines, count, st).value.dict)
    decreases |lines|
  {
    if lines != [] {
      var step := EnvLineStep(path, lines[0], count, st);
      EnvLineEffect(path, lines[0], count, st);
      if step.Success? {
        var a := Assignment(lines[0]);
        if a.Some? {
          assert HasNonTrim(a.value.1) by {
            assert !IsTrimChar(a.value.1[0]);
          }
        }
        assert ValuesHaveContent(step.value.state.dict);
        EnvLinesKeepContent(path, lines[1..], step.value.count, step.value.state);
      }
    }
  }

  // ---------------------------------------------------------------------------
  // Rendering a template
  // ---------------------------------------------------------------------------

  /** The state of the render loop: the IF outcomes (innermost last), the output
      so far, and `line_count`. */
  datatype RenderState = RenderState(stack: seq<bool>, out: string, lineCount: nat)

  /** A plain line is written when no IF is open or the innermost one holds; the
      outer ones are not consulted. */
  predicate Emitting(stack: seq<bool>) {
    stack == [] || stack[|stack| - 1]
  }

  datatype Kind = IfLine | EndifLine | PlainLine

  /** The classification of a substituted, trimmed line: IF is tested first. */
  function Classify(trimmed: string, definer: string): (r: Result<Kind>)
    ensures r == Success(IfLine) <==> IsLineIfStatement(trimmed, definer) == Success(true)
    ensures r == Success(EndifLine) <==>
              IsLineIfStatement(trimmed, definer) == Success(false) && trimmed == definer + EndifStatement
    ensures r == Success(PlainLine) <==>
              !Contains(trimmed, definer + IfStatement) && !Contains(trimmed, definer + EndifStatement)
  {
    var isIf :- IsLineIfStatement(trimmed, definer);
    if isIf then Success(IfLine)
    else
      var isEndif :- IsLineEndifStatement(trimmed, definer);
      if isEndif then Success(EndifLine) else Success(PlainLine)
  }

  /** With the default definer, `%ENDIF` is an ENDIF line. */
  lemma DefaultEndifClassified()
    ensures Classify("%ENDIF", "%") == Success(EndifLine)
  {
    var line := "%ENDIF";
    assert "%" + IfStatement == "%IF" && "%" + EndifStatement == line;
    forall k | 0 <= k <= |line| ensures !OccursAt(line, "%IF", k) {
      if 0 < k && k + 3 <= |line| {
        assert line[k..k + 3][0] != '%';
      } else if k == 0 {
        assert line[0..3][1] != 'I';
      }
    }
  }

  /** IF is tested first and anywhere on the line, so a definer such as "D", with
      which `definer + "IF"` occurs inside `definer + "ENDIF"`, turns every ENDIF
      line into a misplaced IF. */
  lemma EndifTakenForIf()
    ensures Classify("DENDIF", "D") == Failure(IfNotAtStart)
  {
    var line := "DENDIF";
    assert "D" + IfStatement == "DIF";
    assert line[3..6] == "DIF";
    assert OccursAt(line, "DIF", 3);
    assert line[0..4][1] != "DIF "[1];
  }

  /** For every definer, the line `definer + "ENDIF"` is an ENDIF line exactly when
      `definer + "IF"` does not occur inside it; otherwise it is a misplaced IF. */
  lemma EndifClassification(definer: string)
    ensures var line := definer + EndifStatement;
            Classify(line, definer) ==
              if Contains(line, definer + IfStatement) then Failure(IfNotAtStart) else Success(EndifLine)
  {
    var line := definer + EndifStatement;
    var token := definer + IfStatement + " ";
    assert line[|definer|] != token[|definer|];
    assert line[..|token|][|definer|] == line[|definer|];
    assert !OccursAt(line, token, 0);
  }

  /** What a non-blank template line turns out to be once substituted and trimmed. */
  function LineKind(line: string, definer: string, dict: Dictionary): Result<Kind>
    requires ValidDefiner(definer)
  {
    var sub :- SubstituteVars(line, definer, dict);
    if !TrimSafe(sub) then Failure(UndefinedBehaviour(TrimOfBlankString)) else Classify(Trim(sub), definer)
  }

  /** The `try` block of the render loop for a non-blank line: substitute, trim,
      then push, pop or emit. Returns the new stack and the text written. */
  function ProcessLine(line: string, stack: seq<bool>, definer: string, dict: Dictionary, caseSensitive: bool)
    : (r: Result<(seq<bool>, string)>)
    requires ValidDefiner(definer)
    ensures SubstituteVars(line, definer, dict).Failure? ==> r == Failure(SubstituteVars(line, definer, dict).error)
    ensures r.Success? && r.value.1 != [] ==> Emitting(stack) && r.value.0 == stack
    ensures var sub := SubstituteVars(line, definer, dict);
            sub.Success? && TrimSafe(sub.value) && Classify(Trim(sub.value), definer) == Success(IfLine) ==>
              var e := EvaluateIfStatementLine(Trim(sub.value), definer, caseSensitive);
              r == if e.Success? then Success((stack + [e.value], [])) else Failure(e.error)
    ensures var sub := SubstituteVars(line, definer, dict);
            sub.Success? && TrimSafe(sub.value) && Classify(Trim(sub.value), definer) == Success(EndifLine) ==>
              r == (if stack == [] then Failure(UnexpectedEndif) else Success((stack[..|stack| - 1], [])))
    ensures var sub := SubstituteVars(line, definer, dict);
            sub.Success? && TrimSafe(sub.value) && Classify(Trim(sub.value), definer) == Success(PlainLine) ==>
              r == Success((stack, if Emitting(stack) then sub.value + "\n" else []))
  {
    var sub :- SubstituteVars(line, definer, dict);
    if !TrimSafe(sub) then Failure(UndefinedBehaviour(TrimOfBlankString))
    else
      var trimmed := Trim(sub);
      var kind :- Classify(trimmed, definer);
      match kind
      case IfLine =>
        var value :- EvaluateIfStatementLine(trimmed, definer, caseSensitive);
        Success((stack + [value], []))
      case EndifLine =>
        if stack == [] then Failure(UnexpectedEndif) else Success((stack[..|stack| - 1], []))
      case PlainLine =>
        Success((stack, if Emitting(stack) then sub + "\n" else []))
  }

  /** The stack discipline of one line, by its kind: an IF line pushes exactly one
      outcome, an ENDIF line pops exactly one, and a plain line leaves the stack
      alone; only a plain line writes anything, and a line whose kind cannot be
      determined fails with the same error. */
  lemma ProcessLineStack(line: string, stack: seq<bool>, definer: string, dict: Dictionary, caseSensitive: bool)
    requires ValidDefiner(definer)
    ensures var r := ProcessLine(line, stack, definer, dict, caseSensitive);
            var kind := LineKind(line, definer, dict);
            && (kind.Failure? ==> r == Failure(kind.error))
            && (r.Success? && kind == Success(IfLine) ==>
                  |r.value.0| == |stack| + 1 && r.value.0[..|stack|] == stack && r.value.1 == [])
            && (r.Success? && kind == Success(EndifLine) ==>
                  stack != [] && r.value.0 == stack[..|stack| - 1] && r.value.1 == [])
            && (r.Success? && kind == Success(PlainLine) ==> r.value.0 == stack)
  {
    var sub := SubstituteVars(line, definer, dict);
    if sub.Success? && TrimSafe(sub.value) {
      var trimmed := Trim(sub.value);
      var e := EvaluateIfStatementLine(trimmed, definer, caseSensitive);
      if Classify(trimmed, definer) == Success(IfLine) && e.Success? {
        Pushed(stack, e.value);
      }
    }
  }

  lemma Pushed(stack: seq<bool>, value: bool)
    ensures |stack + [value]| == |stack| + 1 && (stack + [value])[..|stack|] == stack
  {
  }

  /** One iteration of the render loop. A blank line writes a newline and is not
      substituted; an error inside the `try` block is reported with the file and
      `line_count`, which advances only when a non-blank line succeeds. */
  function RenderLine(path: string, line: string, st: RenderState, definer: string, dict: Dictionary,
                      caseSensitive: bool): (r: Result<RenderState>)
    requires ValidDefiner(definer)
    ensures !TrimSafe(line) ==> r == Failure(UndefinedBehaviour(TrimOfBlankString))
    ensures IsBlank(line) ==> r == Success(st.(out := st.out + "\n"))
    ensures TrimSafe(line) && !IsBlank(line) ==>
              var p := ProcessLine(line, st.stack, definer, dict, caseSensitive);
              && (p.Failure? ==> r == Failure(AtLine(path, st.lineCount, p.error)))
              && (p.Success? ==> r == Success(RenderState(p.value.0, st.out + p.value.1, st.lineCount + 1)))
  {
    if !TrimSafe(line) then Failure(UndefinedBehaviour(TrimOfBlankString))
    else if Trim(line) == [] then Success(st.(out := st.out + "\n"))
    else
      match ProcessLine(line, st.stack, definer, dict, caseSensitive)
      case Failure(e) => Failure(AtLine(path, st.lineCount, e))
      case Success((stack, emitted)) => Success(RenderState(stack, st.out + emitted, st.lineCount + 1))
  }

  /** The render loop over the remaining lines; the first failure aborts it. */
  function RenderLines(path: string, lines: seq<string>, st: RenderState, definer: string, dict: Dictionary,
                       caseSensitive: bool): (r: Result<RenderState>)
    requires ValidDefiner(definer)
    ensures r.Success? ==> st.out <= r.value.out
    decreases |lines|
  {
    if lines == [] then Success(st)
    else
      var next :- RenderLine(path, lines[0], st, definer, dict, caseSensitive);
      RenderLines(path, lines[1..], next, definer, dict, caseSensitive)
  }

  /** `generate_file` without its I/O: render from an empty stack with
      `line_count` 1, and fail if an IF is left open at the end. */
  function GenerateFile(path: string, lines: seq<string>, definer: string, dict: Dictionary,
                        caseSensitive: bool): (r: Result<string>)
    requires ValidDefiner(definer)
    ensures var rendered := RenderLines(path, lines, RenderState([], [], 1), definer, dict, caseSensitive);
            && (rendered.Failure? ==> r == Failure(rendered.error))
            && (rendered.Success? && rendered.value.stack != [] ==> r == Failure(MissingEndif))
            && (rendered.Success? && rendered.value.stack == [] ==> r == Success(rendered.value.out))
  {
    var st :- RenderLines(path, lines, RenderState([], [], 1), definer, dict, caseSensitive);
    if st.stack != [] then Failure(MissingEndif) else Success(st.out)
  }

  /** What became of one template. */
  datatype Outcome =
    | Skipped                                  // the template could not be opened
    | Generated(output: string, text: string)  // `output` is "" when none was named
    | Failed(error: Error)                     // reported, then the next template

  /** `generate_files`: template `i` goes to output `i`, or to no file when there
      are fewer outputs; each template's failure is reported and the loop goes on. */
  function GenerateFiles(templates: seq<Source>, outputs: seq<string>, definer: string, dict: Dictionary,
                         caseSensitive: bool): (r: seq<Outcome>)
    requires ValidDefiner(definer)
    ensures |r| == |templates|
    ensures forall i :: 0 <= i < |templates| ==>
              match templates[i].lines
              case None => r[i] == Skipped
              case Some(lines) =>
                var g := GenerateFile(templates[i].path, lines, definer, dict, caseSensitive);
                r[i] == if g.Success? then Generated(if i < |outputs| then outputs[i] else "", g.value)
                        else Failed(g.error)
  {
    seq(|templates|, i requires 0 <= i < |templates| => GenerateOne(templates[i], i, outputs, definer, dict, caseSensitive))
  }

  function GenerateOne(template: Source, i: nat, outputs: seq<string>, definer: string, dict: Dictionary,
                       caseSensitive: bool): Outcome
    requires ValidDefiner(definer)
  {
    match template.lines
    case None => Skipped
    case Some(lines) =>
      var g := GenerateFile(template.path, lines, definer, dict, caseSensitive);
      if g.Success? then Generated(if i < |outputs| then outputs[i] else "", g.value) else Failed(g.error)
  }

  // ---------------------------------------------------------------------------
  // Properties of the render loop
  // ---------------------------------------------------------------------------

  /** The number of lines that get past the blank check. */
  function NonBlankCount(lines: seq<string>): nat
    decreases |lines|
  {
    if lines == [] then 0
    else (if IsBlank(lines[0]) then 0 else 1) + NonBlankCount(lines[1..])
  }

  /** After a successful run `line_count` has advanced once per non-blank line. */
  lemma {:induction false} RenderLinesCount(path: string, lines: seq<string>, st: RenderState, definer: string,
                                            dict: Dictionary, caseSensitive: bool)
    requires ValidDefiner(definer)
    ensures var r := RenderLines(path, lines, st, definer, dict, caseSensitive);
            r.Success? ==> r.value.lineCount == st.lineCount + NonBlankCount(lines)
    decreases |lines|
  {
    if lines != [] {
      var next := RenderLine(path, lines[0], st, definer, dict, caseSensitive);
      if next.Success? {
        RenderLinesCount(path, lines[1..], next.value, definer, dict, caseSensitive);
      }
    }
  }

  /** How the failure of line `k` is reported: the undefined trim of an all-blank
      line happens before the `try` block; anything else is reported with the
      file and the number of non-blank lines before line `k`, counted on from
      `start`. */
  predicate ReportedAt(e: Error, path: string, lines: seq<string>, k: int, start: nat)
    requires 0 <= k < |lines|
  {
    if TrimSafe(lines[k]) then
      !IsBlank(lines[k]) && e.AtLine? && e.file == path && e.line == start + NonBlankCount(lines[..k])
    else e == UndefinedBehaviour(TrimOfBlankString)
  }

  /** A failed render is reported at one of its lines, with the line number the
      C++ loop has counted when it reaches that line. */
  lemma {:induction false} RenderLinesFailureLine(path: string, lines: seq<string>, st: RenderState,
                                                  definer: string, dict: Dictionary, caseSensitive: bool)
    requires ValidDefiner(definer)
    ensures var r := RenderLines(path, lines, st, definer, dict, caseSensitive);
            r.Failure? ==> exists k :: 0 <= k < |lines| && ReportedAt(r.error, path, lines, k, st.lineCount)
    decreases |lines|
  {
    if lines != [] {
      var r := RenderLines(path, lines, st, definer, dict, caseSensitive);
      var next := RenderLine(path, lines[0], st, definer, dict, caseSensitive);
      if next.Failure? {
        assert lines[..0] == [];
        assert ReportedAt(r.error, path, lines, 0, st.lineCount);
      } else {
        var tail := lines[1..];
        RenderLinesFailureLine(path, tail, next.value, definer, dict, caseSensitive);
        if r.Failure? {
          var k :| 0 <= k < |tail| && ReportedAt(r.error, path, tail, k, next.value.lineCount);
          PrefixOfTail(lines, k);
          assert ReportedAt(r.error, path, lines, k + 1, st.lineCount);
        }
      }
    }
  }

  lemma PrefixOfTail(lines: seq<string>, k: nat)
    requires k < |lines| - 1
    ensures lines[1..][k] == lines[k + 1] && lines[..k + 1][1..] == lines[1..][..k]
  {
  }

  /** Without case sensitivity and with non-blank values, a non-blank line fails
      only with an error the program reports. */
  lemma ProcessLineDefined(line: string, stack: seq<bool>, definer: string, dict: Dictionary)
    requires ValidDefiner(definer) && HasNonTrim(line) && ValuesHaveContent(dict)
    ensures var p := ProcessLine(line, stack, definer, dict, false);
            p.Failure? ==> !p.error.UndefinedBehaviour?
  {
    var sub := SubstituteVars(line, definer, dict);
    if sub.Success? {
      IfLineDefinedWhenInsensitive(Trim(sub.value), definer);
    }
  }

  /** Rendering has no undefined behaviour when no line is a non-empty run of
      blanks, no value is blank, and the comparison is not case-insensitive. */
  lemma {:induction false} RenderLinesDefined(path: string, lines: seq<string>, st: RenderState, definer: string,
                                              dict: Dictionary)
    requires ValidDefiner(definer) && ValuesHaveContent(dict)
    requires forall k :: 0 <= k < |lines| ==> TrimSafe(lines[k])
    ensures var r := RenderLines(path, lines, st, definer, dict, false);
            r.Failure? ==> !r.error.IsUndefined()
    decreases |lines|
  {
    if lines != [] {
      if !IsBlank(lines[0]) {
        ProcessLineDefined(lines[0], st.stack, definer, dict);
      }
      var next := RenderLine(path, lines[0], st, definer, dict, false);
      if next.Success? {
        RenderLinesDefined(path, lines[1..], next.value, definer, dict);
      }
    }
  }

  lemma GenerateFileDefined(path: string, lines: seq<string>, definer: string, dict: Dictionary)
    requires ValidDefiner(definer) && ValuesHaveContent(dict)
    requires forall k :: 0 <= k < |lines| ==> TrimSafe(lines[k])
    ensures var r := GenerateFile(path, lines, definer, dict, false);
            r.Failure? ==> !r.error.IsUndefined()
  {
    RenderLinesDefined(path, lines, RenderState([], [], 1), definer, dict);
  }

  /** A line that is not a directive and holds no reference: no opening brace and
      not the first character of the definer. */
  predicate Inert(line: string, definer: string) {
    definer != [] && '{' !in line && definer[0] !in line
  }

  /** Every line is inert and defined for the trim. */
  predicate AllInert(lines: seq<string>, definer: string)
    decreases |lines|
  {
    lines == [] || (TrimSafe(lines[0]) && Inert(lines[0], definer) && AllInert(lines[1..], definer))
  }

  /** The reference output for templates without directives: every line copied
      with its indentation, a blank line reduced to a bare newline. */
  function Copied(lines: seq<string>): string
    decreases |lines|
  {
    if lines == [] then []
    else (if IsBlank(lines[0]) then "\n" else lines[0] + "\n") + Copied(lines[1..])
  }

  /** The reference output for inert lines under a false IF: the blank check comes
      before the stack check, so each blank line still leaves a newline. */
  function BlankLines(lines: seq<string>): string
    decreases |lines|
  {
    if lines == [] then []
    else (if IsBlank(lines[0]) then "\n" else []) + BlankLines(lines[1..])
  }

  /** What inert lines render to: copied when emitting, only their blank lines
      otherwise. */
  function Shown(lines: seq<string>, emitting: bool): string {
    if emitting then Copied(lines) else BlankLines(lines)
  }

  /** An inert non-blank line is a plain line, written untouched when emitting. */
  lemma InertLine(line: string, stack: seq<bool>, definer: string, dict: Dictionary, caseSensitive: bool)
    requires ValidDefiner(definer) && Inert(line, definer) && HasNonTrim(line)
    ensures ProcessLine(line, stack, definer, dict, caseSensitive) ==
              Success((stack, if Emitting(stack) then line + "\n" else []))
  {
    BraceFreeUnchanged(line, definer, dict);
    var t := Trim(line);
    TrimmedAvoids(line, definer[0]);
    AbsentFirstChar(t, definer + IfStatement);
    AbsentFirstChar(t, definer + EndifStatement);
    assert Classify(t, definer) == Success(PlainLine);
  }

  /** What an inert line adds to the output. */
  function InertText(line: string, emitting: bool): string {
    if IsBlank(line) then "\n" else if emitting then line + "\n" else []
  }

  /** Inert lines leave the stack alone; they are copied when the innermost IF
      holds (or none is open), and reduced to their blank lines when it fails. */
  lemma {:induction false} RenderInertLines(path: string, lines: seq<string>, st: RenderState, definer: string,
                                            dict: Dictionary, caseSensitive: bool)
    requires ValidDefiner(definer) && AllInert(lines, definer)
    ensures var r := RenderLines(path, lines, st, definer, dict, caseSensitive);
            r.Success? && r.value.stack == st.stack && r.value.out == st.out + Shown(lines, Emitting(st.stack))
    decreases |lines|
  {
    if lines != [] {
      var next := InertCons(path, lines, st, definer, dict, caseSensitive);
      RenderInertLines(path, lines[1..], next, definer, dict, caseSensitive);
      AppendAssociates(st.out, InertText(lines[0], Emitting(st.stack)), Shown(lines[1..], Emitting(st.stack)));
    } else {
      AppendNothing(st.out);
    }
  }

  lemma AppendAssociates(a: string, b: string, c: string)
    ensures a + b + c == a + (b + c)
  {
  }

  lemma AppendNothing(a: string)
    ensures a + [] == a
  {
  }

  /** The first inert line is copied and the loop goes on from there. */
  lemma InertCons(path: string, lines: seq<string>, st: RenderState, definer: string, dict: Dictionary,
                  caseSensitive: bool) returns (next: RenderState)
    requires ValidDefiner(definer) && lines != [] && AllInert(lines, definer)
    ensures next.stack == st.stack && next.out == st.out + InertText(lines[0], Emitting(st.stack))
    ensures AllInert(lines[1..], definer)
    ensures Shown(lines, Emitting(st.stack)) == InertText(lines[0], Emitting(st.stack)) + Shown(lines[1..], Emitting(st.stack))
    ensures RenderLines(path, lines, st, definer, dict, caseSensitive) ==
              RenderLines(path, lines[1..], next, definer, dict, caseSensitive)
  {
    var line := lines[0];
    if !IsBlank(line) {
      InertLine(line, st.stack, definer, dict, caseSensitive);
    }
    next := RenderLine(path, line, st, definer, dict, caseSensitive).value;
  }

  /** A template without directives or references is copied line by line. */
  lemma InertTemplateCopied(path: string, lines: seq<string>, definer: string, dict: Dictionary, caseSensitive: bool)
    requires ValidDefiner(definer) && AllInert(lines, definer)
    ensures GenerateFile(path, lines, definer, dict, caseSensitive) == Success(Copied(lines))
  {
    var start := RenderState([], [], 1);
    RenderInertLines(path, lines, start, definer, dict, caseSensitive);
    assert start.out + Copied(lines) == Copied(lines);
  }

  // ---------------------------------------------------------------------------
  // IF blocks across the render loop
  // ---------------------------------------------------------------------------

  /** The number of non-blank lines of the given kind. */
  function KindCount(lines: seq<string>, kind: Kind, definer: string, dict: Dictionary): nat
    requires ValidDefiner(definer)
    decreases |lines|
  {
    if lines == [] then 0 else IsKind(lines[0], kind, definer, dict) + KindCount(lines[1..], kind, definer, dict)
  }

  /** 1 when the line is a non-blank line of the given kind, 0 otherwise. */
  function IsKind(line: string, kind: Kind, definer: string, dict: Dictionary): nat
    requires ValidDefiner(definer)
  {
    if !IsBlank(line) && LineKind(line, definer, dict) == Success(kind) then 1 else 0
  }

  lemma DepthStep(path: string, line: string, st: RenderState, definer: string, dict: Dictionary,
                  caseSensitive: bool)
    requires ValidDefiner(definer)
    ensures var next := RenderLine(path, line, st, definer, dict, caseSensitive);
            next.Success? ==>
              |next.value.stack| ==
                |st.stack| + IsKind(line, IfLine, definer, dict) - IsKind(line, EndifLine, definer, dict)
  {
    if TrimSafe(line) && !IsBlank(line) {
      ProcessLineStack(line, st.stack, definer, dict, caseSensitive);
    }
  }

  /** After a successful run the stack has grown by one per IF line and shrunk by
      one per ENDIF line. */
  lemma {:induction false} RenderLinesDepth(path: string, lines: seq<string>, st: RenderState, definer: string,
                                            dict: Dictionary, caseSensitive: bool)
    requires ValidDefiner(definer)
    ensures var r := RenderLines(path, lines, st, definer, dict, caseSensitive);
            r.Success? ==>
              |r.value.stack| ==
                |st.stack| + KindCount(lines, IfLine, definer, dict) - KindCount(lines, EndifLine, definer, dict)
    decreases |lines|
  {
    if lines != [] {
      var next := RenderLine(path, lines[0], st, definer, dict, caseSensitive);
      DepthStep(path, lines[0], st, definer, dict, caseSensitive);
      if next.Success? {
        RenderLinesDepth(path, lines[1..], next.value, definer, dict, caseSensitive);
      }
    }
  }

  /** A template is generated only when its IF and ENDIF lines balance; when every
      line succeeds but they do not, it fails because an ENDIF is missing. */
  lemma GenerateFileBalanced(path: string, lines: seq<string>, definer: string, dict: Dictionary, caseSensitive: bool)
    requires ValidDefiner(definer)
    ensures GenerateFile(path, lines, definer, dict, caseSensitive).Success? ==>
              KindCount(lines, IfLine, definer, dict) == KindCount(lines, EndifLine, definer, dict)
    ensures RenderLines(path, lines, RenderState([], [], 1), definer, dict, caseSensitive).Success? &&
            KindCount(lines, IfLine, definer, dict) != KindCount(lines, EndifLine, definer, dict) ==>
              GenerateFile(path, lines, definer, dict, caseSensitive) == Failure(MissingEndif)
  {
    RenderLinesDepth(path, lines, RenderState([], [], 1), definer, dict, caseSensitive);
  }

  /** The render loop over `a + b` is the loop over `a` followed by the loop over
      `b`. */
  lemma {:induction false} RenderLinesAppend(path: string, a: seq<string>, b: seq<string>, st: RenderState,
                                             definer: string, dict: Dictionary, caseSensitive: bool)
    requires ValidDefiner(definer)
    ensures RenderLines(path, a + b, st, definer, dict, caseSensitive) ==
              match RenderLines(path, a, st, definer, dict, caseSensitive)
              case Failure(e) => Failure(e)
              case Success(mid) => RenderLines(path, b, mid, definer, dict, caseSensitive)
    decreases |a|
  {
    if a == [] {
      assert a + b == b;
    } else {
      assert (a + b)[0] == a[0] && (a + b)[1..] == a[1..] + b;
      var next := RenderLine(path, a[0], st, definer, dict, caseSensitive);
      if next.Success? {
        RenderLinesAppend(path, a[1..], b, next.value, definer, dict, caseSensitive);
      }
    }
  }

  lemma RenderOne(path: string, line: string, st: RenderState, definer: string, dict: Dictionary,
                  caseSensitive: bool)
    requires ValidDefiner(definer)
    ensures RenderLines(path, [line], st, definer, dict, caseSensitive) ==
              RenderLine(path, line, st, definer, dict, caseSensitive)
  {
    assert [line][1..] == [];
  }

  /** A non-blank line that, substituted and trimmed, is an IF line evaluating to
      `value`. */
  predicate IfLineWith(line: string, value: bool, definer: string, dict: Dictionary, caseSensitive: bool)
    requires ValidDefiner(definer)
  {
    && TrimSafe(line) && !IsBlank(line)
    && var sub := SubstituteVars(line, definer, dict);
       && sub.Success? && TrimSafe(sub.value)
       && Classify(Trim(sub.value), definer) == Success(IfLine)
       && EvaluateIfStatementLine(Trim(sub.value), definer, caseSensitive) == Success(value)
  }

  lemma IfLineRendered(path: string, line: string, value: bool, st: RenderState, definer: string,
                       dict: Dictionary, caseSensitive: bool)
    requires ValidDefiner(definer) && IfLineWith(line, value, definer, dict, caseSensitive)
    ensures RenderLine(path, line, st, definer, dict, caseSensitive) ==
              Success(RenderState(st.stack + [value], st.out, st.lineCount + 1))
  {
    ProcessedLineRendered(path, line, st, definer, dict, caseSensitive);
    AppendNothing(st.out);
  }

  /** A definer whose ENDIF line survives trimming and is not taken for an IF. */
  predicate EndifRecognised(definer: string) {
    && (definer == [] || !IsTrimChar(definer[0]))
    && !Contains(definer + EndifStatement, definer + IfStatement)
  }

  /** The ENDIF line closes the innermost IF, or is an unexpected ENDIF when none
      is open. */
  lemma EndifLineRendered(path: string, st: RenderState, definer: string, dict: Dictionary, caseSensitive: bool)
    requires ValidDefiner(definer) && EndifRecognised(definer)
    ensures RenderLine(path, definer + EndifStatement, st, definer, dict, caseSensitive) ==
              if st.stack == [] then Failure(AtLine(path, st.lineCount, UnexpectedEndif))
              else Success(RenderState(st.stack[..|st.stack| - 1], st.out, st.lineCount + 1))
  {
    var line := definer + EndifStatement;
    EndifLineKept(definer, dict);
    EndifLineProcessed(st.stack, definer, dict, caseSensitive);
    ProcessedLineRendered(path, line, st, definer, dict, caseSensitive);
    AppendNothing(st.out);
  }

  /** A non-blank line is rendered as `ProcessLine` decides. */
  lemma ProcessedLineRendered(path: string, line: string, st: RenderState, definer: string, dict: Dictionary,
                              caseSensitive: bool)
    requires ValidDefiner(definer) && TrimSafe(line) && !IsBlank(line)
    ensures RenderLine(path, line, st, definer, dict, caseSensitive) ==
              match ProcessLine(line, st.stack, definer, dict, caseSensitive)
              case Failure(e) => Failure(AtLine(path, st.lineCount, e))
              case Success(p) => Success(RenderState(p.0, st.out + p.1, st.lineCount + 1))
  {
  }

  /** The ENDIF line is not blank, and substitution and trimming leave it as it is. */
  lemma EndifLineKept(definer: string, dict: Dictionary)
    requires ValidDefiner(definer) && EndifRecognised(definer)
    ensures var line := definer + EndifStatement;
            && TrimSafe(line) && !IsBlank(line) && Trim(line) == line
            && SubstituteVars(line, definer, dict) == Success(line)
  {
    var line := definer + EndifStatement;
    forall k | 0 <= k < |line| ensures line[k] != '{' {
      if k < |definer| {
        assert line[k] == definer[k] && !IsRegexSpecial(definer[k]);
      }
    }
    BraceFreeUnchanged(line, definer, dict);
    assert !IsTrimChar(line[0]) && !IsTrimChar(line[|line| - 1]);
  }

  lemma EndifLineProcessed(stack: seq<bool>, definer: string, dict: Dictionary, caseSensitive: bool)
    requires ValidDefiner(definer) && EndifRecognised(definer)
    requires SubstituteVars(definer + EndifStatement, definer, dict) == Success(definer + EndifStatement)
    requires TrimSafe(definer + EndifStatement) && Trim(definer + EndifStatement) == definer + EndifStatement
    ensures ProcessLine(definer + EndifStatement, stack, definer, dict, caseSensitive) ==
              if stack == [] then Failure(UnexpectedEndif) else Success((stack[..|stack| - 1], []))
  {
    EndifClassification(definer);
  }

  /** An IF block of inert lines leaves the stack as it found it, and renders to the
      lines copied when the IF holds and to a newline per blank line when it does
      not. Only the innermost outcome is consulted, so this holds inside any
      enclosing IF. */
  lemma IfBlockRendered(path: string, ifLine: string, body: seq<string>, value: bool, st: RenderState,
                        definer: string, dict: Dictionary, caseSensitive: bool)
    requires ValidDefiner(definer) && EndifRecognised(definer)
    requires IfLineWith(ifLine, value, definer, dict, caseSensitive) && AllInert(body, definer)
    ensures var r := RenderLines(path, [ifLine] + body + [definer + EndifStatement], st, definer, dict, caseSensitive);
            r.Success? && r.value.stack == st.stack && r.value.out == st.out + Shown(body, value)
  {
    var endif := definer + EndifStatement;
    BlockLines(ifLine, body, endif);
    RenderLinesAppend(path, [ifLine], body + [endif], st, definer, dict, caseSensitive);
    RenderOne(path, ifLine, st, definer, dict, caseSensitive);
    IfLineRendered(path, ifLine, value, st, definer, dict, caseSensitive);
    var inside := RenderState(st.stack + [value], st.out, st.lineCount + 1);
    RenderLinesAppend(path, body, [endif], inside, definer, dict, caseSensitive);
    RenderInertLines(path, body, inside, definer, dict, caseSensitive);
    var mid := RenderLines(path, body, inside, definer, dict, caseSensitive).value;
    RenderOne(path, endif, mid, definer, dict, caseSensitive);
    EndifLineRendered(path, mid, definer, dict, caseSensitive);
    Pushed(st.stack, value);
  }

  /** A template that is one IF block of inert lines is generated as the block's
      lines when the IF holds, and as its blank lines otherwise. */
  lemma IfBlockGenerated(path: string, ifLine: string, body: seq<string>, value: bool, definer: string,
                         dict: Dictionary, caseSensitive: bool)
    requires ValidDefiner(definer) && EndifRecognised(definer)
    requires IfLineWith(ifLine, value, definer, dict, caseSensitive) && AllInert(body, definer)
    ensures GenerateFile(path, [ifLine] + body + [definer + EndifStatement], definer, dict, caseSensitive) ==
              Success(Shown(body, value))
  {
    var start := RenderState([], [], 1);
    IfBlockRendered(path, ifLine, body, value, start, definer, dict, caseSensitive);
    AppendNothingBefore(Shown(body, value));
  }

  lemma AppendNothingBefore(a: string)
    ensures [] + a == a
  {
  }

  /** Only the innermost outcome gates a line: a true IF block nested in a false
      one is written. */
  lemma NestedTrueInsideFalse(path: string, outer: string, inner: string, body: seq<string>, definer: string,
                              dict: Dictionary, caseSensitive: bool)
    requires ValidDefiner(definer) && EndifRecognised(definer)
    requires IfLineWith(outer, false, definer, dict, caseSensitive)
    requires IfLineWith(inner, true, definer, dict, caseSensitive)
    requires AllInert(body, definer)
    ensures var endif := definer + EndifStatement;
            GenerateFile(path, [outer, inner] + body + [endif, endif], definer, dict, caseSensitive) ==
              Success(Copied(body))
  {
    var endif := definer + EndifStatement;
    var start := RenderState([], [], 1);
    var block := [inner] + body + [endif];
    NestedLines(outer, inner, body, endif);
    var closed := IfLineThen(path, outer, false, block + [endif], start, definer, dict, caseSensitive);
    RenderLinesAppend(path, block, [endif], closed, definer, dict, caseSensitive);
    IfBlockRendered(path, inner, body, true, closed, definer, dict, caseSensitive);
    var mid := RenderLines(path, block, closed, definer, dict, caseSensitive).value;
    var last := EndifThen(path, mid, definer, dict, caseSensitive);
    AppendNothingBefore(Copied(body));
  }

  lemma BlockLines<T>(first: T, body: seq<T>, last: T)
    ensures [first] + body + [last] == [first] + (body + [last])
  {
  }

  lemma NestedLines<T>(outer: T, inner: T, body: seq<T>, endif: T)
    ensures [outer, inner] + body + [endif, endif] == [outer] + (([inner] + body + [endif]) + [endif])
  {
  }

  /** An IF line pushes its value and the loop goes on with the lines after it. */
  lemma IfLineThen(path: string, line: string, value: bool, rest: seq<string>, st: RenderState, definer: string,
                   dict: Dictionary, caseSensitive: bool) returns (next: RenderState)
    requires ValidDefiner(definer) && IfLineWith(line, value, definer, dict, caseSensitive)
    ensures next == RenderState(st.stack + [value], st.out, st.lineCount + 1)
    ensures RenderLines(path, [line] + rest, st, definer, dict, caseSensitive) ==
              RenderLines(path, rest, next, definer, dict, caseSensitive)
  {
    IfLineRendered(path, line, value, st, definer, dict, caseSensitive);
    next := RenderState(st.stack + [value], st.out, st.lineCount + 1);
    assert ([line] + rest)[0] == line && ([line] + rest)[1..] == rest;
  }

  /** A final ENDIF line closes the innermost IF. */
  lemma EndifThen(path: string, st: RenderState, definer: string, dict: Dictionary, caseSensitive: bool)
    returns (next: RenderState)
    requires ValidDefiner(definer) && EndifRecognised(definer) && st.stack != []
    ensures next == RenderState(st.stack[..|st.stack| - 1], st.out, st.lineCount + 1)
    ensures RenderLines(path, [definer + EndifStatement], st, definer, dict, caseSensitive) == Success(next)
  {
    EndifLineRendered(path, st, definer, dict, caseSensitive);
    RenderOne(path, definer + EndifStatement, st, definer, dict, caseSensitive);
    next := RenderState(st.stack[..|st.stack| - 1], st.out, st.lineCount + 1);
  }
}
