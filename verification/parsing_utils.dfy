/** Parsing of environment assignments (`NAME=value`) and of the `IF`/`ENDIF`
    directives of a template, with the evaluation of an `IF` line's chain of
    `LEFT IS|IS_NOT RIGHT` subconditions joined by `AND`/`OR`. */
module ParsingUtils {
  import opened Results
  import opened StringUtils

  const LogicalAnd: string := "AND"
  const LogicalOr: string := "OR"
  const ConditionalIs: string := "IS"
  const ConditionalIsNot: string := "IS_NOT"
  const IfStatement: string := "IF"
  const EndifStatement: string := "ENDIF"

  /** An `IF` line is read in groups of four words: `IF LEFT OP RIGHT`, then
      `AND|OR LEFT OP RIGHT` for every further subcondition. */
  const WordsInSubcondition: nat := 4

  // ---------------------------------------------------------------------------
  // NAME=value lines
  // ---------------------------------------------------------------------------

  /** A string that `Trim` leaves unchanged: non-empty, and neither its first nor
      its last character is a trimming character. */
  predicate WellTrimmed(s: string) {
    s != [] && !IsTrimChar(s[0]) && !IsTrimChar(s[|s| - 1])
  }

  lemma CountCharOfTwoIndices(s: string, c: char, i: nat, j: nat)
    requires i < j < |s| && s[i] == c && s[j] == c
    ensures CountChar(s, c) >= 2
  {
    assert s == s[..j] + s[j..];
    assert multiset(s) == multiset(s[..j]) + multiset(s[j..]);
    assert s[..j][i] == c;
    assert s[j..][0] == c;
    assert c in multiset(s[..j]) && c in multiset(s[j..]);
  }

  /** `get_name_value_pair`: splits an assignment at its single separator and trims
      both sides. The separator count is checked first, then the name, then the
      value. Trimming a non-empty all-blank side is undefined behaviour. */
  function GetNameValuePair(line: string, sep: char): (r: Result<(string, string)>)
    ensures CountChar(line, sep) == 0 ==> r == Failure(NoSeparator)
    ensures CountChar(line, sep) > 1 ==> r == Failure(MultipleSeparators(CountChar(line, sep)))
    ensures r.Success? ==> r.value.0 != [] && r.value.1 != [] && sep !in r.value.0 + r.value.1
    ensures r.Success? ==> !IsTrimChar(r.value.0[0]) && !IsTrimChar(r.value.1[0])
  {
    var count := CountChar(line, sep);
    if count == 0 then Failure(NoSeparator)
    else if count > 1 then Failure(MultipleSeparators(count))
    else SplitAt(line, sep, SeparatorIndex(line, sep))
  }

  /** With a single separator, at `i`, the pair is made of the trimmed sides of
      `i`: an empty name is reported before an empty value. */
  lemma NameValueAtSeparator(line: string, sep: char, i: nat)
    requires CountChar(line, sep) == 1 && i < |line| && line[i] == sep
    ensures sep !in multiset(line[..i]) && sep !in multiset(line[i + 1..])
    ensures GetNameValuePair(line, sep) == SplitAt(line, sep, i)
  {
    var j := SeparatorIndex(line, sep);
    assert j == i;
  }

  /** A line that starts and ends with a non-blank character (or is empty) never
      reaches the undefined trim: neither side of its separator can be a
      non-empty run of blanks. */
  lemma NameValueDefined(line: string, sep: char)
    requires line == [] || (!IsTrimChar(line[0]) && !IsTrimChar(line[|line| - 1]))
    ensures !(GetNameValuePair(line, sep).Failure? && GetNameValuePair(line, sep).error.IsUndefined())
  {
    if CountChar(line, sep) == 1 {
      var i := SeparatorIndex(line, sep);
      if i > 0 {
        assert line[..i][0] == line[0];
      }
      if i + 1 < |line| {
        assert line[i + 1..][|line| - i - 2] == line[|line| - 1];
      }
    }
  }

  /** The trimmed sides of `line` around its separator at `i`. */
  function SplitAt(line: string, sep: char, i: nat): (r: Result<(string, string)>)
    requires i < |line| && line[i] == sep
    requires sep !in multiset(line[..i]) && sep !in multiset(line[i + 1..])
    ensures TrimSafe(line[..i]) && TrimSafe(line[i + 1..]) ==>
              && (Trim(line[..i]) == [] ==> r == Failure(EmptyName))
              && (Trim(line[..i]) != [] && Trim(line[i + 1..]) == [] ==> r == Failure(EmptyValue))
              && (Trim(line[..i]) != [] && Trim(line[i + 1..]) != [] ==>
                    r == Success((Trim(line[..i]), Trim(line[i + 1..]))))
    ensures !TrimSafe(line[..i]) || !TrimSafe(line[i + 1..]) ==> r == Failure(UndefinedBehaviour(TrimOfBlankString))
    ensures r.Success? ==> r.value.0 != [] && r.value.1 != [] && sep !in r.value.0 + r.value.1
    ensures r.Success? ==> !IsTrimChar(r.value.0[0]) && !IsTrimChar(r.value.1[0])
  {
    var before, after := line[..i], line[i + 1..];
    if !TrimSafe(before) || !TrimSafe(after) then Failure(UndefinedBehaviour(TrimOfBlankString))
    else
      var name, value := Trim(before), Trim(after);
      if name == [] then Failure(EmptyName)
      else if value == [] then Failure(EmptyValue)
      else
        TrimmedAvoids(before, sep);
        TrimmedAvoids(after, sep);
        Success((name, value))
  }

  /** Where `find` reports the only separator of the line. */
  function SeparatorIndex(line: string, sep: char): (i: nat)
    requires CountChar(line, sep) == 1
    ensures i < |line| && line[i] == sep
    ensures sep !in multiset(line[..i]) && sep !in multiset(line[i + 1..])
  {
    CharIsContained(line, sep);
    var i := IndexOf(line, [sep]).value;
    SingleSeparator(line, sep, i);
    i
  }

  /** With a single separator, the index `find` reports is the only one. */
  lemma SingleSeparator(line: string, sep: char, i: nat)
    requires CountChar(line, sep) == 1 && i < |line| && OccursAt(line, [sep], i)
    ensures line[i] == sep
    ensures forall j | 0 <= j < |line| && line[j] == sep :: j == i
    ensures sep !in multiset(line[..i]) && sep !in multiset(line[i + 1..])
  {
    assert line[i..i + 1] == [sep];
    forall j | 0 <= j < |line| && line[j] == sep
      ensures j == i
    {
      if j < i { CountCharOfTwoIndices(line, sep, j, i); }
      if i < j { CountCharOfTwoIndices(line, sep, i, j); }
    }
    assert line == line[..i] + [sep] + line[i + 1..];
    assert multiset(line) == multiset(line[..i]) + multiset([sep]) + multiset(line[i + 1..]);
  }

  lemma TrimmedAvoids(s: string, c: char)
    requires TrimSafe(s) && c !in multiset(s)
    ensures c !in Trim(s)
  {
    var r := Trim(s);
    var b := |RightTrim(s)|;
    TrimIsSlice(s);
    forall k | 0 <= k < |r| ensures r[k] != c {
      assert r[k] == s[b - |r| + k];
      assert s[b - |r| + k] in multiset(s);
    }
  }

  lemma CharIsContained(s: string, c: char)
    requires c in multiset(s)
    ensures Contains(s, [c])
  {
    var j :| 0 <= j < |s| && s[j] == c;
    assert s[j..j + 1] == [c];
    assert OccursAt(s, [c], j);
  }

  /** Round trip: writing a well-trimmed name and value around a single separator
      and parsing the line gives the pair back. */
  lemma {:induction false} NameValueRoundTrip(name: string, value: string, sep: char)
    requires WellTrimmed(name) && WellTrimmed(value)
    requires sep !in name && sep !in value
    ensures GetNameValuePair(name + [sep] + value, sep) == Success((name, value))
  {
    var line := name + [sep] + value;
    var i := |name|;
    assert multiset(line) == multiset(name) + multiset([sep]) + multiset(value);
    assert CountChar(line, sep) == 1;
    assert line[i] == sep;
    assert line[..i] == name;
    assert line[i + 1..] == value;
    assert TrimSafe(name) && TrimSafe(value) by {
      assert !IsTrimChar(name[0]) && !IsTrimChar(value[0]);
    }
    assert Trim(name) == name && Trim(value) == value;
    NameValueAtSeparator(line, sep, i);
  }

  // ---------------------------------------------------------------------------
  // Directive classification
  // ---------------------------------------------------------------------------

  /** `is_line_if_statement` as written: the line is an `IF` line when the LAST
      occurrence of `definer + "IF "` is at the very start (it uses `rfind`);
      otherwise any occurrence of `definer + "IF"` is an error. */
  function IsLineIfStatement(line: string, definer: string): (r: Result<bool>)
    ensures r == Success(true) <==>
              OccursAt(line, definer + IfStatement + " ", 0) &&
              forall k :: 0 < k ==> !OccursAt(line, definer + IfStatement + " ", k)
    ensures r == Success(false) <==> !Contains(line, definer + IfStatement)
    ensures r.Failure? ==> r == Failure(IfNotAtStart)
  {
    var token := definer + IfStatement;
    OccursExtended(line, token, " ");
    if LastIndexOf(line, token + " ") == Some(0) then Success(true)
    else if IndexOf(line, token).Some? then Failure(IfNotAtStart)
    else Success(false)
  }

  /** An occurrence of `token + tail` is an occurrence of `token`. */
  lemma OccursExtended(line: string, token: string, tail: string)
    ensures OccursAt(line, token + tail, 0) ==> OccursAt(line, token, 0)
  {
    if OccursAt(line, token + tail, 0) {
      assert line[0..|token|] == (token + tail)[..|token|];
    }
  }

  /** `is_line_endif_statement`: the line must be exactly `definer + "ENDIF"`;
      containing that token with anything else around it is an error. */
  function IsLineEndifStatement(line: string, definer: string): (r: Result<bool>)
    ensures r == Success(true) <==> line == definer + EndifStatement
    ensures r == Success(false) <==> !Contains(line, definer + EndifStatement)
    ensures r.Failure? ==> r == Failure(EndifWithExtraText)
  {
    var token := definer + EndifStatement;
    if line == token then
      assert OccursAt(line, token, 0);
      Success(true)
    else if IndexOf(line, token).Some? then Failure(EndifWithExtraText)
    else Success(false)
  }

  // ---------------------------------------------------------------------------
  // Operators
  // ---------------------------------------------------------------------------

  /** `evaluate_logical_operator`. */
  function EvaluateLogicalOperator(left: bool, op: string, right: bool): (r: Result<bool>)
    ensures op == LogicalAnd ==> r == Success(left && right)
    ensures op == LogicalOr ==> r == Success(left || right)
    ensures r.Success? <==> op == LogicalAnd || op == LogicalOr
    ensures r.Failure? ==> r == Failure(UnknownLogicalOperator(op))
  {
    if op == LogicalAnd then Success(left && right)
    else if op == LogicalOr then Success(left || right)
    else Failure(UnknownLogicalOperator(op))
  }

  /** The case-insensitive branch of `IS`: reads `|left|` characters of `right`. */
  predicate CaseInsensitiveEqual(left: string, right: string)
    requires |left| <= |right|
  {
    forall k :: 0 <= k < |left| ==> ToLower(left[k]) == ToLower(right[k])
  }

  /** `evaluate_conditional_operator` as written: the flag named `case_sensitive`
      selects the case-INSENSITIVE comparison when true, and exact equality when
      false. `IS_NOT` is the negation of `IS` under the same flag. */
  function EvaluateConditionalOperator(left: string, op: string, right: string, caseSensitive: bool): (r: Result<bool>)
    ensures op == ConditionalIs && !caseSensitive ==> r == Success(left == right)
    ensures op == ConditionalIsNot && !caseSensitive ==> r == Success(left != right)
    ensures op == ConditionalIs && caseSensitive && |left| <= |right| ==>
              r == Success(CaseInsensitiveEqual(left, right))
    ensures op == ConditionalIsNot && caseSensitive && |left| <= |right| ==>
              r == Success(!CaseInsensitiveEqual(left, right))
    ensures (op == ConditionalIs || op == ConditionalIsNot) && caseSensitive && |left| > |right| ==>
              r == Failure(UndefinedBehaviour(CompareBeyondEnd))
    ensures op != ConditionalIs && op != ConditionalIsNot ==>
              r == Failure(UnknownConditionalOperator(op))
  {
    if op == ConditionalIs then
      if caseSensitive then
        if |left| <= |right| then Success(CompareCaseInsensitive(left, right))
        else Failure(UndefinedBehaviour(CompareBeyondEnd))
      else Success(left == right)
    else if op == ConditionalIsNot then
      if caseSensitive then
        if |left| <= |right| then Success(!CompareCaseInsensitive(left, right))
        else Failure(UndefinedBehaviour(CompareBeyondEnd))
      else Success(left != right)
    else Failure(UnknownConditionalOperator(op))
  }

  // ---------------------------------------------------------------------------
  // IF lines
  // ---------------------------------------------------------------------------

  /** The words joined back with single spaces. */
  function JoinSpaces(words: seq<string>): string {
    if words == [] then ""
    else if |words| == 1 then words[0]
    else words[0] + " " + JoinSpaces(words[1..])
  }

  /** `s` without one trailing space, if it ends in one. */
  function WithoutTrailingSpace(s: string): string {
    if |s| > 0 && s[|s| - 1] == ' ' then s[..|s| - 1] else s
  }

  /** The words `std::getline(stream, word, ' ')` produces: consecutive spaces give
      empty words, and a single trailing space does not produce a last empty word. */
  function SplitOnSpaces(s: string): (words: seq<string>)
    ensures forall w :: w in words ==> ' ' !in w
    ensures |words| > 0 <==> |s| > 0
    ensures JoinSpaces(words) == WithoutTrailingSpace(s)
    decreases |s|
  {
    match IndexOf(s, " ")
    case None =>
      NoSpaceBefore(s, |s|);
      if s == [] then [] else [s]
    case Some(i) =>
      NoSpaceBefore(s, i);
      assert s[i] == ' ' by { assert s[i..i + 1] == " "; }
      var words := SplitOnSpaces(s[i + 1..]);
      JoinStep(s, i, words);
      [s[..i]] + words
  }

  lemma NoSpaceBefore(s: string, n: nat)
    requires n <= |s| && forall j :: 0 <= j < n ==> !OccursAt(s, " ", j)
    ensures ' ' !in s[..n]
  {
    forall j | 0 <= j < n ensures s[j] != ' ' {
      assert !OccursAt(s, " ", j);
      assert s[j..j + 1] == [s[j]];
    }
  }

  /** Joining the first word back onto the words of the rest restores the line. */
  lemma JoinStep(s: string, i: nat, words: seq<string>)
    requires i < |s| && s[i] == ' '
    requires |words| > 0 <==> |s[i + 1..]| > 0
    requires JoinSpaces(words) == WithoutTrailingSpace(s[i + 1..])
    ensures JoinSpaces([s[..i]] + words) == WithoutTrailingSpace(s)
  {
    var head, rest := s[..i], s[i + 1..];
    assert s == head + " " + rest;
    assert ([head] + words)[1..] == words;
    if rest != [] {
      assert rest[|rest| - 1] == s[|s| - 1];
      assert s[..|s| - 1] == head + " " + rest[..|rest| - 1];
    }
  }

  /** Round trip: words without spaces, the last one non-empty, joined with single
      spaces and split again are the same words. */
  lemma {:induction false} SplitJoinRoundTrip(words: seq<string>)
    requires forall k :: 0 <= k < |words| ==> ' ' !in words[k]
    requires words == [] || words[|words| - 1] != []
    ensures SplitOnSpaces(JoinSpaces(words)) == words
  {
    if |words| == 1 {
      var w := words[0];
      NoSpaceIndex(w);
    } else if |words| > 1 {
      var w, rest := words[0], words[1..];
      var s := JoinSpaces(words);
      assert s == w + " " + JoinSpaces(rest);
      FirstSpaceAfterWord(w, JoinSpaces(rest));
      assert s[|w| + 1..] == JoinSpaces(rest);
      assert s[..|w|] == w;
      SplitJoinRoundTrip(rest);
      assert words == [w] + rest;
    }
  }

  lemma NoSpaceIndex(w: string)
    requires ' ' !in w
    ensures IndexOf(w, " ") == None
  {
    forall j | 0 <= j < |w| ensures !OccursAt(w, " ", j) {
      assert w[j..j + 1] == [w[j]];
    }
  }

  /** In `w + " " + t`, with no space in `w`, the first space follows `w`. */
  lemma FirstSpaceAfterWord(w: string, t: string)
    requires ' ' !in w
    ensures IndexOf(w + " " + t, " ") == Some(|w|)
  {
    var s := w + " " + t;
    var r := IndexOf(s, " ");
    assert s[|w|..|w| + 1] == " ";
    assert OccursAt(s, " ", |w|);
    assert r.Some?;
    assert s[r.value..r.value + 1] == " ";
    assert s[r.value] == ' ';
  }

  /** Word `k` (0..3) of subcondition `i`. */
  function Word(words: seq<string>, i: nat, k: nat): string
    requires k < WordsInSubcondition && WordsInSubcondition * i + k < |words|
  {
    words[WordsInSubcondition * i + k]
  }

  /** Subcondition `i` (`LEFT OP RIGHT` = words 1, 2, 3 of its group). */
  function Subcondition(words: seq<string>, i: nat, caseSensitive: bool): Result<bool>
    requires WordsInSubcondition * i + 3 < |words|
  {
    EvaluateConditionalOperator(Word(words, i, 1), Word(words, i, 2), Word(words, i, 3), caseSensitive)
  }

  /** The left fold over the first `n` subconditions: the first gives the running
      value, every later one is combined with it by the operator that opens its
      group. Each comparator is evaluated before its group's logical operator. */
  function EvaluateChain(words: seq<string>, n: nat, caseSensitive: bool): (r: Result<bool>)
    requires 1 <= n && WordsInSubcondition * n <= |words|
    ensures r.Success? <==>
              && (forall i :: 0 <= i < n ==> Subcondition(words, i, caseSensitive).Success?)
              && (forall i :: 1 <= i < n ==> Word(words, i, 0) in {LogicalAnd, LogicalOr})
    decreases n
  {
    if n == 1 then Subcondition(words, 0, caseSensitive)
    else
      var acc :- EvaluateChain(words, n - 1, caseSensitive);
      var current :- Subcondition(words, n - 1, caseSensitive);
      EvaluateLogicalOperator(acc, Word(words, n - 1, 0), current)
  }

  /** `evaluate_if_statement_line`: `true` for a line that is not an `IF` line,
      otherwise the chained value of its subconditions. */
  function EvaluateIfStatementLine(line: string, definer: string, caseSensitive: bool): (r: Result<bool>)
    ensures IsLineIfStatement(line, definer) == Success(false) ==> r == Success(true)
    ensures IsLineIfStatement(line, definer).Failure? ==> r == Failure(IfNotAtStart)
    ensures IsLineIfStatement(line, definer) == Success(true) ==>
              var words := SplitOnSpaces(line);
              && |words| > 0
              && (|words| % WordsInSubcondition != 0 ==> r == Failure(BadWordCount(|words|)))
              && (r.Success? ==>
                    && |words| % WordsInSubcondition == 0
                    && forall i :: 0 <= i < |words| / WordsInSubcondition ==>
                         Subcondition(words, i, caseSensitive).Success?)
  {
    var isIf :- IsLineIfStatement(line, definer);
    if !isIf then Success(true)
    else
      var words := SplitOnSpaces(line);
      if |words| == 0 then Success(true)
      else if |words| % WordsInSubcondition != 0 then Failure(BadWordCount(|words|))
      else EvaluateChain(words, |words| / WordsInSubcondition, caseSensitive)
  }

  /** The loop of `evaluate_if_statement_line` over the subconditions, as the C++
      code writes it; it computes the fold above. */
  method EvaluateIfStatementLoop(words: seq<string>, caseSensitive: bool) returns (r: Result<bool>)
    requires |words| > 0 && |words| % WordsInSubcondition == 0
    ensures r == EvaluateChain(words, |words| / WordsInSubcondition, caseSensitive)
  {
    var count := |words| / WordsInSubcondition;
    var final := false;
    var i := 0;
    while i < count
      invariant 0 <= i <= count
      invariant i > 0 ==> EvaluateChain(words, i, caseSensitive) == Success(final)
    {
      var current := Subcondition(words, i, caseSensitive);
      if current.Failure? {
        assert i > 0 ==> EvaluateChain(words, i + 1, caseSensitive) == Failure(current.error);
        r := Failure(current.error);
        FailureStops(words, i + 1, count, caseSensitive);
        return;
      }
      if i == 0 {
        final := current.value;
      } else {
        var combined := EvaluateLogicalOperator(final, Word(words, i, 0), current.value);
        if combined.Failure? {
          r := Failure(combined.error);
          FailureStops(words, i + 1, count, caseSensitive);
          return;
        }
        final := combined.value;
      }
      i := i + 1;
    }
    r := Success(final);
  }

  /** Once the fold fails at some prefix, it fails the same way on every longer one. */
  lemma {:induction false} FailureStops(words: seq<string>, m: nat, n: nat, caseSensitive: bool)
    requires 1 <= m <= n && WordsInSubcondition * n <= |words|
    requires EvaluateChain(words, m, caseSensitive).Failure?
    ensures EvaluateChain(words, n, caseSensitive) == EvaluateChain(words, m, caseSensitive)
    decreases n - m
  {
    if m < n {
      FailureStops(words, m, n - 1, caseSensitive);
    }
  }

  /** A chain of `AND`s with known comparators is true iff every subcondition is. */
  lemma {:induction false} AllAndChain(words: seq<string>, n: nat, caseSensitive: bool)
    requires 1 <= n && WordsInSubcondition * n <= |words|
    requires forall i :: 0 <= i < n ==> Subcondition(words, i, caseSensitive).Success?
    requires forall i :: 1 <= i < n ==> Word(words, i, 0) == LogicalAnd
    ensures EvaluateChain(words, n, caseSensitive) ==
              Success(forall i :: 0 <= i < n ==> Subcondition(words, i, caseSensitive).value)
  {
    if n > 1 {
      AllAndChain(words, n - 1, caseSensitive);
    }
  }

  /** A chain of `OR`s with known comparators is true iff some subcondition is. */
  lemma {:induction false} AllOrChain(words: seq<string>, n: nat, caseSensitive: bool)
    requires 1 <= n && WordsInSubcondition * n <= |words|
    requires forall i :: 0 <= i < n ==> Subcondition(words, i, caseSensitive).Success?
    requires forall i :: 1 <= i < n ==> Word(words, i, 0) == LogicalOr
    ensures EvaluateChain(words, n, caseSensitive) ==
              Success(exists i :: 0 <= i < n && Subcondition(words, i, caseSensitive).value)
  {
    if n > 1 {
      AllOrChain(words, n - 1, caseSensitive);
    }
  }

  /** The first word (`definer + "IF"`) is never inspected by the fold. */
  lemma {:induction false} FirstWordIgnored(words: seq<string>, n: nat, caseSensitive: bool, other: string)
    requires 1 <= n && WordsInSubcondition * n <= |words|
    ensures EvaluateChain(words[0 := other], n, caseSensitive) == EvaluateChain(words, n, caseSensitive)
  {
    var alt := words[0 := other];
    assert forall i, k | 0 <= k < WordsInSubcondition && WordsInSubcondition * i + k < |words| &&
                         (i > 0 || k > 0) :: Word(alt, i, k) == Word(words, i, k);
    if n > 1 {
      FirstWordIgnored(words, n - 1, caseSensitive, other);
    }
  }

  /** Without case sensitivity no comparison reads past the end of a string, so
      the fold never has undefined behaviour. */
  lemma {:induction false} ChainDefinedWhenInsensitive(words: seq<string>, n: nat)
    requires 1 <= n && WordsInSubcondition * n <= |words|
    ensures EvaluateChain(words, n, false).Failure? ==> !EvaluateChain(words, n, false).error.IsUndefined()
    decreases n
  {
    if n > 1 {
      ChainDefinedWhenInsensitive(words, n - 1);
    }
  }

  /** Without case sensitivity an IF line fails only with a reported error. */
  lemma IfLineDefinedWhenInsensitive(line: string, definer: string)
    ensures EvaluateIfStatementLine(line, definer, false).Failure? ==>
              !EvaluateIfStatementLine(line, definer, false).error.IsUndefined()
  {
    var words := SplitOnSpaces(line);
    if IsLineIfStatement(line, definer) == Success(true) && |words| > 0 && |words| % WordsInSubcondition == 0 {
      ChainDefinedWhenInsensitive(words, |words| / WordsInSubcondition);
    }
  }

  /** An IF line with a single subcondition, `definer+"IF" LEFT OP RIGHT`, has the
      value of its comparison (or fails as the comparison does), provided the
      words hold no space, the right operand is not empty, and the definer's first
      character occurs nowhere else on the line. */
  lemma SingleComparisonLine(definer: string, left: string, op: string, right: string, caseSensitive: bool)
    requires definer != [] && ' ' !in definer && ' ' !in left && ' ' !in op && ' ' !in right && right != []
    requires var line := JoinSpaces([definer + IfStatement, left, op, right]); definer[0] !in line[1..]
    ensures EvaluateIfStatementLine(JoinSpaces([definer + IfStatement, left, op, right]), definer, caseSensitive) ==
              EvaluateConditionalOperator(left, op, right, caseSensitive)
  {
    var words := [definer + IfStatement, left, op, right];
    var line := JoinSpaces(words);
    var token := definer + IfStatement + " ";
    assert line == definer + IfStatement + " " + JoinSpaces(words[1..]);
    assert line[..|token|] == token;
    assert OccursAt(line, token, 0);
    forall k | 0 < k ensures !OccursAt(line, token, k) {
      if k + |token| <= |line| {
        assert line[1..][k - 1] == line[k];
        assert line[k..k + |token|][0] != token[0];
      }
    }
    assert IsLineIfStatement(line, definer) == Success(true);
    SplitJoinRoundTrip(words);
    assert |words| / WordsInSubcondition == 1;
  }
}
