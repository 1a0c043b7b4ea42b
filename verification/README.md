# config-generator core in Dafny

This project models the core of `config-generator`, a small C++ tool that turns
templates into configuration files. Environment files of `NAME=value` lines are
folded into a dictionary, and each template is rendered line by line:

- `%{NAME}` references are substituted from the dictionary;
- `%IF LEFT IS|IS_NOT RIGHT (AND|OR ...)*` and `%ENDIF` directives drive a stack of
  IF outcomes;
- a plain line is written only when the stack is empty or its top is true.

The command-line record, `set_argument` and `validate_params` are modelled too.

Modules, one per source unit:

| module | file | models |
|---|---|---|
| `Results` | `results.dfy` | `Option`, `Result` and the error kinds; every `std::runtime_error` becomes an `Error` value |
| `StringUtils` | `string_utils.dfy` | `src/string_utils.h` |
| `ParsingUtils` | `parsing_utils.dfy` | `src/parsing_utils.h` without `substitute_vars` |
| `Substitution` | `substitution.dfy` | `substitute_vars` from `src/parsing_utils.h` |
| `ConfigGenerator` | `config_generator.dfy` | `read_env_file`, `read_env_files`, `generate_file` and `generate_files` from `src/config_generator.cpp` |
| `GeneratorParameters` | `generator_parameters.dfy` | `set_argument` and `validate_params` from `src/generator_parameters.cpp`, with the defaults of `src/generator_parameters.h` |

The model follows the code as written, quirks included:

- **`right_trim` loses a character.** When a string ends in whitespace, `right_trim`
  returns `substr(0, i)`, where `i` is the index of the last non-blank character.
  That character is dropped as well. So `"ab  "` right-trims to `"a"`, and `"a "`
  trims to the empty string. A template or environment line such as `"a "` is
  therefore treated as blank.
- **`right_trim` on an all-blank string.** On a non-empty string made only of
  whitespace, the unsigned index of `right_trim` wraps below zero. Its behaviour is
  undefined.
- **`compare_case_insensitive` reads only part of the second string.** It compares
  only the first `|a|` characters of `b`, so a case-insensitive prefix compares
  equal. When `b` is shorter it reads past the end.
- **The `case_sensitive` flag is inverted.** In `evaluate_conditional_operator`,
  `true` selects the case-INSENSITIVE comparison.
- **`is_line_if_statement` uses `rfind`.** A line such as `%IF A IS %IF B` is not an
  IF line: the last `"%IF "` is not at the start, so the line is an error.
- **IF is looked for anywhere, and first.** A definer for which `definer + "IF"`
  occurs inside `definer + "ENDIF"` makes every ENDIF line an error. The definer
  "D" is an example: `DENDIF` contains `DIF`.
- **Only the top of the stack gates a line.** An inner true IF inside an outer false
  IF writes its lines.
- **`line_count` only counts successes.** In both loops, `line_count` advances only
  on a line that was processed successfully. Error messages therefore carry that
  count, not the physical line number.
- **`substitute_vars` searches and replaces in different strings.** It finds each
  reference in the original line, after the previous match. It then replaces the
  first occurrence of that reference's text in the line built so far.
  `Substitution.SubstituteIsExpansion` proves when this equals the intended in-place
  expansion (`Expand`). The conditions are:
  - every value is non-empty;
  - no value contains a `{`;
  - no value contains any character of the definer.

  A value that is only the definer can break it. For example, with `A = "%"` and
  `X = "v"`, the line `%{A}{X}%{X}` becomes `v%{X}`.

Undefined behaviour is never given an invented outcome:

- The leaf string functions require the condition that keeps them defined.
  `RightTrim` and `Trim` require `TrimSafe`. `CompareCaseInsensitive` requires
  `|a| <= |b|`. `ValidateParams` requires an output in directory mode.
- Functions that reach a leaf through computed data return
  `Failure(UndefinedBehaviour(...))` instead. The lemmas whose names end in
  `Defined` give input conditions under which that never happens.

The regular expression `definer\{(.*?)\}` is replaced by an explicit scanner.
The name runs from the opening `definer{` to the first following `}`, and cannot
contain a line terminator, since ECMAScript `.` does not match one. The definer must
contain no regular-expression metacharacter (`ValidDefiner`), because the code
splices it into the pattern unescaped.

Three details of the code are easy to miss:

- Error messages carry `line_count`, not the position in the file. The count
  skips blank lines and, in environment files, malformed lines.
- An empty variable value is an error (`EmptyValue`): `NAME=` is reported as a
  malformed environment line.
- IF lines are split with `std::getline(stream, word, ' ')`, which drops a final
  empty word. That matters when the trimmed line ends in a space. Because
  `right_trim` loses the last non-blank character, this does happen:
  `"%IF A IS B "` trims to `"%IF A IS "`.

## Model

| member | source | states |
|---|---|---|
| StringUtils.LeftTrim | src/string_utils.h:18-34 | the result is no longer than the input and does not start with a trimming character |
| StringUtils.LeftTrimIsSuffix | src/string_utils.h:29-33 | what `left_trim` keeps is a suffix of its argument |
| StringUtils.LeftTrimDropsBlanks | src/string_utils.h:23-27 | every dropped character is a trimming character; an all-blank string becomes empty |
| StringUtils.LastNonTrim | src/string_utils.h:43-48 | the loop of `right_trim` stops at an index in range holding a non-trimming character |
| StringUtils.LastNonTrimIsLast | src/string_utils.h:44-48 | every character after that index is a trimming character, so it is the last non-blank one |
| StringUtils.RightTrim | src/string_utils.h:39-55 | identity on the empty string or when the last character is not blank; otherwise a proper prefix that is at least two characters shorter and ends just before a non-blank character, which is lost |
| StringUtils.RightTrimDropsBlanks | src/string_utils.h:44-52 | after a cut, everything beyond the lost character is whitespace |
| StringUtils.Trim | src/string_utils.h:60-63 | the result starts with a non-blank character; it is non-empty only if the input has a non-blank character; an input ending in a non-blank character keeps its tail; an input with non-blank ends is unchanged |
| StringUtils.TrimIsSlice | src/string_utils.h:60-63 | the trimmed string is the slice of the input that ends where the right trim ends |
| StringUtils.CountChar | src/string_utils.h:71-83 | the count equals the multiplicity of the character in the string |
| StringUtils.IndexOf | src/string_utils.h:90-91 | `find` reports a position iff the pattern occurs, and that position is the first occurrence |
| StringUtils.LastIndexOf | src/parsing_utils.h:84 | `rfind` reports a position iff the pattern occurs, and no occurrence lies after it |
| StringUtils.ReplaceSpec | src/string_utils.h:88-97 | without an occurrence the string is unchanged; otherwise only the first occurrence is replaced, prefix and suffix are kept, and the length changes by the length of the replacement less that of the search string |
| StringUtils.CompareCaseInsensitive | src/string_utils.h:102-107 | when the second string is at least as long, true iff the first string agrees with the start of the second after ASCII lower-casing |
| ParsingUtils.GetNameValuePair | src/parsing_utils.h:29-72 | no separator and several separators fail with those errors; a success gives a non-empty name and value that contain no separator and start with non-blank characters |
| ParsingUtils.SplitAt | src/parsing_utils.h:46-71 | the name and the value are the trimmed sides of the separator; an empty name is reported before an empty value; an undefined trim is reported as such |
| ParsingUtils.SeparatorIndex | src/parsing_utils.h:49-55 | with a single separator, the loop stops at it and no other separator lies on either side |
| ParsingUtils.NameValueAtSeparator | src/parsing_utils.h:46-55 | for any index holding the only separator, the pair is the split at that index |
| ParsingUtils.NameValueRoundTrip | src/parsing_utils.h:29-72 | parsing `name + sep + value` for a well-trimmed name and value without the separator gives the pair back |
| ParsingUtils.NameValueDefined | src/parsing_utils.h:49-55 | a line with non-blank ends never reaches the undefined trim |
| ParsingUtils.TrimmedAvoids | src/parsing_utils.h:51-52 | trimming does not introduce a character |
| ParsingUtils.IsLineIfStatement | src/parsing_utils.h:80-95 | true iff `definer+"IF "` occurs at 0 and nowhere later; false iff `definer+"IF"` does not occur; every other line is an `IfNotAtStart` error |
| ParsingUtils.IsLineEndifStatement | src/parsing_utils.h:103-119 | true iff the line equals `definer+"ENDIF"`; false iff the token does not occur; otherwise an `EndifWithExtraText` error |
| ParsingUtils.EvaluateLogicalOperator | src/parsing_utils.h:125-136 | "AND" is conjunction, "OR" is disjunction, and any other operator is an error |
| ParsingUtils.EvaluateConditionalOperator | src/parsing_utils.h:142-165 | `IS` is exact equality when the flag is false and the case-insensitive comparison when it is true; `IS_NOT` is its negation; reading past the right operand is undefined; other comparators fail |
| ParsingUtils.SplitOnSpaces | src/parsing_utils.h:183-188 | the words contain no space, there are words iff the line is non-empty, and joining them with single spaces gives back the line less one trailing space |
| ParsingUtils.SplitJoinRoundTrip | src/parsing_utils.h:183-188 | splitting words joined by single spaces gives the same words back, provided they contain no space and the last is non-empty |
| ParsingUtils.EvaluateChain | src/parsing_utils.h:208-244 | the left fold succeeds iff every comparator is known and every group after the first opens with AND or OR |
| ParsingUtils.EvaluateIfStatementLine | src/parsing_utils.h:173-245 | a non-IF line is true; a misplaced IF token is an error; an IF line's word count must be a multiple of four; success means every subcondition evaluated |
| ParsingUtils.EvaluateIfStatementLoop | src/parsing_utils.h:208-244 | the index loop of the C++ code computes the left fold |
| ParsingUtils.FailureStops | src/parsing_utils.h:227-240 | the first failing subcondition or operator decides the result of the whole line |
| ParsingUtils.AllAndChain | src/parsing_utils.h:211-244 | an all-AND chain is true iff every subcondition is true |
| ParsingUtils.AllOrChain | src/parsing_utils.h:211-244 | an all-OR chain is true iff some subcondition is true |
| ParsingUtils.FirstWordIgnored | src/parsing_utils.h:216-224 | word 0 (the `IF` token) is never read by the fold |
| ParsingUtils.SingleComparisonLine | src/parsing_utils.h:173-244 | an IF line `definer+"IF" LEFT OP RIGHT` evaluates to its comparison, or fails as it does, when the words hold no space, RIGHT is non-empty and the definer's first character occurs nowhere else on the line |
| ParsingUtils.ChainDefinedWhenInsensitive | src/parsing_utils.h:227-228 | with the flag false, the fold never has undefined behaviour |
| ParsingUtils.IfLineDefinedWhenInsensitive | src/parsing_utils.h:173-245 | with the flag false, an IF line fails only with a reported error |
| Substitution.ScanName | src/parsing_utils.h:260 | the lazy group stops at the first `}` or line terminator after the opening |
| Substitution.ReferenceEnd | src/parsing_utils.h:260 | gives the closing brace iff a reference starts at that index |
| Substitution.FindReference | src/parsing_utils.h:265 | `regex_search` finds the leftmost reference, and none when there is none |
| Substitution.SubstitutionStep | src/parsing_utils.h:265-289 | one round ends the loop iff no reference is left, consumes input when it replaces, and fails only on an empty or undefined name |
| Substitution.SubstituteFrom | src/parsing_utils.h:265-291 | the loop fails only with `EmptyVariable` or an undefined non-empty name, and keeps a non-blank line non-blank |
| Substitution.SubstituteVars | src/parsing_utils.h:254-292 | a line without references is returned unchanged; failures are an empty or an undefined name; for every dictionary it fails exactly when the intended expansion `Expand` fails, with the same error, so a reference to an empty or undefined name always makes the line fail |
| Substitution.SubstituteFailsAsExpand | src/parsing_utils.h:254-292 | for every dictionary and any line built so far, the search loop fails iff the intended expansion of the unsearched text fails, and with the same error |
| Substitution.BraceFreeUnchanged | src/parsing_utils.h:265-291 | a line without `{` is returned as it is |
| Substitution.SubstituteIsExpansion | src/parsing_utils.h:254-292 | with a safe definer and values that are non-empty and contain no `{` or definer character, the result is every reference replaced in place by its value, leftmost first |
| Substitution.ReplaceKeepsContent | src/string_utils.h:88-97 | splicing a non-blank value into a non-blank line keeps it non-blank |
| ConfigGenerator.EnvLineStep | src/config_generator.cpp:35-64 | an undefined trim is reported as such; a blank line changes nothing; a line that makes an assignment always succeeds and appends an override notice with the old and new values exactly when the name is already defined, and no other notice; a malformed line is reported with its error and `line_count`, and changes nothing else; the only failure is undefined behaviour |
| ConfigGenerator.EnvLineEffect | src/config_generator.cpp:37-63 | a line changes the dictionary exactly by the assignment it makes, a line making one always succeeds, and only it advances `line_count` |
| ConfigGenerator.ReadEnvLines | src/config_generator.cpp:33-64 | notices are only appended, and the loop fails only on undefined behaviour |
| ConfigGenerator.ReadEnvFile | src/config_generator.cpp:24-67 | a missing file adds one notice and nothing else |
| ConfigGenerator.ReadEnvFiles | src/config_generator.cpp:72-77 | the files are read in order, and the loop fails only on undefined behaviour |
| ConfigGenerator.ReadEnvLinesIsOverlay | src/config_generator.cpp:35-64 | reading a file lays its assignments over the dictionary, in order |
| ConfigGenerator.ReadEnvFilesIsOverlay | src/config_generator.cpp:72-77 | reading all files lays their assignments over the dictionary in argument order |
| ConfigGenerator.OverlayLastWins | src/config_generator.cpp:61 | the last assignment to a name gives its final value |
| ConfigGenerator.OverlayUntouched | src/config_generator.cpp:61 | a name no line assigns keeps its value, or stays absent |
| ConfigGenerator.EnvLineDefined | src/config_generator.cpp:37-45 | a line that does not end in whitespace is processed without undefined behaviour |
| ConfigGenerator.EnvLinesDefined | src/config_generator.cpp:35-64 | a file whose lines do not end in whitespace is read without undefined behaviour |
| ConfigGenerator.EnvLinesKeepContent | src/config_generator.cpp:45-61 | every value stored has a non-blank character |
| ConfigGenerator.Classify | src/config_generator.cpp:127-150 | a line is an IF line, an ENDIF line or a plain line exactly as the two predicates decide, IF first |
| ConfigGenerator.DefaultEndifClassified | src/config_generator.cpp:127-138 | with the default definer, `%ENDIF` is classified as an ENDIF line |
| ConfigGenerator.EndifTakenForIf | src/config_generator.cpp:127-138 | with the definer "D", the line `DENDIF` fails as a misplaced IF, because `DIF` occurs inside it |
| ConfigGenerator.EndifClassification | src/config_generator.cpp:127-138 | for every definer, `definer + "ENDIF"` is an ENDIF line iff `definer + "IF"` does not occur inside it, and a misplaced-IF error otherwise |
| ConfigGenerator.ProcessLine | src/config_generator.cpp:116-167 | substitution errors propagate; an IF line pushes its evaluation, or fails with the evaluation's error; an ENDIF fails on an empty stack and otherwise pops; a plain line keeps the stack and writes the substituted, untrimmed line iff the stack is empty or its top is true |
| ConfigGenerator.ProcessLineStack | src/config_generator.cpp:127-167 | by the kind of the substituted, trimmed line: an IF line pushes exactly one outcome, an ENDIF line pops exactly one, a plain line leaves the stack alone; a line whose kind cannot be found fails with that error |
| ConfigGenerator.RenderLine | src/config_generator.cpp:105-176 | a blank line writes one newline and is not substituted; an error inside the `try` block is reported with the file and `line_count`; a success advances `line_count` |
| ConfigGenerator.RenderLines | src/config_generator.cpp:105-177 | the output only grows |
| ConfigGenerator.GenerateFile | src/config_generator.cpp:83-183 | a line's error is the template's error; when every line succeeds but an IF is left open the result is the missing-ENDIF error; otherwise the text is the rendered output |
| ConfigGenerator.RenderLinesDepth | src/config_generator.cpp:105-177 | after a successful run the stack has grown by the number of non-blank IF lines minus the number of ENDIF lines |
| ConfigGenerator.GenerateFileBalanced | src/config_generator.cpp:105-183 | a generated template has as many IF lines as ENDIF lines; when every line succeeds and they differ, the result is the missing-ENDIF error |
| ConfigGenerator.RenderLinesAppend | src/config_generator.cpp:105-177 | the loop over two runs of lines is the loop over the first followed by the loop over the second, and stops at the first failure |
| ConfigGenerator.EndifLineRendered | src/config_generator.cpp:138-148 | when the definer's ENDIF line is recognised, it pops the innermost outcome, or is an unexpected ENDIF reported at `line_count` when no IF is open |
| ConfigGenerator.IfBlockRendered | src/config_generator.cpp:105-170 | an IF line, inert lines and an ENDIF line restore the stack, and render to the lines copied when the IF holds and to one newline per blank line when it fails, under any enclosing IF |
| ConfigGenerator.IfBlockGenerated | src/config_generator.cpp:105-183 | a template that is one such IF block is generated as the copied lines when the IF holds, and as its blank lines otherwise |
| ConfigGenerator.NestedTrueInsideFalse | src/config_generator.cpp:150-166 | a true IF block nested in a false one is written, because only the top of the stack is consulted |
| ConfigGenerator.GenerateFiles | src/config_generator.cpp:204-216 | template `i` goes to output `i` when there is one; a missing template is skipped; a failure is reported and the loop goes on |
| ConfigGenerator.RenderLinesCount | src/config_generator.cpp:105-170 | after a successful run, `line_count` has advanced once per non-blank line |
| ConfigGenerator.RenderLinesFailureLine | src/config_generator.cpp:169-176 | a failed render is reported at some line with the count of non-blank lines before it |
| ConfigGenerator.ProcessLineDefined | src/config_generator.cpp:116-167 | with the flag false and non-blank values, a line fails only with a reported error |
| ConfigGenerator.RenderLinesDefined | src/config_generator.cpp:105-177 | rendering lines that are not all-blank, with non-blank values and the flag false, has no undefined behaviour |
| ConfigGenerator.GenerateFileDefined | src/config_generator.cpp:105-183 | the same for a whole template |
| ConfigGenerator.InertLine | src/config_generator.cpp:121-166 | a non-blank line without `{` or the definer's first character is a plain line, written untouched when the stack allows |
| ConfigGenerator.InertCons | src/config_generator.cpp:105-170 | the first inert line adds its text, or only a newline if blank or under a false IF, and the loop continues with the rest |
| ConfigGenerator.RenderInertLines | src/config_generator.cpp:105-177 | inert lines leave the stack unchanged; they are copied one by one when the innermost IF holds or none is open, and only their blank lines leave a newline when it fails |
| ConfigGenerator.InertTemplateCopied | src/config_generator.cpp:105-183 | a template of inert lines renders to its lines copied, each blank one reduced to a newline |
| GeneratorParameters.SetArgument | src/generator_parameters.cpp:32-55 | an empty value changes nothing; a known name clears `display_help`; an unknown name only sets it; lists grow at the end; other fields are overwritten; a flag is on unless its value is exactly "false" |
| GeneratorParameters.ListsKeepOrder | src/generator_parameters.cpp:38-45 | repeated `--env`, `--file` and `--out` values are kept in command-line order, empty ones dropped |
| GeneratorParameters.LastValueWins | src/generator_parameters.cpp:42-51 | for `dir`, `definer`, `stdout` and `case-sensitive` the last non-empty value decides |
| GeneratorParameters.HelpFollowsLastArgument | src/generator_parameters.cpp:34-53 | help is shown iff the last argument with a value has an unknown name, or no argument has a value and help was already on |
| GeneratorParameters.DefaultsShowHelp | src/generator_parameters.h:26 | from the defaults, help is shown iff no argument has a value or the last one is unknown |
| GeneratorParameters.UsesDirectoryUntouched | src/generator_parameters.cpp:32-55 | `set_argument` never touches `uses_directory` |
| GeneratorParameters.Report | src/generator_parameters.cpp:62-96 | each check appends its message after those of the earlier checks |
| GeneratorParameters.ValidateParams | src/generator_parameters.cpp:60-107 | `uses_directory` is set iff a directory is given or it was already set; in directory mode the output directory is the first output; no other field changes; messages come in check order |
| GeneratorParameters.ValidateReportsInputs | src/generator_parameters.cpp:64-79 | a missing environment file, neither files nor a directory, and both files and a directory are each reported exactly when they hold |
| GeneratorParameters.ValidateReportsOutputs | src/generator_parameters.cpp:81-96 | no outputs without `--stdout`, and in file mode with outputs a count mismatch, are each reported exactly when they hold |
| GeneratorParameters.ValidateAcceptsWellFormed | src/generator_parameters.cpp:60-107 | `validate_params` throws iff the configuration is not well formed |
| GeneratorParameters.DirectoryModeFromArguments | src/generator_parameters.cpp:68-70 | from the defaults, directory mode is on iff some `--dir` had a non-empty value |

## Left out

- File and stream I/O. `ifstream`, `ofstream` and the `getline` that splits a file into lines are left out. A file is a sequence of lines, or `None` when it cannot be opened.
- Console output. The warnings and errors of `read_env_file` become `Notice` values. The errors of `generate_files` become `Failed` outcomes. Printing to stdout is not modelled.
- `generate_directory`, `generate_directories` and `run`. These cover directory traversal, `mkdir` and the fixed 1024-byte path buffers, which is operating-system plumbing.
- `get_params`, `print_help`, `configure` and `main.cpp`. These are `getopt_long` parsing and printing. A parsed command line is a sequence of name/value pairs (`ApplyArguments`).
- `std::regex`. It is replaced by the scanner described above, and the definer is required to hold no regular-expression metacharacter.
- Locale. `std::tolower` is modelled as ASCII lower-casing (the "C" locale).
- Bytes. A Dafny `char` stands for one byte of a `std::string`. Non-ASCII bytes in a case-insensitive comparison are outside the model: `std::tolower` on a negative plain `char` is undefined, and `ToLower` maps such characters to themselves.
- `std::unordered_map` hashing and iteration order. The dictionary is a Dafny `map`.
- The `chars` parameter of the trim functions. No caller passes one, so the default set is fixed.
- StringUtils.CountChar: the C++ `int` counter is not bounded; an overflow would need more than 2^31 occurrences.
- GeneratorParameters.ValidateParams: it requires an output in directory mode instead of returning an undefined-behaviour error. `output_files[0]` on an empty vector is undefined, and the read happens before the throw.
- ConfigGenerator.GenerateFiles: the output destination is returned as a name; writing the file and the `--stdout` dump are not modelled.
