/** `substitute_vars`: replacement of `definer{name}` references by dictionary
    values. The C++ code searches with the regular expression `definer\{(.*?)\}`;
    here that search is an explicit scanner. The lazy group runs to the first `}`
    and, as `.` in an ECMAScript pattern, cannot cross a line terminator.

    Each reference is looked up in the ORIGINAL line (scanning resumes after the
    previous match), but it is replaced at the first occurrence of its text in the
    line built so far. `Expand` is the replacement the code evidently aims for, and
    `SubstituteIsExpansion` gives the conditions under which the two agree. */
module Substitution {
  import opened Results
  import opened StringUtils

  // ---------------------------------------------------------------------------
  // The pattern
  // ---------------------------------------------------------------------------

  /** Characters with a meaning in an ECMAScript regular expression. */
  predicate IsRegexSpecial(c: char) {
    c in "^$\\.*+?()[]{}|"
  }

  /** The definer is spliced unescaped into the pattern, so it must stand for
      itself there. */
  predicate ValidDefiner(definer: string) {
    forall k :: 0 <= k < |definer| ==> !IsRegexSpecial(definer[k])
  }

  /** The characters `.` does not match in an ECMAScript pattern. */
  predicate IsLineTerminator(c: char) {
    c == '\n' || c == '\r'
  }

  /** A character at which the lazy name group stops: the closing brace it
      looks for, or one it cannot match. */
  predicate EndsName(c: char) {
    c == '}' || IsLineTerminator(c)
  }

  function Opening(definer: string): string {
    definer + "{"
  }

  /** `s[p..q+1]` is a reference: the opening at `p`, the closing brace at `q`, and
      between them a (possibly empty) name without braces' end or line terminator. */
  predicate IsReferenceAt(s: string, definer: string, p: int, q: int) {
    && OccursAt(s, Opening(definer), p)
    && p + |definer| < q < |s|
    && s[q] == '}'
    && forall i :: p + |definer| < i < q ==> !EndsName(s[i])
  }

  /** No reference starts before index `n`. */
  ghost predicate NoReferenceBefore(s: string, definer: string, n: int) {
    forall j, q :: j < n ==> !IsReferenceAt(s, definer, j, q)
  }

  function ScanName(s: string, k: nat): (e: nat)
    requires k <= |s|
    ensures k <= e <= |s|
    ensures forall i :: k <= i < e ==> !EndsName(s[i])
    ensures e < |s| ==> EndsName(s[e])
    decreases |s| - k
  {
    if k == |s| || EndsName(s[k]) then k else ScanName(s, k + 1)
  }

  /** Where the reference starting at `p` closes, if one starts there. */
  function ReferenceEnd(s: string, definer: string, p: nat): (r: Option<nat>)
    ensures r.Some? ==> IsReferenceAt(s, definer, p, r.value)
    ensures r.None? ==> forall q :: !IsReferenceAt(s, definer, p, q)
  {
    if !OccursAt(s, Opening(definer), p) then None
    else
      var e := ScanName(s, p + |definer| + 1);
      if e < |s| && s[e] == '}' then Some(e) else None
  }

  function FindReferenceFrom(s: string, definer: string, from: nat): (r: Option<(nat, nat)>)
    ensures r.Some? ==> from <= r.value.0 && IsReferenceAt(s, definer, r.value.0, r.value.1)
    ensures r.Some? ==> forall j, q :: from <= j < r.value.0 ==> !IsReferenceAt(s, definer, j, q)
    ensures r.None? ==> forall j, q :: from <= j ==> !IsReferenceAt(s, definer, j, q)
    decreases |s| - from
  {
    if from >= |s| then None
    else
      match ReferenceEnd(s, definer, from)
      case Some(q) => Some((from, q))
      case None => FindReferenceFrom(s, definer, from + 1)
  }

  /** `std::regex_search`: the leftmost reference, as (start, closing brace). */
  function FindReference(s: string, definer: string): (r: Option<(nat, nat)>)
    ensures r.Some? ==> IsReferenceAt(s, definer, r.value.0, r.value.1)
    ensures r.Some? ==> NoReferenceBefore(s, definer, r.value.0)
    ensures r.None? ==> NoReferenceBefore(s, definer, |s| + 1)
  {
    FindReferenceFrom(s, definer, 0)
  }

  // ---------------------------------------------------------------------------
  // substitute_vars as written
  // ---------------------------------------------------------------------------

  predicate ValuesHaveContent(dict: map<string, string>) {
    forall name :: name in dict ==> HasNonTrim(dict[name])
  }

  /** What one round of the loop of `substitute_vars` does. */
  datatype Step =
    | Finished                              // no reference left: the loop ends
    | Stopped(error: Error)                 // the loop throws
    | Replaced(rest: string, acc: string)   // one reference replaced

  /** One round of the loop: `rest` is what the search has not consumed yet, `acc`
      the line with the replacements made so far. */
  function SubstitutionStep(rest: string, acc: string, definer: string, dict: map<string, string>): (r: Step)
    ensures r.Finished? <==> FindReference(rest, definer).None?
    ensures r.Replaced? ==> |r.rest| < |rest|
    ensures r.Stopped? ==>
              || r.error == EmptyVariable
              || (r.error.UndefinedVariable? && r.error.name != [] && r.error.name !in dict)
    ensures r.Replaced? && HasNonTrim(acc) && ValuesHaveContent(dict) ==> HasNonTrim(r.acc)
  {
    match FindReference(rest, definer)
    case None => Finished
    case Some((p, q)) =>
      var name := rest[p + |definer| + 1..q];
      if name == [] then Stopped(EmptyVariable)
      else if name !in dict then Stopped(UndefinedVariable(name))
      else
        ReplaceKeepsContent(acc, rest[p..q + 1], dict[name]);
        Replaced(rest[q + 1..], Replace(acc, rest[p..q + 1], dict[name]))
  }

  /** The loop of `substitute_vars`. */
  function SubstituteFrom(rest: string, acc: string, definer: string, dict: map<string, string>): (r: Result<string>)
    ensures r.Failure? ==>
              || r.error == EmptyVariable
              || (r.error.UndefinedVariable? && r.error.name != [] && r.error.name !in dict)
    ensures r.Success? && HasNonTrim(acc) && ValuesHaveContent(dict) ==> HasNonTrim(r.value)
    decreases |rest|
  {
    match SubstitutionStep(rest, acc, definer, dict)
    case Finished => Success(acc)
    case Stopped(e) => Failure(e)
    case Replaced(rest', acc') => SubstituteFrom(rest', acc', definer, dict)
  }

  lemma ReplaceKeepsContent(s: string, search: string, rep: string)
    ensures HasNonTrim(s) && HasNonTrim(rep) ==> HasNonTrim(Replace(s, search, rep))
  {
    if HasNonTrim(s) && HasNonTrim(rep) && Contains(s, search) {
      var p := IndexOf(s, search).value;
      var k :| 0 <= k < |rep| && !IsTrimChar(rep[k]);
      assert Replace(s, search, rep)[p + k] == rep[k];
    }
  }

  /** `substitute_vars`: fails on the first reference (left to right) whose name is
      empty or not in the dictionary; a line without references is unchanged. */
  function SubstituteVars(line: string, definer: string, dict: map<string, string>): (r: Result<string>)
    requires ValidDefiner(definer)
    ensures NoReferenceBefore(line, definer, |line| + 1) ==> r == Success(line)
    ensures r.Failure? ==>
              || r.error == EmptyVariable
              || (r.error.UndefinedVariable? && r.error.name != [] && r.error.name !in dict)
    ensures r.Success? && HasNonTrim(line) && ValuesHaveContent(dict) ==> HasNonTrim(r.value)
    ensures r.Failure? <==> Expand(line, definer, dict).Failure?
    ensures r.Failure? ==> r.error == Expand(line, definer, dict).error
  {
    SubstituteFailsAsExpand(line, line, definer, dict);
    SubstituteFrom(line, line, definer, dict)
  }

  /** Whatever the dictionary holds, the loop fails exactly when the intended
      expansion does, and with the same error: both visit the same references of
      the original line, leftmost first, and stop at the first bad name. */
  lemma {:induction false} SubstituteFailsAsExpand(rest: string, acc: string, definer: string, dict: map<string, string>)
    ensures SubstituteFrom(rest, acc, definer, dict).Failure? <==> Expand(rest, definer, dict).Failure?
    ensures SubstituteFrom(rest, acc, definer, dict).Failure? ==>
              SubstituteFrom(rest, acc, definer, dict).error == Expand(rest, definer, dict).error
    decreases |rest|
  {
    match FindReference(rest, definer)
    case None =>
      NoReferenceUnfold(rest, acc, definer, dict);
    case Some((p, q)) =>
      var name := rest[p + |definer| + 1..q];
      if name != [] && name in dict {
        var acc' := Replace(acc, rest[p..q + 1], dict[name]);
        SubstituteFromUnfold(rest, acc, definer, dict, p, q, name, acc');
        ExpandUnfold(rest, definer, dict, p, q, name);
        SubstituteFailsAsExpand(rest[q + 1..], acc', definer, dict);
      } else {
        BadReferenceUnfold(rest, acc, definer, dict, p, q, name);
      }
  }

  /** A line without an opening brace holds no reference and is returned as it is. */
  lemma BraceFreeUnchanged(line: string, definer: string, dict: map<string, string>)
    requires ValidDefiner(definer) && '{' !in line
    ensures SubstituteVars(line, definer, dict) == Success(line)
  {
    forall j, q ensures !IsReferenceAt(line, definer, j, q) {
      if 0 <= j && j + |definer| < |line| {
        assert line[j..j + |definer| + 1][|definer|] == line[j + |definer|];
        assert line[j + |definer|] in line;
      }
    }
  }

  // ---------------------------------------------------------------------------
  // The evident intent: every reference replaced by its value
  // ---------------------------------------------------------------------------

  /** Each reference, leftmost first, replaced in place by its value; the text
      between references is kept as it is. */
  function Expand(s: string, definer: string, dict: map<string, string>): Result<string>
    decreases |s|
  {
    match FindReference(s, definer)
    case None => Success(s)
    case Some((p, q)) =>
      var name := s[p + |definer| + 1..q];
      if name == [] then Failure(EmptyVariable)
      else if name !in dict then Failure(UndefinedVariable(name))
      else
        var tail :- Expand(s[q + 1..], definer, dict);
        Success(s[..p] + dict[name] + tail)
  }

  function Prepend(prefix: string, r: Result<string>): Result<string> {
    if r.Success? then Success(prefix + r.value) else r
  }

  /** A definer that the scanner reads unambiguously: valid in the pattern and
      without line terminators. */
  predicate SafeDefiner(definer: string) {
    ValidDefiner(definer) && forall k :: 0 <= k < |definer| ==> !IsLineTerminator(definer[k])
  }

  /** Values that cannot combine with the surrounding text into a new reference:
      non-empty, without `{`, and without any character of the definer. */
  predicate InertValues(dict: map<string, string>, definer: string) {
    forall name :: name in dict ==>
      && dict[name] != []
      && '{' !in dict[name]
      && forall k :: 0 <= k < |definer| ==> definer[k] !in dict[name]
  }

  /** With a safe definer and inert values, `substitute_vars` computes the intended
      expansion: every reference replaced by its value, exactly once, in place. */
  lemma {:induction false} SubstituteIsExpansion(line: string, definer: string, dict: map<string, string>)
    requires SafeDefiner(definer) && InertValues(dict, definer)
    ensures SubstituteVars(line, definer, dict) == Expand(line, definer, dict)
  {
    var empty: string := [];
    assert line == empty + line;
    SubstituteFromIsExpansion(empty, line, definer, dict);
    var e := Expand(line, definer, dict);
    assert e.Success? ==> empty + e.value == e.value;
  }

  lemma {:induction false} SubstituteFromIsExpansion(done: string, rest: string, definer: string, dict: map<string, string>)
    requires SafeDefiner(definer) && InertValues(dict, definer)
    requires NoReferenceBefore(done + rest, definer, |done|)
    ensures SubstituteFrom(rest, done + rest, definer, dict) == Prepend(done, Expand(rest, definer, dict))
    decreases |rest|
  {
    var found := FindReference(rest, definer);
    if found.None? {
      NoReferenceUnfold(rest, done + rest, definer, dict);
    } else {
      var p, q := found.value.0, found.value.1;
      var name := rest[p + |definer| + 1..q];
      if name != [] && name in dict {
        var value := dict[name];
        var done' := done + (rest[..p] + value);
        var rest' := rest[q + 1..];
        ReplacementStep(done, rest, definer, p, q, value, done', rest');
        SubstituteFromUnfold(rest, done + rest, definer, dict, p, q, name, done' + rest');
        ExpandUnfold(rest, definer, dict, p, q, name);
        SubstituteFromIsExpansion(done', rest', definer, dict);
        PrependTwice(done, rest[..p] + value, Expand(rest', definer, dict));
      } else {
        BadReferenceUnfold(rest, done + rest, definer, dict, p, q, name);
      }
    }
  }

  lemma {:induction false} NoReferenceUnfold(rest: string, acc: string, definer: string, dict: map<string, string>)
    requires FindReference(rest, definer).None?
    ensures SubstituteFrom(rest, acc, definer, dict) == Success(acc)
    ensures Expand(rest, definer, dict) == Success(rest)
  {
  }

  lemma {:induction false} BadReferenceUnfold(rest: string, acc: string, definer: string, dict: map<string, string>,
                                               p: nat, q: nat, name: string)
    requires FindReference(rest, definer) == Some((p, q))
    requires name == rest[p + |definer| + 1..q] && (name == [] || name !in dict)
    ensures Expand(rest, definer, dict).Failure?
    ensures SubstituteFrom(rest, acc, definer, dict) == Expand(rest, definer, dict)
  {
    var e := if name == [] then EmptyVariable else UndefinedVariable(name);
    assert SubstitutionStep(rest, acc, definer, dict) == Stopped(e);
    assert Expand(rest, definer, dict) == Failure(e);
  }

  lemma {:induction false} SubstituteFromUnfold(rest: string, acc: string, definer: string, dict: map<string, string>,
                                                 p: nat, q: nat, name: string, acc': string)
    requires FindReference(rest, definer) == Some((p, q))
    requires name == rest[p + |definer| + 1..q] && name != [] && name in dict
    requires acc' == Replace(acc, rest[p..q + 1], dict[name])
    ensures SubstituteFrom(rest, acc, definer, dict) == SubstituteFrom(rest[q + 1..], acc', definer, dict)
  {
    StepReplaces(rest, acc, definer, dict, p, q, name, acc');
    SubstituteFromStep(rest, acc, definer, dict, rest[q + 1..], acc');
  }

  lemma {:induction false} StepReplaces(rest: string, acc: string, definer: string, dict: map<string, string>,
                                         p: nat, q: nat, name: string, acc': string)
    requires FindReference(rest, definer) == Some((p, q))
    requires name == rest[p + |definer| + 1..q] && name != [] && name in dict
    requires acc' == Replace(acc, rest[p..q + 1], dict[name])
    ensures SubstitutionStep(rest, acc, definer, dict) == Replaced(rest[q + 1..], acc')
  {
  }

  lemma {:induction false} SubstituteFromStep(rest: string, acc: string, definer: string, dict: map<string, string>,
                                               rest': string, acc': string)
    requires SubstitutionStep(rest, acc, definer, dict) == Replaced(rest', acc')
    ensures SubstituteFrom(rest, acc, definer, dict) == SubstituteFrom(rest', acc', definer, dict)
  {
  }

  lemma {:induction false} ExpandUnfold(s: string, definer: string, dict: map<string, string>,
                                         p: nat, q: nat, name: string)
    requires FindReference(s, definer) == Some((p, q))
    requires name == s[p + |definer| + 1..q] && name != [] && name in dict
    ensures Expand(s, definer, dict) == Prepend(s[..p] + dict[name], Expand(s[q + 1..], definer, dict))
  {
  }

  lemma PrependTwice(a: string, b: string, r: Result<string>)
    ensures Prepend(a, Prepend(b, r)) == Prepend(a + b, r)
  {
    if r.Success? {
      assert a + (b + r.value) == (a + b) + r.value;
    }
  }

  /** One round of the loop: the replacement lands on the reference just found,
      and the processed part stays free of reference starts. */
  lemma ReplacementStep(done: string, rest: string, definer: string, p: nat, q: nat, value: string,
                        done': string, rest': string)
    requires SafeDefiner(definer)
    requires value != [] && '{' !in value
    requires forall k :: 0 <= k < |definer| ==> definer[k] !in value
    requires NoReferenceBefore(done + rest, definer, |done|)
    requires IsReferenceAt(rest, definer, p, q) && NoReferenceBefore(rest, definer, p)
    requires done' == done + (rest[..p] + value) && rest' == rest[q + 1..]
    ensures Replace(done + rest, rest[p..q + 1], value) == done' + rest'
    ensures NoReferenceBefore(done' + rest', definer, |done'|)
  {
    var acc := done + rest;
    var text := rest[p..q + 1];
    var t := |done| + p;
    FirstOccurrenceOfReference(done, rest, definer, p, q);
    ReplaceAt(acc, text, value, t);
    SpliceParts(done, rest, p, q, value, done', rest');
    NoReferenceAfterStep(done, rest, definer, p, q, value);
    assert done + rest[..p] + value + rest[q + 1..] == done' + rest';
  }

  lemma SpliceParts(done: string, rest: string, p: nat, q: nat, value: string, done': string, rest': string)
    requires p <= q < |rest|
    requires done' == done + (rest[..p] + value) && rest' == rest[q + 1..]
    ensures (done + rest)[..|done| + p] + value + (done + rest)[|done| + p + |rest[p..q + 1]|..] == done' + rest'
  {
    var acc := done + rest;
    assert acc[..|done| + p] == done + rest[..p];
    assert acc[|done| + p + |rest[p..q + 1]|..] == rest[q + 1..];
  }

  /** The text of a reference, found anywhere, is a reference there too. */
  lemma ReferenceTextIsReference(s: string, definer: string, p: int, q: int, t: string, j: int)
    requires IsReferenceAt(s, definer, p, q)
    requires OccursAt(t, s[p..q + 1], j)
    ensures IsReferenceAt(t, definer, j, j + q - p)
  {
    var text := s[p..q + 1];
    assert t[j..j + |text|] == text;
    assert t[j..j + |Opening(definer)|] == text[..|Opening(definer)|];
    assert s[p..p + |Opening(definer)|] == text[..|Opening(definer)|];
    forall i | j + |definer| < i < j + q - p
      ensures !EndsName(t[i])
    {
      assert t[i] == text[i - j] == s[p + i - j];
    }
    assert t[j + q - p] == text[q - p];
  }

  /** A reference in `a + b` that starts inside `b` is a reference of `b`. */
  lemma ReferenceInSuffix(a: string, b: string, definer: string, j: int, q: int)
    requires |a| <= j && IsReferenceAt(a + b, definer, j, q)
    ensures IsReferenceAt(b, definer, j - |a|, q - |a|)
  {
    var s := a + b;
    var o := Opening(definer);
    assert b[j - |a|..j - |a| + |o|] == s[j..j + |o|];
    forall i | j - |a| + |definer| < i < q - |a|
      ensures !EndsName(b[i])
    {
      assert b[i] == s[i + |a|];
    }
  }

  /** The first occurrence of the leftmost reference's text in `done + rest` is
      that reference itself. */
  lemma FirstOccurrenceOfReference(done: string, rest: string, definer: string, p: nat, q: nat)
    requires NoReferenceBefore(done + rest, definer, |done|)
    requires IsReferenceAt(rest, definer, p, q) && NoReferenceBefore(rest, definer, p)
    ensures FirstOccurrence(done + rest, rest[p..q + 1], |done| + p)
  {
    var acc := done + rest;
    var text := rest[p..q + 1];
    assert acc[|done| + p..|done| + p + |text|] == text;
    forall j | 0 <= j < |done| + p
      ensures !OccursAt(acc, text, j)
    {
      if OccursAt(acc, text, j) {
        ReferenceTextIsReference(rest, definer, p, q, acc, j);
        if |done| <= j {
          ReferenceInSuffix(done, rest, definer, j, j + q - p);
        }
        assert false;
      }
    }
  }

  /** After a replacement, no reference starts in the part already processed:
      neither in the old prefix, nor in the inserted value, nor across its ends. */
  lemma NoReferenceAfterStep(done: string, rest: string, definer: string, p: nat, q: nat, value: string)
    requires SafeDefiner(definer)
    requires value != [] && '{' !in value
    requires forall k :: 0 <= k < |definer| ==> definer[k] !in value
    requires NoReferenceBefore(done + rest, definer, |done|)
    requires IsReferenceAt(rest, definer, p, q) && NoReferenceBefore(rest, definer, p)
    ensures NoReferenceBefore(done + rest[..p] + value + rest[q + 1..], definer, |done| + p + |value|)
  {
    var old_ := done + rest;
    var new_ := done + rest[..p] + value + rest[q + 1..];
    var t := |done| + p;
    var m := t + |value|;
    assert new_[..t] == old_[..t];
    forall j, qn | j < m
      ensures !IsReferenceAt(new_, definer, j, qn)
    {
      if IsReferenceAt(new_, definer, j, qn) {
        var b := j + |definer|;
        assert new_[j..j + |definer| + 1] == Opening(definer);
        assert new_[b] == '{' by {
          assert Opening(definer)[|definer|] == '{';
        }
        if b < t {
          var big := |done| + q;
          ReferenceCrossesChange(old_, new_, definer, j, qn, t, big);
          if |done| <= j {
            ReferenceInSuffix(done, rest, definer, j, if qn < t then qn else big);
          }
          assert false;
        } else if b < m {
          assert false;
        } else {
          OpeningChar(new_, definer, j, m - 1);
          assert false;
        }
      }
    }
  }

  lemma OpeningChar(s: string, definer: string, j: int, i: int)
    ensures OccursAt(s, Opening(definer), j) && j <= i < j + |definer| ==> s[i] == definer[i - j]
  {
    if OccursAt(s, Opening(definer), j) && j <= i < j + |definer| {
      assert s[j..j + |definer| + 1][i - j] == s[i];
    }
  }

  /** A reference in the new line whose brace lies before the change point `t` is
      matched in the old line by one that closes at or before the old reference at
      `t`, which closes at `big`. */
  lemma ReferenceCrossesChange(old_: string, new_: string, definer: string, j: int, qn: int, t: nat, big: nat)
    requires SafeDefiner(definer)
    requires t <= |old_| && t <= |new_| && old_[..t] == new_[..t]
    requires IsReferenceAt(new_, definer, j, qn) && j + |definer| < t
    requires IsReferenceAt(old_, definer, t, big)
    ensures qn < t ==> IsReferenceAt(old_, definer, j, qn)
    ensures qn >= t ==> IsReferenceAt(old_, definer, j, big)
  {
    var o := Opening(definer);
    assert old_[j..j + |o|] == new_[j..j + |o|] by {
      assert forall i | j <= i < j + |o| :: old_[i] == old_[..t][i] == new_[..t][i] == new_[i];
    }
    if qn < t {
      forall i | j + |definer| < i <= qn
        ensures old_[i] == new_[i]
      {
        assert old_[i] == old_[..t][i];
        assert new_[i] == new_[..t][i];
      }
    } else {
      forall i | j + |definer| < i < big
        ensures !EndsName(old_[i])
      {
        if i < t {
          assert old_[i] == old_[..t][i] == new_[..t][i] == new_[i];
        } else if i < t + |o| {
          assert old_[t..t + |o|] == o;
          assert old_[i] == o[i - t];
          if i - t < |definer| {
            assert o[i - t] == definer[i - t];
          } else {
            assert o[i - t] == '{';
          }
        }
      }
    }
  }
}
