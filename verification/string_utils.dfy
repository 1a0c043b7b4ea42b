/** The string primitives of the generator: trimming, counting a character,
    replacing the first occurrence of a substring, and an ASCII case-insensitive
    comparison. Strings are sequences of characters; searches report positions as
    `Option<nat>` where the C++ code uses `std::string::npos`. */
module StringUtils {
  import opened Results

  /** The default trimming set of every trim function: tab, newline, vertical tab,
      form feed, carriage return and space. No caller passes another set. */
  predicate IsTrimChar(c: char) {
    c == '\t' || c == '\n' || c == '\U{000B}' || c == '\U{000C}' || c == '\r' || c == ' '
  }

  predicate HasNonTrim(s: string) {
    exists k :: 0 <= k < |s| && !IsTrimChar(s[k])
  }

  /** The strings `right_trim` is defined on. On a non-empty string made only of
      trimming characters its unsigned index steps below zero and wraps around. */
  predicate TrimSafe(s: string) {
    s == [] || HasNonTrim(s)
  }

  // ---------------------------------------------------------------------------
  // Trimming
  // ---------------------------------------------------------------------------

  /** `left_trim`: drops the longest prefix of trimming characters. */
  function LeftTrim(s: string): (r: string)
    ensures |r| <= |s|
    ensures r == [] || !IsTrimChar(r[0])
  {
    if s == [] || !IsTrimChar(s[0]) then s else LeftTrim(s[1..])
  }

  /** What `left_trim` keeps is a suffix of its argument. */
  lemma {:induction false} LeftTrimIsSuffix(s: string)
    ensures LeftTrim(s) == s[|s| - |LeftTrim(s)|..]
  {
    if s != [] && IsTrimChar(s[0]) {
      LeftTrimIsSuffix(s[1..]);
    }
  }

  /** Everything `left_trim` drops is a trimming character, so a string made only
      of them becomes empty. */
  lemma {:induction false} LeftTrimDropsBlanks(s: string)
    ensures forall k :: 0 <= k < |s| - |LeftTrim(s)| ==> IsTrimChar(s[k])
    ensures !HasNonTrim(s) ==> LeftTrim(s) == []
  {
    if s != [] && IsTrimChar(s[0]) {
      LeftTrimDropsBlanks(s[1..]);
      LeftTrimIsSuffix(s[1..]);
      assert forall k :: 1 <= k < |s| ==> s[k] == s[1..][k - 1];
    }
  }

  /** Index of the last character that is not a trimming character. */
  function LastNonTrim(s: string): (i: nat)
    requires HasNonTrim(s)
    ensures i < |s| && !IsTrimChar(s[i])
  {
    if !IsTrimChar(s[|s| - 1]) then |s| - 1
    else
      HasNonTrimDropLast(s);
      LastNonTrim(s[..|s| - 1])
  }

  lemma HasNonTrimDropLast(s: string)
    requires HasNonTrim(s) && IsTrimChar(s[|s| - 1])
    ensures HasNonTrim(s[..|s| - 1])
  {
    var k :| 0 <= k < |s| && !IsTrimChar(s[k]);
    assert s[..|s| - 1][k] == s[k];
  }

  /** `right_trim` as written: when the string ends in trimming characters it
      returns the prefix BEFORE the last non-trimming character, so that character
      is lost as well; otherwise the string is returned unchanged. */
  function RightTrim(s: string): (r: string)
    requires TrimSafe(s)
    ensures s == [] || !IsTrimChar(s[|s| - 1]) ==> r == s
    ensures s != [] && IsTrimChar(s[|s| - 1]) ==>
              && |r| < |s| - 1
              && r == s[..|r|]
              && !IsTrimChar(s[|r|])
  {
    if s == [] then s
    else
      var i := LastNonTrim(s);
      if i < |s| - 1 then s[..i] else s
  }

  /** Everything after the last non-trimming character is a trimming character. */
  lemma {:induction false} LastNonTrimIsLast(s: string)
    requires HasNonTrim(s)
    ensures forall k :: LastNonTrim(s) < k < |s| ==> IsTrimChar(s[k])
  {
    if IsTrimChar(s[|s| - 1]) {
      HasNonTrimDropLast(s);
      LastNonTrimIsLast(s[..|s| - 1]);
    }
  }

  /** When `right_trim` cuts, the characters after the lost one are all trimming
      characters. */
  lemma RightTrimDropsBlanks(s: string)
    requires TrimSafe(s) && s != [] && IsTrimChar(s[|s| - 1])
    ensures forall k :: |RightTrim(s)| < k < |s| ==> IsTrimChar(s[k])
  {
    LastNonTrimIsLast(s);
  }

  /** `trim`: right trim first, then left trim. */
  function Trim(s: string): (r: string)
    requires TrimSafe(s)
    ensures |r| <= |s|
    ensures r == [] || !IsTrimChar(r[0])
    ensures r != [] ==> HasNonTrim(s)
    ensures s != [] && !IsTrimChar(s[|s| - 1]) ==> r != [] && r == s[|s| - |r|..]
    ensures s != [] && !IsTrimChar(s[0]) && !IsTrimChar(s[|s| - 1]) ==> r == s
  {
    var right := RightTrim(s);
    var r := LeftTrim(right);
    LeftTrimIsSuffix(right);
    LeftTrimDropsBlanks(right);
    assert r != [] ==> r[0] == s[|right| - |r|];
    r
  }

  /** The trimmed string is a slice of the original, ending where the right trim
      ends. */
  lemma TrimIsSlice(s: string)
    requires TrimSafe(s)
    ensures |Trim(s)| <= |RightTrim(s)| <= |s|
    ensures Trim(s) == s[|RightTrim(s)| - |Trim(s)|..|RightTrim(s)|]
  {
    var t := RightTrim(s);
    var r := LeftTrim(t);
    LeftTrimIsSuffix(t);
    if s != [] && IsTrimChar(s[|s| - 1]) {
      SliceOfPrefix(s, |t|, |t| - |r|);
    }
  }

  lemma SliceOfPrefix(s: string, b: nat, a: nat)
    requires a <= b <= |s|
    ensures s[..b][a..] == s[a..b]
  {
  }

  // ---------------------------------------------------------------------------
  // Counting and searching
  // ---------------------------------------------------------------------------

  /** `count_char`: the number of occurrences of `c` in `s`. */
  function CountChar(s: string, c: char): (r: nat)
    ensures r == multiset(s)[c]
  {
    if s == [] then 0
    else
      assert s == [s[0]] + s[1..];
      (if s[0] == c then 1 else 0) + CountChar(s[1..], c)
  }

  predicate OccursAt(s: string, pat: string, j: int) {
    0 <= j && j + |pat| <= |s| && s[j..j + |pat|] == pat
  }

  predicate Contains(s: string, pat: string) {
    exists j :: 0 <= j <= |s| && OccursAt(s, pat, j)
  }

  /** `p` is where `std::string::find` reports `pat` in `s`. */
  predicate FirstOccurrence(s: string, pat: string, p: int) {
    OccursAt(s, pat, p) && forall j :: 0 <= j < p ==> !OccursAt(s, pat, j)
  }

  function IndexOfFrom(s: string, pat: string, from: nat): (r: Option<nat>)
    ensures r.Some? ==> from <= r.value && OccursAt(s, pat, r.value)
    ensures r.Some? ==> forall j :: from <= j < r.value ==> !OccursAt(s, pat, j)
    ensures r.None? ==> forall j :: from <= j ==> !OccursAt(s, pat, j)
    decreases |s| - from
  {
    if from + |pat| > |s| then None
    else if s[from..from + |pat|] == pat then Some(from)
    else IndexOfFrom(s, pat, from + 1)
  }

  /** `std::string::find`: the first occurrence of `pat` in `s`. */
  function IndexOf(s: string, pat: string): (r: Option<nat>)
    ensures r.Some? <==> Contains(s, pat)
    ensures r.Some? ==> FirstOccurrence(s, pat, r.value)
  {
    IndexOfFrom(s, pat, 0)
  }

  function LastIndexAtOrBelow(s: string, pat: string, j: int): (r: Option<nat>)
    ensures r.Some? ==> r.value <= j && OccursAt(s, pat, r.value)
    ensures r.Some? ==> forall k :: r.value < k <= j ==> !OccursAt(s, pat, k)
    ensures r.None? ==> forall k :: k <= j ==> !OccursAt(s, pat, k)
    decreases j + 1
  {
    if j < 0 then None
    else if OccursAt(s, pat, j) then Some(j)
    else LastIndexAtOrBelow(s, pat, j - 1)
  }

  /** `std::string::rfind`: the last occurrence of `pat` in `s`. */
  function LastIndexOf(s: string, pat: string): (r: Option<nat>)
    ensures r.Some? <==> Contains(s, pat)
    ensures r.Some? ==> OccursAt(s, pat, r.value)
    ensures r.Some? ==> forall k :: r.value < k ==> !OccursAt(s, pat, k)
  {
    LastIndexAtOrBelow(s, pat, |s| - |pat|)
  }

  /** A pattern whose first character is absent from `s` does not occur in it. */
  lemma AbsentFirstChar(s: string, pat: string)
    requires pat != [] && pat[0] !in s
    ensures !Contains(s, pat)
  {
    forall j | 0 <= j <= |s| && j + |pat| <= |s| ensures !OccursAt(s, pat, j) {
      if j < |s| {
        assert s[j..j + |pat|][0] == s[j];
      }
    }
  }

  /** `replace`: splices `rep` in place of the FIRST occurrence of `search` only.
      Its contract is `ReplaceSpec`, kept apart so that the unfolding of a call does
      not drag the occurrence quantifiers along. */
  function Replace(str: string, search: string, rep: string): string {
    match IndexOf(str, search)
    case None => str
    case Some(p) => str[..p] + rep + str[p + |search|..]
  }

  /** Without an occurrence the string is unchanged; otherwise exactly the first
      occurrence is replaced and the rest is kept. */
  lemma ReplaceSpec(str: string, search: string, rep: string)
    ensures !Contains(str, search) ==> Replace(str, search, rep) == str
    ensures forall p :: FirstOccurrence(str, search, p) ==>
              Replace(str, search, rep) == str[..p] + rep + str[p + |search|..]
    ensures Contains(str, search) ==> |Replace(str, search, rep)| == |str| - |search| + |rep|
  {
    forall p | FirstOccurrence(str, search, p)
      ensures Replace(str, search, rep) == str[..p] + rep + str[p + |search|..]
    {
      ReplaceAt(str, search, rep, p);
    }
  }

  lemma ReplaceAt(str: string, search: string, rep: string, p: int)
    requires FirstOccurrence(str, search, p)
    ensures Replace(str, search, rep) == str[..p] + rep + str[p + |search|..]
  {
    var r := IndexOf(str, search);
    assert r.Some?;
    assert OccursAt(str, search, p) && OccursAt(str, search, r.value);
  }

  // ---------------------------------------------------------------------------
  // Case-insensitive comparison
  // ---------------------------------------------------------------------------

  /** `std::tolower` in the "C" locale: only the ASCII capitals change. */
  function ToLower(c: char): char {
    if 'A' <= c <= 'Z' then (c as int + 32) as char else c
  }

  /** `compare_case_insensitive` as written: `std::equal` with three iterators walks
      the first string only, so the second must be at least as long, and a
      case-insensitive PREFIX of the second string already compares equal. */
  function CompareCaseInsensitive(a: string, b: string): (r: bool)
    requires |a| <= |b|
    ensures r <==> forall k :: 0 <= k < |a| ==> ToLower(a[k]) == ToLower(b[k])
  {
    if a == [] then true
    else ToLower(a[0]) == ToLower(b[0]) && CompareCaseInsensitive(a[1..], b[1..])
  }
}
