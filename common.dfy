/** Shared value types and the string operations the pipeline's Python code
    relies on (`str.startswith`, `str.endswith`, `str.split`, `str.strip`),
    stated over `string` = `seq<char>`. */
module Common {

  datatype Option<T> = None | Some(value: T)

  datatype Result<T, E> = Ok(value: T) | Err(error: E)

  predicate StartsWith(s: string, prefix: string) {
    |prefix| <= |s| && s[..|prefix|] == prefix
  }

  predicate EndsWith(s: string, suffix: string) {
    |suffix| <= |s| && s[|s| - |suffix|..] == suffix
  }

  /** `pat` occurs in `s` starting at index `i`. */
  predicate OccursAt(s: string, pat: string, i: int) {
    0 <= i && i + |pat| <= |s| && s[i..i + |pat|] == pat
  }

  /** Leftmost occurrence of a non-empty `pat` at or after `from` (`str.find`). */
  function FirstOccurrence(s: string, pat: string, from: nat): (r: Option<nat>)
    requires |pat| > 0
    ensures r.Some? ==> from <= r.value && OccursAt(s, pat, r.value)
    ensures r.Some? ==> forall j :: from <= j < r.value ==> !OccursAt(s, pat, j)
    ensures r.None? ==> forall j :: from <= j ==> !OccursAt(s, pat, j)
    decreases |s| - from
  {
    if from + |pat| > |s| then None
    else if s[from..from + |pat|] == pat then Some(from)
    else FirstOccurrence(s, pat, from + 1)
  }

  /** Rightmost occurrence of a non-empty `pat` that starts below `bound` (`str.rfind`). */
  function LastOccurrenceBelow(s: string, pat: string, bound: nat): (r: Option<nat>)
    requires |pat| > 0
    ensures r.Some? ==> r.value < bound && OccursAt(s, pat, r.value)
    ensures r.Some? ==> forall j :: r.value < j < bound ==> !OccursAt(s, pat, j)
    ensures r.None? ==> forall j :: 0 <= j < bound ==> !OccursAt(s, pat, j)
  {
    if bound == 0 then None
    else if OccursAt(s, pat, bound - 1) then Some(bound - 1)
    else LastOccurrenceBelow(s, pat, bound - 1)
  }

  /** `s.split(pat)[0]`: the text before the first occurrence of `pat`, or all of `s`. */
  function BeforeFirst(s: string, pat: string): (r: string)
    requires |pat| > 0
    ensures StartsWith(s, r)
    ensures forall j :: 0 <= j <= |r| - |pat| ==> !OccursAt(s, pat, j)
    ensures r == s || OccursAt(s, pat, |r|)
  {
    match FirstOccurrence(s, pat, 0)
    case None => s
    case Some(i) => s[..i]
  }

  /** `s.split(pat)[-1]`: the text after the last occurrence of `pat`, or all of `s`.
      (For a `pat` that cannot overlap itself, as every separator used here, the
      pieces of Python's left-to-right split end exactly at the occurrences.) */
  function AfterLast(s: string, pat: string): (r: string)
    requires |pat| > 0
    ensures EndsWith(s, r)
    ensures forall j :: |s| - |r| <= j ==> !OccursAt(s, pat, j)
    ensures r == s || OccursAt(s, pat, |s| - |r| - |pat|)
  {
    match LastOccurrenceBelow(s, pat, |s| + 1)
    case None => s
    case Some(i) => s[i + |pat|..]
  }

  /** `s.split(c)[-1]` for a single character `c`: the text after its last `c`. */
  function AfterLastChar(s: string, c: char): (r: string)
    ensures |r| <= |s| && r == s[|s| - |r|..]
    ensures forall k :: 0 <= k < |r| ==> r[k] != c
    ensures r == s || s[|s| - |r| - 1] == c
  {
    if s == [] || s[|s| - 1] == c then []
    else AfterLastChar(s[..|s| - 1], c) + [s[|s| - 1]]
  }

  /** `s.split(c)[0]` for a single character `c`: the text before its first `c`. */
  function BeforeFirstChar(s: string, c: char): (r: string)
    ensures |r| <= |s| && r == s[..|r|]
    ensures forall k :: 0 <= k < |r| ==> r[k] != c
    ensures r == s || s[|r|] == c
  {
    if s == [] || s[0] == c then []
    else [s[0]] + BeforeFirstChar(s[1..], c)
  }

  /** Number of leading copies of `c` in `s`. */
  function LeadingCount(s: string, c: char): (n: nat)
    ensures n <= |s|
    ensures forall k :: 0 <= k < n ==> s[k] == c
    ensures n < |s| ==> s[n] != c
  {
    if |s| > 0 && s[0] == c then 1 + LeadingCount(s[1..], c) else 0
  }

  /** Number of trailing copies of `c` in `s`. */
  function TrailingCount(s: string, c: char): (n: nat)
    ensures n <= |s|
    ensures forall k :: |s| - n <= k < |s| ==> s[k] == c
    ensures n < |s| ==> s[|s| - 1 - n] != c
  {
    if |s| > 0 && s[|s| - 1] == c then 1 + TrailingCount(s[..|s| - 1], c) else 0
  }

  /** `s.strip(c)` for a single character: drop every leading and trailing `c`. */
  function Strip(s: string, c: char): (r: string)
    ensures r == [] <==> forall k :: 0 <= k < |s| ==> s[k] == c
    ensures r != [] ==> r[0] != c && r[|r| - 1] != c
    ensures exists i, j :: 0 <= i <= j <= |s| && r == s[i..j]
              && (forall k :: 0 <= k < i ==> s[k] == c)
              && (forall k :: j <= k < |s| ==> s[k] == c)
  {
    var i := LeadingCount(s, c);
    if i == |s| then
      assert s[0..0] == [];
      []
    else
      var t := TrailingCount(s, c);
      assert s[i] != c;
      s[i..|s| - t]
  }
}
