/** The dashboard's pure helpers in `dash_app/dash_utils.py` (`app.py` carries
    identical copies of three of them): theme lookup, the category colour
    mapping, the timestamp of a frame key, and the place-name extractor. */
module DashUtils {
  import opened Common
  import opened DateTimeFormat

  // ---------------------------------------------------------------------
  // get_theme_name
  // ---------------------------------------------------------------------

  /** `get_theme_name(url)`: scans the theme map (name, URL) in its iteration
      order and returns the first name whose URL is `url`, or `None`. */
  method GetThemeName(themes: seq<(string, string)>, url: string) returns (r: Option<string>)
    ensures r.None? <==> forall i :: 0 <= i < |themes| ==> themes[i].1 != url
    ensures r.Some? ==> exists i :: 0 <= i < |themes| && themes[i] == (r.value, url)
                                    && forall j :: 0 <= j < i ==> themes[j].1 != url
  {
    for i := 0 to |themes|
      invariant forall j :: 0 <= j < i ==> themes[j].1 != url
    {
      if themes[i].1 == url {
        return Some(themes[i].0);
      }
    }
    return None;
  }

  // ---------------------------------------------------------------------
  // generate_color_mapping
  // ---------------------------------------------------------------------

  /** Plotly's qualitative `Set1` palette (the ColorBrewer Set1 scheme). */
  const SET1: seq<string> := [
    "rgb(228,26,28)", "rgb(55,126,184)", "rgb(77,175,74)",
    "rgb(152,78,163)", "rgb(255,127,0)", "rgb(255,255,51)",
    "rgb(166,86,40)", "rgb(247,129,191)", "rgb(153,153,153)"
  ]

  /** The dict comprehension `{c: palette[i % len(palette)] for i, c in
      enumerate(categories)}`: entries are inserted in order, so a later
      position of the same category overwrites an earlier one. */
  function ColorMapping(palette: seq<string>, categories: seq<string>): (m: map<string, string>)
    requires |palette| > 0
    ensures m.Keys == set c | c in categories
    decreases |categories|
  {
    if categories == [] then map[]
    else
      var n := |categories| - 1;
      assert forall c :: c in categories <==> c in categories[..n] || c == categories[n];
      ColorMapping(palette, categories[..n])[categories[n] := palette[n % |palette|]]
  }

  /** `generate_color_mapping(categories)` with the `Set1` palette. */
  function GenerateColorMapping(categories: seq<string>): map<string, string> {
    ColorMapping(SET1, categories)
  }

  /** A category gets the palette colour of its last position in the list. */
  lemma {:induction false} ColorOfLastPosition(palette: seq<string>, categories: seq<string>, i: nat)
    requires |palette| > 0
    requires i < |categories|
    requires forall j :: i < j < |categories| ==> categories[j] != categories[i]
    ensures categories[i] in ColorMapping(palette, categories)
    ensures ColorMapping(palette, categories)[categories[i]] == palette[i % |palette|]
    decreases |categories|
  {
    var n := |categories| - 1;
    if i < n {
      ColorOfLastPosition(palette, categories[..n], i);
    }
  }

  /** Every colour handed out comes from the palette. */
  lemma {:induction false} ColorsFromPalette(palette: seq<string>, categories: seq<string>)
    requires |palette| > 0
    ensures forall c :: c in ColorMapping(palette, categories) ==> ColorMapping(palette, categories)[c] in palette
    decreases |categories|
  {
    if categories != [] {
      var n := |categories| - 1;
      ColorsFromPalette(palette, categories[..n]);
      assert palette[n % |palette|] in palette;
    }
  }

  /** With distinct categories, the category at position `i` is coloured
      `palette[i % len(palette)]`, so colours cycle through the palette. */
  lemma DistinctCategoriesCycle(palette: seq<string>, categories: seq<string>)
    requires |palette| > 0
    requires forall i, j :: 0 <= i < j < |categories| ==> categories[i] != categories[j]
    ensures forall i :: 0 <= i < |categories| ==>
              ColorMapping(palette, categories)[categories[i]] == palette[i % |palette|]
  {
    forall i | 0 <= i < |categories|
      ensures ColorMapping(palette, categories)[categories[i]] == palette[i % |palette|]
    {
      ColorOfLastPosition(palette, categories, i);
    }
  }

  // ---------------------------------------------------------------------
  // extract_timestamp_from_key
  // ---------------------------------------------------------------------

  /** `key.split("image_")[-1].split(".jpg")[0]`: the text after the last
      `image_` and before the first `.jpg` that follows it. Neither pattern
      overlaps itself, so splitting on non-overlapping occurrences agrees with
      the last and first occurrence. */
  function TimestampText(key: string): string {
    BeforeFirst(AfterLast(key, "image_"), ".jpg")
  }

  /** The range of pandas' nanosecond `Timestamp`, rounded inwards to whole
      seconds (1677-09-21 00:12:43.145224193 to 2262-04-11 23:47:16.854775807). */
  const TIMESTAMP_MIN := DateTime(1677, 9, 21, 0, 12, 44)
  const TIMESTAMP_MAX := DateTime(2262, 4, 11, 23, 47, 16)

  predicate InTimestampRange(t: DateTime) {
    !Before(t, TIMESTAMP_MIN) && !Before(TIMESTAMP_MAX, t)
  }

  /** `pd.to_datetime(s, format="%Y-%m-%d_%H:%M:%S")`: `None` stands for the
      `ValueError` it raises, including `OutOfBoundsDatetime` for a date-time
      outside the nanosecond range, and for the `NaT` it returns on the texts
      of `NAT_STRINGS`; under `errors="coerce"` both become `NaT`. */
  function ToTimestamp(s: string): (r: Option<DateTime>)
    ensures r.Some? ==> Valid(r.value) && InTimestampRange(r.value)
  {
    match Parse(s, '_')
    case None => None
    case Some(t) => if InTimestampRange(t) then Some(t) else None
  }

  /** Text that converts is the canonical text of its timestamp, so two texts
      that convert to the same timestamp are equal. */
  lemma ToTimestampCanonical(s: string)
    requires ToTimestamp(s).Some?
    ensures Format(ToTimestamp(s).value, '_') == s
  {
    FormatParse(s, '_');
  }

  /** The texts pandas' string-to-datetime conversion turns into `NaT` instead
      of parsing them: the empty string and the spellings of "NaT" and "NaN". */
  const NAT_STRINGS: seq<string> := ["", "NaT", "nat", "NAT", "nan", "NaN", "NAN"]

  /** A text that names `NaT` never converts to a date-time. */
  lemma NatStringsDoNotConvert(s: string)
    requires s in NAT_STRINGS
    ensures ToTimestamp(s).None?
  {
    if Parse(s, '_').Some? {
      FormatParse(s, '_');
      FormatShape(Parse(s, '_').value, '_');
    }
  }

  /** What `extract_timestamp_from_key` returns: a timestamp (`datetime.min`
      among them) or `NaT`. */
  datatype FrameStamp = Stamp(t: DateTime) | NotATime

  /** `extract_timestamp_from_key(key)`: never raises; `NaT` for a text of
      `NAT_STRINGS`, and `datetime.min` for any other text that does not
      convert. */
  function ExtractTimestampFromKey(key: string): FrameStamp {
    var text := TimestampText(key);
    if text in NAT_STRINGS then NotATime
    else match ToTimestamp(text)
      case Some(t) => Stamp(t)
      case None => Stamp(MIN_DATETIME)
  }

  /** `NaT` comes exactly from the texts of `NAT_STRINGS`; the sentinel exactly
      from any other text that is not a representable `%Y-%m-%d_%H:%M:%S`
      date-time; otherwise the result formats back to that text. */
  lemma ExtractTimestampSpec(key: string)
    ensures ExtractTimestampFromKey(key) == NotATime <==> TimestampText(key) in NAT_STRINGS
    ensures ExtractTimestampFromKey(key) == Stamp(MIN_DATETIME) <==>
              TimestampText(key) !in NAT_STRINGS && ToTimestamp(TimestampText(key)).None?
    ensures var r := ExtractTimestampFromKey(key);
            r.Stamp? && r.t != MIN_DATETIME ==> Valid(r.t) && Format(r.t, '_') == TimestampText(key)
  {
    assert Before(MIN_DATETIME, TIMESTAMP_MIN);
    if ToTimestamp(TimestampText(key)).Some? {
      ToTimestampCanonical(TimestampText(key));
    }
  }

  /** No character of a formatted timestamp starts `image_` or `.jpg`. */
  predicate NoMarkerChar(c: char) {
    c != 'i' && c != '.'
  }

  lemma FormatChars(t: DateTime)
    requires Valid(t)
    ensures forall k :: 0 <= k < |Format(t, '_')| ==> NoMarkerChar(Format(t, '_')[k])
  {
    var s := Format(t, '_');
    assert HasShape(s, '_');
  }

  /** The text after the last `image_` of `<dir>image_<tail>` is `tail` when
      `tail` has no `i`. */
  lemma AfterLastImage(dir: string, tail: string)
    requires forall k :: 0 <= k < |tail| ==> tail[k] != 'i'
    ensures AfterLast(dir + "image_" + tail, "image_") == tail
  {
    var pat := "image_";
    var s := dir + pat + tail;
    var r := AfterLast(s, pat);
    assert OccursAt(s, pat, |dir|) by { assert s[|dir|..|dir| + 6] == pat; }
    assert forall q :: |dir| < q < |s| ==> s[q] != 'i' by {
      forall q | |dir| < q < |s| ensures s[q] != 'i' {
        if q < |dir| + 6 {
          assert s[q] == pat[q - |dir|];
        } else {
          assert s[q] == tail[q - |dir| - 6];
        }
      }
    }
    assert r != s;
    var p := |s| - |r| - 6;
    assert OccursAt(s, pat, p);
    assert s[p] == 'i' by { assert s[p..p + 6][0] == pat[0]; }
    assert p == |dir|;
    assert r == s[|dir| + 6..];
    assert s[|dir| + 6..] == tail;
  }

  /** The text before the first `.jpg` of `<text>.jpg<rest>` is `text` when
      `text` has no `.`. */
  lemma BeforeFirstJpg(text: string, rest: string)
    requires forall k :: 0 <= k < |text| ==> text[k] != '.'
    ensures BeforeFirst(text + ".jpg" + rest, ".jpg") == text
  {
    var pat := ".jpg";
    var s := text + pat + rest;
    var r := BeforeFirst(s, pat);
    assert OccursAt(s, pat, |text|) by { assert s[|text|..|text| + 4] == pat; }
    assert r != s;
    assert OccursAt(s, pat, |r|);
    assert s[|r|] == '.' by { assert s[|r|..|r| + 4][0] == pat[0]; }
    assert r == s[..|text|];
  }

  /** Frames named `image_<fmt(t)>.jpg` (the grabber's naming) under any
      directory give back their timestamp, for every representable `t`. */
  lemma ExtractTimestampRoundTrip(dir: string, t: DateTime)
    requires Valid(t) && InTimestampRange(t)
    ensures ExtractTimestampFromKey(dir + "image_" + Format(t, '_') + ".jpg") == Stamp(t)
  {
    FrameKeyText(dir, t);
    FormatIsNotNaT(t);
    FormatConverts(t);
  }

  lemma FormatIsNotNaT(t: DateTime)
    requires Valid(t)
    ensures Format(t, '_') !in NAT_STRINGS
  {
    FormatShape(t, '_');
  }

  lemma FormatConverts(t: DateTime)
    requires Valid(t) && InTimestampRange(t)
    ensures ToTimestamp(Format(t, '_')) == Some(t)
  {
    ParseFormat(t, '_');
  }

  /** The text read from the key `<dir>image_<fmt(t)>.jpg` is `fmt(t)`. */
  lemma FrameKeyText(dir: string, t: DateTime)
    requires Valid(t)
    ensures TimestampText(dir + "image_" + Format(t, '_') + ".jpg") == Format(t, '_')
  {
    var f := Format(t, '_');
    FormatChars(t);
    var tail := f + ".jpg";
    assert forall k :: 0 <= k < |tail| ==> tail[k] != 'i' by {
      forall k | 0 <= k < |tail| ensures tail[k] != 'i' {
        if k < |f| {
          assert tail[k] == f[k];
        } else {
          assert tail[k] == ".jpg"[k - |f|];
        }
      }
    }
    assert dir + "image_" + f + ".jpg" == dir + "image_" + tail;
    AfterLastImage(dir, tail);
    assert tail == f + ".jpg" + "";
    BeforeFirstJpg(f, "");
  }

  // ---------------------------------------------------------------------
  // extract_town_from_text: re.findall(r"\b[A-Z][a-z]+(?:\s+[A-Z][a-z]+)*\b", text)
  // ---------------------------------------------------------------------

  predicate IsUpper(c: char) { 'A' <= c <= 'Z' }

  predicate IsLower(c: char) { 'a' <= c <= 'z' }

  /** `\s` on ASCII: space, `\t` `\n` `\v` `\f` `\r`, and the separators 0x1C-0x1F. */
  predicate IsSpace(c: char) {
    c == ' ' || 9 <= c as int <= 13 || 28 <= c as int <= 31
  }

  /** `\w`: ASCII letters, digits and `_`; every non-ASCII character counts as
      a letter. */
  predicate IsWordChar(c: char) {
    IsUpper(c) || IsLower(c) || '0' <= c <= '9' || c == '_' || c as int > 127
  }

  /** `\b` at position `k`: exactly one side of `k` is a word character. */
  predicate Boundary(s: string, k: nat)
    requires k <= |s|
  {
    (k > 0 && IsWordChar(s[k - 1])) != (k < |s| && IsWordChar(s[k]))
  }

  /** End of the run of lowercase letters starting at `j`. */
  function LowerRunEnd(s: string, j: nat): (e: nat)
    requires j <= |s|
    ensures j <= e <= |s|
    ensures forall q :: j <= q < e ==> IsLower(s[q])
    ensures e == |s| || !IsLower(s[e])
    decreases |s| - j
  {
    if j < |s| && IsLower(s[j]) then LowerRunEnd(s, j + 1) else j
  }

  /** End of the run of whitespace starting at `j`. */
  function SpaceRunEnd(s: string, j: nat): (e: nat)
    requires j <= |s|
    ensures j <= e <= |s|
    ensures forall q :: j <= q < e ==> IsSpace(s[q])
    ensures e == |s| || !IsSpace(s[e])
    decreases |s| - j
  {
    if j < |s| && IsSpace(s[j]) then SpaceRunEnd(s, j + 1) else j
  }

  /** `[A-Z][a-z]+` at `j`. The lowercase run is taken whole: a shorter one
      would leave a lowercase letter where the pattern needs `\s` or `\b`. */
  function WordAt(s: string, j: nat): (r: Option<nat>)
    requires j <= |s|
    ensures r.Some? ==> j + 2 <= r.value <= |s| && IsUpper(s[j])
    ensures r.Some? ==> forall q :: j < q < r.value ==> IsLower(s[q])
    ensures r.Some? ==> r.value == |s| || !IsLower(s[r.value])
  {
    if j < |s| && IsUpper(s[j]) then
      var e := LowerRunEnd(s, j + 1);
      if e > j + 1 then Some(e) else None
    else None
  }

  /** One more repetition `\s+[A-Z][a-z]+` after a word ending at `e`. */
  function NextWordAt(s: string, e: nat): (r: Option<nat>)
    requires e <= |s|
    ensures r.Some? ==> e < |s| && IsSpace(s[e])
    ensures r.Some? ==> exists b :: e < b && b + 2 <= r.value <= |s| && SpacesThenWord(s, e, b, r.value)
  {
    var b := SpaceRunEnd(s, e);
    if b > e then
      match WordAt(s, b)
      case Some(f) => assert SpacesThenWord(s, e, b, f); Some(f)
      case None => None
    else None
  }

  /** `s[e..b]` is whitespace and `s[b..f]` is one word. */
  predicate SpacesThenWord(s: string, e: nat, b: nat, f: nat)
    requires e <= b <= f <= |s|
  {
    && (forall q :: e <= q < b ==> IsSpace(s[q]))
    && b < f && IsUpper(s[b])
    && (forall q :: b < q < f ==> IsLower(s[q]))
  }

  /** The backtracking outcome of the repetition: take words while they
      follow, then end at the last word followed by `\b`. Every word but the
      last is followed by whitespace, so that is the last word or the one
      before it (`prev`). */
  function ChainEnd(s: string, e: nat, prev: Option<nat>): (r: Option<nat>)
    requires e <= |s|
    requires prev.Some? ==> prev.value <= e
    ensures r.Some? ==> r.value <= |s| && (e <= r.value || r == prev)
    decreases |s| - e
  {
    match NextWordAt(s, e)
    case Some(f) => ChainEnd(s, f, Some(e))
    case None => if Boundary(s, e) then Some(e) else prev
  }

  /** End of the match of the whole pattern starting at `i`, if any. */
  function MatchAt(s: string, i: nat): (r: Option<nat>)
    requires i <= |s|
    ensures r.Some? ==> i + 2 <= r.value <= |s|
  {
    if Boundary(s, i) then
      match WordAt(s, i)
      case Some(e) => ChainEnd(s, e, None)
      case None => None
    else None
  }

  /** Span `[i, e)` of `s` spells one or more words `[A-Z][a-z]+` separated by
      runs of whitespace, with no whitespace at either end. */
  predicate TownSpan(s: string, i: nat, e: nat)
    requires i <= e <= |s|
  {
    && i + 2 <= e && IsUpper(s[i]) && IsLower(s[e - 1])
    && (forall k :: i <= k < e ==> IsUpper(s[k]) || IsLower(s[k]) || IsSpace(s[k]))
    && (forall k :: i < k < e && IsUpper(s[k]) ==> IsSpace(s[k - 1]))
    && (forall k :: i <= k < e - 1 && IsUpper(s[k]) ==> IsLower(s[k + 1]))
    && (forall k :: i <= k < e - 1 && IsSpace(s[k]) ==> !IsLower(s[k + 1]))
  }

  /** The same shape, stated on the matched text itself. */
  predicate TownShape(m: string) {
    && |m| >= 2 && IsUpper(m[0]) && IsLower(m[|m| - 1])
    && (forall k :: 0 <= k < |m| ==> IsUpper(m[k]) || IsLower(m[k]) || IsSpace(m[k]))
    && (forall k :: 0 < k < |m| && IsUpper(m[k]) ==> IsSpace(m[k - 1]))
    && (forall k :: 0 <= k < |m| - 1 && IsUpper(m[k]) ==> IsLower(m[k + 1]))
    && (forall k :: 0 <= k < |m| - 1 && IsSpace(m[k]) ==> !IsLower(m[k + 1]))
  }

  lemma TownSpanShape(s: string, i: nat, e: nat)
    requires i <= e <= |s| && TownSpan(s, i, e)
    ensures TownShape(s[i..e])
  {
    var m := s[i..e];
    assert forall k :: 0 <= k < |m| ==> m[k] == s[i + k];
  }

  /** Appending whitespace and a word to a span keeps its shape. */
  lemma TownSpanExtend(s: string, i: nat, e: nat, b: nat, f: nat)
    requires i <= e <= b <= f <= |s|
    requires TownSpan(s, i, e)
    requires e < b && SpacesThenWord(s, e, b, f) && b + 2 <= f
    ensures TownSpan(s, i, f)
  {
    forall k | i <= k < f
      ensures !(IsUpper(s[k]) && IsLower(s[k])) && !(IsUpper(s[k]) && IsSpace(s[k])) && !(IsLower(s[k]) && IsSpace(s[k]))
    {
      CharClassesDisjoint(s[k]);
    }
  }

  /** No character is in two of the classes `[A-Z]`, `[a-z]`, `\s`. */
  lemma CharClassesDisjoint(c: char)
    ensures !(IsUpper(c) && IsLower(c)) && !(IsUpper(c) && IsSpace(c)) && !(IsLower(c) && IsSpace(c))
  {
  }

  /** What the chain ends on is a well-shaped span followed by `\b`. */
  lemma {:induction false} ChainEndSpan(s: string, i: nat, e: nat, prev: Option<nat>)
    requires i <= e <= |s| && TownSpan(s, i, e)
    requires prev.Some? ==> i <= prev.value <= e && TownSpan(s, i, prev.value) && Boundary(s, prev.value)
    ensures ChainEnd(s, e, prev).Some? ==>
              i <= ChainEnd(s, e, prev).value <= |s|
              && TownSpan(s, i, ChainEnd(s, e, prev).value)
              && Boundary(s, ChainEnd(s, e, prev).value)
    decreases |s| - e
  {
    match NextWordAt(s, e)
    case Some(f) =>
      var b :| e < b && b + 2 <= f <= |s| && SpacesThenWord(s, e, b, f);
      TownSpanExtend(s, i, e, b, f);
      assert Boundary(s, e);
      ChainEndSpan(s, i, f, Some(e));
    case None =>
  }

  /** A match starts at `\b`, ends at `\b`, and spells a town name. */
  lemma MatchAtSpan(s: string, i: nat)
    requires i <= |s| && MatchAt(s, i).Some?
    ensures TownSpan(s, i, MatchAt(s, i).value)
    ensures i == 0 || !IsWordChar(s[i - 1])
    ensures Boundary(s, MatchAt(s, i).value)
  {
    var e := WordAt(s, i).value;
    ChainEndSpan(s, i, e, None);
  }

  /** `re.findall` from position `i`: try a match at each position, and after
      a match resume at its end. The spans are matches, in text order, and do
      not overlap. */
  function FindAllFrom(s: string, i: nat): (spans: seq<(nat, nat)>)
    requires i <= |s|
    decreases |s| - i
  {
    if i == |s| then []
    else
      match MatchAt(s, i)
      case Some(e) => [(i, e)] + FindAllFrom(s, e)
      case None => FindAllFrom(s, i + 1)
  }

  /** Every span found is a match of the whole pattern at its start, from `i` on. */
  lemma {:induction false} FindAllSound(s: string, i: nat)
    requires i <= |s|
    ensures forall k :: 0 <= k < |FindAllFrom(s, i)| ==>
              i <= FindAllFrom(s, i)[k].0 < FindAllFrom(s, i)[k].1 <= |s|
              && MatchAt(s, FindAllFrom(s, i)[k].0) == Some(FindAllFrom(s, i)[k].1)
    decreases |s| - i
  {
    if i < |s| {
      match MatchAt(s, i)
      case Some(e) =>
        FindAllSound(s, e);
        var rest := FindAllFrom(s, e);
        var spans := FindAllFrom(s, i);
        assert spans == [(i, e)] + rest;
        forall k | 0 <= k < |spans|
          ensures i <= spans[k].0 < spans[k].1 <= |s| && MatchAt(s, spans[k].0) == Some(spans[k].1)
        {
          if k > 0 {
            assert spans[k] == rest[k - 1];
          }
        }
      case None =>
        FindAllSound(s, i + 1);
    }
  }

  /** The spans come in text order and do not overlap. */
  lemma {:induction false} FindAllOrdered(s: string, i: nat)
    requires i <= |s|
    ensures forall k :: 0 <= k < |FindAllFrom(s, i)| - 1 ==> FindAllFrom(s, i)[k].1 <= FindAllFrom(s, i)[k + 1].0
    decreases |s| - i
  {
    if i < |s| {
      match MatchAt(s, i)
      case Some(e) =>
        FindAllOrdered(s, e);
        FindAllSound(s, e);
        var rest := FindAllFrom(s, e);
        assert FindAllFrom(s, i) == [(i, e)] + rest;
      case None =>
        FindAllOrdered(s, i + 1);
    }
  }

  /** No match is missed: every position from `i` on that starts a match lies
      inside one of the spans found. */
  lemma {:induction false} FindAllComplete(s: string, i: nat, j: nat)
    requires i <= j < |s| && MatchAt(s, j).Some?
    ensures exists k :: 0 <= k < |FindAllFrom(s, i)| && FindAllFrom(s, i)[k].0 <= j < FindAllFrom(s, i)[k].1
    decreases |s| - i, 1
  {
    if MatchAt(s, i).Some? {
      FindAllCompleteAfterMatch(s, i, j);
    } else {
      assert j != i;
      assert FindAllFrom(s, i) == FindAllFrom(s, i + 1);
      FindAllComplete(s, i + 1, j);
    }
  }

  /** The case of `FindAllComplete` where a match starts at `i`. */
  lemma {:induction false} FindAllCompleteAfterMatch(s: string, i: nat, j: nat)
    requires i <= j < |s| && MatchAt(s, j).Some? && MatchAt(s, i).Some?
    ensures exists k :: 0 <= k < |FindAllFrom(s, i)| && FindAllFrom(s, i)[k].0 <= j < FindAllFrom(s, i)[k].1
    decreases |s| - i, 0
  {
    var e := MatchAt(s, i).value;
    var spans := FindAllFrom(s, i);
    if j < e {
      assert spans[0] == (i, e);
    } else {
      var rest := FindAllFrom(s, e);
      FindAllComplete(s, e, j);
      var k :| 0 <= k < |rest| && rest[k].0 <= j < rest[k].1;
      assert spans[k + 1] == rest[k];
    }
  }

  /** `extract_town_from_text(text)`: the matched texts in order. */
  function ExtractTownFromText(text: string): (towns: seq<string>) {
    FindAllSound(text, 0);
    var spans := FindAllFrom(text, 0);
    seq(|spans|, k requires 0 <= k < |spans| => text[spans[k].0..spans[k].1])
  }

  /** Every extracted item is one or more capitalised words separated by
      whitespace, with no whitespace at either end, and sits between word
      boundaries of the text. */
  lemma ExtractTownSpec(text: string)
    ensures forall k :: 0 <= k < |ExtractTownFromText(text)| ==> TownShape(ExtractTownFromText(text)[k])
  {
    FindAllSound(text, 0);
    var spans := FindAllFrom(text, 0);
    forall k | 0 <= k < |spans|
      ensures TownShape(ExtractTownFromText(text)[k])
    {
      MatchAtSpan(text, spans[k].0);
      TownSpanShape(text, spans[k].0, spans[k].1);
    }
  }
}
