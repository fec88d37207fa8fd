/** The post-processing function of `modules/lambda2.py` (`feed_db_with_preds`
    and its helpers): list every object under a prefix, group the keys by
    filename stem into a detections sidecar (`.out`) and a frame (`.jpg`),
    derive the timestamp key from the stem, and write one statistics row per
    allowed detection category plus one `whole_image` row per frame.

    S3 is a listing (`seq` of keys in listing order) and a map from key to
    decoded content; DynamoDB is the class `StatsTable`, whose `put_item`
    overwrites the row with the same (id, category_name). */
module Reconciler {
  import opened Common
  import opened DateTimeFormat

  // ---------------------------------------------------------------------
  // get_filename: the timestamp key of a stem
  // ---------------------------------------------------------------------

  /** `re.search(r"image_(\d{4}-\d{2}-\d{2}_\d{2}:\d{2}:\d{2})", s)` matches at `i`. */
  predicate MatchAt(s: string, i: int) {
    OccursAt(s, "image_", i) && i + 25 <= |s| && HasShape(s[i + 6..i + 25], '_')
  }

  /** `re.search` reports the leftmost match. */
  predicate FirstMatchAt(s: string, i: int) {
    MatchAt(s, i) && forall j :: 0 <= j < i ==> !MatchAt(s, j)
  }

  function FirstMatchFrom(s: string, from: nat): (r: Option<nat>)
    ensures r.Some? ==> from <= r.value && MatchAt(s, r.value)
    ensures r.Some? ==> forall j :: from <= j < r.value ==> !MatchAt(s, j)
    ensures r.None? ==> forall j :: from <= j ==> !MatchAt(s, j)
    decreases |s| - from
  {
    if from + 25 > |s| then None
    else if MatchAt(s, from) then Some(from)
    else FirstMatchFrom(s, from + 1)
  }

  datatype ReconcileError =
    | DatetimeNotFound(name: string)      // ValueError raised by get_filename
    | InvalidDatetime(text: string)       // ValueError raised by strptime
    | MissingObject(key: string)          // get_object fails
    | UnexpectedContent(key: string)      // body does not decode as JSON / JPEG
    | NoCategoryColumn(key: string)       // KeyError from groupby on an empty frame

  /** `get_filename`: the leftmost `image_<timestamp>` in `name`, re-rendered by
      `strptime(...).isoformat(sep="_")`. Only the leftmost match is tried: if
      its digits are not a valid date-time the call raises, whatever follows. */
  function GetFilename(name: string): (r: Result<string, ReconcileError>)
    ensures r.Ok? ==> Parse(r.value, '_').Some?
    ensures r.Err? ==> r.error == DatetimeNotFound(name) || r.error.InvalidDatetime?
  {
    match FirstMatchFrom(name, 0)
    case None => Err(DatetimeNotFound(name))
    case Some(i) =>
      var text := name[i + 6..i + 25];
      match Parse(text, '_')
      case None => Err(InvalidDatetime(text))
      case Some(t) =>
        ParseFormat(t, '_');
        Ok(Format(t, '_'))
  }

  /** At most one position holds the leftmost match. */
  lemma FirstMatchFound(s: string, i: int)
    requires FirstMatchAt(s, i)
    ensures FirstMatchFrom(s, 0) == Some(i)
  {
  }

  /** `get_filename` raises "not found" exactly when nothing matches. */
  lemma GetFilenameNotFound(name: string)
    ensures (forall i :: !MatchAt(name, i)) <==> GetFilename(name) == Err(DatetimeNotFound(name))
  {
    match FirstMatchFrom(name, 0)
    case None =>
    case Some(i) =>
      assert MatchAt(name, i);
  }

  /** `get_filename` succeeds exactly when the leftmost match holds a valid
      date-time, and then returns the matched timestamp text unchanged. */
  lemma GetFilenameSpec(name: string)
    ensures GetFilename(name).Ok? <==> exists i :: FirstMatchAt(name, i) && Parse(name[i + 6..i + 25], '_').Some?
    ensures forall i :: FirstMatchAt(name, i) && Parse(name[i + 6..i + 25], '_').Some? ==>
              GetFilename(name) == Ok(name[i + 6..i + 25])
  {
    match FirstMatchFrom(name, 0)
    case None =>
      forall i | FirstMatchAt(name, i)
        ensures false
      {
        FirstMatchFound(name, i);
      }
    case Some(i) =>
      assert FirstMatchAt(name, i);
      GetFilenameAt(name, i);
      forall j | FirstMatchAt(name, j)
        ensures j == i
      {
        FirstMatchFound(name, j);
      }
  }

  /** Once the leftmost match is found, the call succeeds exactly when its
      text parses, and returns that text. */
  lemma GetFilenameAt(name: string, i: nat)
    requires FirstMatchAt(name, i)
    ensures var text := name[i + 6..i + 25];
            GetFilename(name) == if Parse(text, '_').Some? then Ok(text) else Err(InvalidDatetime(text))
  {
    FirstMatchFound(name, i);
    var text := name[i + 6..i + 25];
    if Parse(text, '_').Some? {
      FormatParse(text, '_');
    }
  }

  /** `get_filename` gives back the timestamp of the first `image_<timestamp>`
      in a name, unchanged. */
  lemma GetFilenameRoundTrip(pre: string, t: DateTime, post: string)
    requires Valid(t)
    requires forall j :: 0 <= j < |pre| ==> !MatchAt(pre + "image_" + Format(t, '_') + post, j)
    ensures GetFilename(pre + "image_" + Format(t, '_') + post) == Ok(Format(t, '_'))
  {
    var f := Format(t, '_');
    var name := pre + "image_" + f + post;
    FormatShape(t, '_');
    assert name[|pre|..|pre| + 6] == "image_";
    assert name[|pre| + 6..|pre| + 25] == f;
    assert MatchAt(name, |pre|);
    GetFilenameAt(name, |pre|);
    ParseFormat(t, '_');
  }

  // ---------------------------------------------------------------------
  // Prefix normalisation and stems
  // ---------------------------------------------------------------------

  /** `prefix.strip("/")`, then one trailing `/` unless nothing is left. */
  function NormalizePrefix(prefix: string): (r: string)
    ensures r == "" <==> forall k :: 0 <= k < |prefix| ==> prefix[k] == '/'
    ensures r != "" ==> |r| >= 2 && r[0] != '/' && r[|r| - 1] == '/' && r[|r| - 2] != '/'
    ensures r != "" ==>
              exists i, j :: 0 <= i <= j <= |prefix| && r == prefix[i..j] + "/"
                && (forall k :: 0 <= k < i ==> prefix[k] == '/')
                && (forall k :: j <= k < |prefix| ==> prefix[k] == '/')
  {
    var p := Strip(prefix, '/');
    if p != "" then p + "/" else ""
  }

  /** Normalising an already normalised prefix changes nothing. */
  lemma NormalizePrefixIdempotent(prefix: string)
    ensures NormalizePrefix(NormalizePrefix(prefix)) == NormalizePrefix(prefix)
  {
    var r := NormalizePrefix(prefix);
    if r != "" {
      var q := r[..|r| - 1];
      assert LeadingCount(r, '/') == 0;
      assert TrailingCount(r[..|r| - 1], '/') == 0;
      assert TrailingCount(r, '/') == 1;
      assert Strip(r, '/') == q;
    }
  }

  /** `os.path.basename(key)`: the text after the last `/`. */
  function Basename(key: string): string {
    AfterLastChar(key, '/')
  }

  /** `os.path.basename(key).split(".")[0]`: the unique id of the key. */
  function Stem(key: string): string {
    BeforeFirstChar(Basename(key), '.')
  }

  /** Which slot of its entry a listed key fills; `.out` is tested first. */
  datatype Kind = Sidecar | Frame | Unpaired

  function KindOf(key: string): Kind {
    if EndsWith(key, ".out") then Sidecar
    else if EndsWith(key, ".jpg") then Frame
    else Unpaired
  }

  /** For a frame `<dir><s>.jpg` and its sidecar `<dir><s>.jpg.out`, both keys
      group under `s`: the frame as the JPEG, the sidecar as the JSON. */
  lemma FrameAndSidecarPair(dir: string, s: string)
    requires dir == "" || dir[|dir| - 1] == '/'
    requires forall k :: 0 <= k < |s| ==> s[k] != '.' && s[k] != '/'
    ensures Stem(dir + s + ".jpg") == s && KindOf(dir + s + ".jpg") == Frame
    ensures Stem(dir + s + ".jpg.out") == s && KindOf(dir + s + ".jpg.out") == Sidecar
  {
    StemWithExtension(dir, s, ".jpg");
    StemWithExtension(dir, s, ".jpg.out");
    KindOfSuffix(dir + s, ".jpg");
    KindOfSuffix(dir + s, ".jpg.out");
  }

  lemma StemWithExtension(dir: string, s: string, ext: string)
    requires dir == "" || dir[|dir| - 1] == '/'
    requires forall k :: 0 <= k < |s| ==> s[k] != '.' && s[k] != '/'
    requires ext == ".jpg" || ext == ".jpg.out"
    ensures Stem(dir + s + ext) == s
  {
    assert forall k :: 0 <= k < |ext| ==> ext[k] != '/';
    StemOf(dir, s, ext);
  }

  lemma KindOfSuffix(base: string, ext: string)
    requires ext == ".jpg" || ext == ".jpg.out"
    ensures KindOf(base + ext) == if ext == ".jpg" then Frame else Sidecar
  {
    var key := base + ext;
    assert key[|key| - 4..] == ext[|ext| - 4..];
    assert ".jpg" != ".out" by { assert ".jpg"[1] != ".out"[1]; }
  }

  /** Below a directory prefix (empty or ending in `/`), the basename of a key
      is the rest of the key. */
  lemma BasenameUnderDir(dir: string, tail: string)
    requires dir == "" || dir[|dir| - 1] == '/'
    requires forall k :: 0 <= k < |tail| ==> tail[k] != '/'
    ensures Basename(dir + tail) == tail
  {
    var key := dir + tail;
    assert forall k :: 0 <= k < |tail| ==> key[|dir| + k] == tail[k];
    assert Basename(key) == key[|dir|..];
  }

  /** The stem of `<dir><s><ext>` is `s` when `ext` starts with `.` and has no `/`. */
  lemma StemOf(dir: string, s: string, ext: string)
    requires dir == "" || dir[|dir| - 1] == '/'
    requires forall k :: 0 <= k < |s| ==> s[k] != '.' && s[k] != '/'
    requires |ext| > 0 && ext[0] == '.' && forall k :: 0 <= k < |ext| ==> ext[k] != '/'
    ensures Stem(dir + s + ext) == s
  {
    var tail := s + ext;
    assert dir + s + ext == dir + tail;
    BasenameUnderDir(dir, tail);
    UpToFirstDot(s, ext);
  }

  lemma UpToFirstDot(s: string, ext: string)
    requires forall k :: 0 <= k < |s| ==> s[k] != '.'
    requires |ext| > 0 && ext[0] == '.'
    ensures BeforeFirstChar(s + ext, '.') == s
  {
    var t := s + ext;
    var r := BeforeFirstChar(t, '.');
    assert t[|s|] == '.';
    assert forall k :: 0 <= k < |s| ==> t[k] == s[k];
    assert |r| == |s|;
  }

  // ---------------------------------------------------------------------
  // Grouping the listing by stem (the first loop of feed_db_with_preds)
  // ---------------------------------------------------------------------

  /** `output_files[unique_id]`: the keys found for one stem. */
  datatype Entry = Entry(jsonKey: Option<string>, jpegKey: Option<string>)

  /** The dict `output_files`: its keys in insertion order and its values. */
  datatype Grouping = Grouping(order: seq<string>, files: map<string, Entry>)

  /** Files `key` under `stem(key)`, in the slot `kindOf(key)` picks. The pass
      files by `Stem` and `KindOf`; the grouping lemmas hold for any such pair. */
  function AddKey(g: Grouping, key: string, stem: string -> string, kindOf: string -> Kind): Grouping {
    var id := stem(key);
    var e := if id in g.files then g.files[id] else Entry(None, None);
    var e' := match kindOf(key)
      case Sidecar => e.(jsonKey := Some(key))
      case Frame => e.(jpegKey := Some(key))
      case Unpaired => e;
    Grouping(if id in g.files then g.order else g.order + [id], g.files[id := e'])
  }

  function GroupKeys(keys: seq<string>, stem: string -> string, kindOf: string -> Kind): Grouping {
    if keys == [] then Grouping([], map[])
    else AddKey(GroupKeys(keys[..|keys| - 1], stem, kindOf), keys[|keys| - 1], stem, kindOf)
  }

  /** The last listed key of kind `kind` whose stem is `id`, if any. */
  function LastOfKind(keys: seq<string>, id: string, kind: Kind, stem: string -> string, kindOf: string -> Kind)
    : (r: Option<string>)
    ensures r.Some? ==> r.value in keys && stem(r.value) == id && kindOf(r.value) == kind
    ensures r.None? ==> forall k :: k in keys && stem(k) == id ==> kindOf(k) != kind
  {
    if keys == [] then None
    else
      var k := keys[|keys| - 1];
      if stem(k) == id && kindOf(k) == kind then Some(k)
      else LastOfKind(keys[..|keys| - 1], id, kind, stem, kindOf)
  }

  /** The key found is the last match in listing order: no key after it has
      the same stem and kind. */
  lemma {:induction false} LastOfKindIsLast(keys: seq<string>, id: string, kind: Kind,
                                            stem: string -> string, kindOf: string -> Kind)
    ensures var r := LastOfKind(keys, id, kind, stem, kindOf);
            r.Some? ==> exists i :: 0 <= i < |keys| && keys[i] == r.value
                                    && forall j :: i < j < |keys| ==> !(stem(keys[j]) == id && kindOf(keys[j]) == kind)
  {
    if keys != [] {
      var last := |keys| - 1;
      if !(stem(keys[last]) == id && kindOf(keys[last]) == kind) {
        var init := keys[..last];
        LastOfKindIsLast(init, id, kind, stem, kindOf);
        var r := LastOfKind(init, id, kind, stem, kindOf);
        if r.Some? {
          var i :| 0 <= i < |init| && init[i] == r.value
                   && forall j :: i < j < |init| ==> !(stem(init[j]) == id && kindOf(init[j]) == kind);
          assert keys[i] == r.value;
          assert forall j :: i < j < |keys| ==> !(stem(keys[j]) == id && kindOf(keys[j]) == kind) by {
            forall j | i < j < |keys|
              ensures !(stem(keys[j]) == id && kindOf(keys[j]) == kind)
            {
              if j < last {
                assert keys[j] == init[j];
              }
            }
          }
        }
      }
    }
  }

  predicate NoDuplicates(s: seq<string>) {
    forall i, j :: 0 <= i < j < |s| ==> s[i] != s[j]
  }

  /** Every listed key has an entry under its stem, and only stems of listed
      keys have entries. */
  lemma {:induction false} GroupKeysDomain(keys: seq<string>, stem: string -> string, kindOf: string -> Kind)
    ensures forall k :: k in keys ==> stem(k) in GroupKeys(keys, stem, kindOf).files
    ensures forall id :: id in GroupKeys(keys, stem, kindOf).files ==> exists k :: k in keys && stem(k) == id
  {
    if keys != [] {
      var init, last := keys[..|keys| - 1], keys[|keys| - 1];
      GroupKeysDomain(init, stem, kindOf);
      var g0 := GroupKeys(init, stem, kindOf);
      var g := GroupKeys(keys, stem, kindOf);
      assert g == AddKey(g0, last, stem, kindOf);
      assert g.files.Keys == g0.files.Keys + {stem(last)};
      forall k | k in keys
        ensures stem(k) in g.files
      {
        if k != last {
          assert k in init;
        }
      }
      forall id | id in g.files
        ensures exists k :: k in keys && stem(k) == id
      {
        if id == stem(last) {
          assert last in keys;
        } else {
          var k :| k in init && stem(k) == id;
          assert k in keys;
        }
      }
    }
  }

  /** The insertion order lists each stem that has an entry, exactly once. */
  lemma {:induction false} GroupKeysOrder(keys: seq<string>, stem: string -> string, kindOf: string -> Kind)
    ensures NoDuplicates(GroupKeys(keys, stem, kindOf).order)
    ensures forall id :: id in GroupKeys(keys, stem, kindOf).order <==> id in GroupKeys(keys, stem, kindOf).files
  {
    if keys != [] {
      var init, last := keys[..|keys| - 1], keys[|keys| - 1];
      GroupKeysOrder(init, stem, kindOf);
      var g0 := GroupKeys(init, stem, kindOf);
      assert GroupKeys(keys, stem, kindOf) == AddKey(g0, last, stem, kindOf);
      var id := stem(last);
      if id !in g0.files {
        var o := g0.order + [id];
        assert forall i :: 0 <= i < |g0.order| ==> o[i] == g0.order[i] != id;
      }
    }
  }

  /** Each entry holds the LAST sidecar and the LAST frame listed for its stem:
      a later key of the same kind overwrites, and a key of neither kind
      changes nothing. */
  lemma {:induction false} GroupKeysEntries(keys: seq<string>, stem: string -> string, kindOf: string -> Kind)
    ensures forall id :: id in GroupKeys(keys, stem, kindOf).files ==>
              GroupKeys(keys, stem, kindOf).files[id]
                == Entry(LastOfKind(keys, id, Sidecar, stem, kindOf), LastOfKind(keys, id, Frame, stem, kindOf))
  {
    if keys != [] {
      var init := keys[..|keys| - 1];
      var g0 := GroupKeys(init, stem, kindOf);
      GroupKeysEntries(init, stem, kindOf);
      forall id | id in g0.files
        ensures g0.files[id] == Entry(LastOfKind(init, id, Sidecar, stem, kindOf), LastOfKind(init, id, Frame, stem, kindOf))
      {
      }
      var last := keys[|keys| - 1];
      if stem(last) !in g0.files {
        NoKeyNoLast(init, stem(last), Sidecar, stem, kindOf);
        NoKeyNoLast(init, stem(last), Frame, stem, kindOf);
      }
    }
  }

  /** A stem with no entry has no key of any kind. */
  lemma NoKeyNoLast(keys: seq<string>, id: string, kind: Kind, stem: string -> string, kindOf: string -> Kind)
    requires id !in GroupKeys(keys, stem, kindOf).files
    ensures LastOfKind(keys, id, kind, stem, kindOf) == None
  {
    GroupKeysDomain(keys, stem, kindOf);
  }

  lemma GroupKeysSnoc(keys: seq<string>, i: nat, stem: string -> string, kindOf: string -> Kind)
    requires i < |keys|
    ensures GroupKeys(keys[..i + 1], stem, kindOf) == AddKey(GroupKeys(keys[..i], stem, kindOf), keys[i], stem, kindOf)
  {
    assert keys[..i + 1][..i] == keys[..i];
  }

  /** The first loop of `feed_db_with_preds`, filling `output_files` in place:
      each key under `stem(key)`, in the slot `kindOf(key)` picks. The pass
      runs it with `Stem` and `KindOf`. */
  method GroupListing(keys: seq<string>, stem: string -> string, kindOf: string -> Kind) returns (g: Grouping)
    ensures g == GroupKeys(keys, stem, kindOf)
  {
    var order: seq<string> := [];
    var files: map<string, Entry> := map[];
    var i := 0;
    while i < |keys|
      invariant 0 <= i <= |keys|
      invariant Grouping(order, files) == GroupKeys(keys[..i], stem, kindOf)
    {
      var key := keys[i];
      var id := stem(key);
      var kind := kindOf(key);
      var e := if id in files then files[id] else Entry(None, None);
      if id !in files {
        order := order + [id];
      }
      match kind {
        case Sidecar => e := e.(jsonKey := Some(key));
        case Frame => e := e.(jpegKey := Some(key));
        case Unpaired =>
      }
      files := files[id := e];
      GroupKeysSnoc(keys, i, stem, kindOf);
      i := i + 1;
    }
    assert keys[..i] == keys;
    g := Grouping(order, files);
  }

  // ---------------------------------------------------------------------
  // Statistics rows and the table
  // ---------------------------------------------------------------------

  /** One record of a detections sidecar. */
  datatype Detection = Detection(categoryName: string, categoryId: int, area: real, score: real)

  /** A statistics row; `id` is the timestamp key. A category row keeps the
      exact totals of its group next to the count: the `mean_area` and
      `mean_score` attributes are `MeanArea` and `MeanScore` of the row. */
  datatype StatRow =
    | CategoryRow(id: string, categoryName: string, count: nat, areaTotal: real, scoreTotal: real)
    | WholeImageRow(id: string, meanBrightness: real)

  function MeanArea(row: StatRow): real
    requires row.CategoryRow? && row.count > 0
  {
    row.areaTotal / row.count as real
  }

  function MeanScore(row: StatRow): real
    requires row.CategoryRow? && row.count > 0
  {
    row.scoreTotal / row.count as real
  }

  const WHOLE_IMAGE := "whole_image"

  const ALLOWED_CATEGORIES: seq<string> := ["person", "bicycle", "car", "motorcycle", "bus", "truck"]

  /** The allow-list in the ascending order in which `groupby` yields groups. */
  const ALLOWED_IN_GROUP_ORDER: seq<string> := ["bicycle", "bus", "car", "motorcycle", "person", "truck"]

  /** The table's key of a row: (id, category_name). */
  function RowKey(row: StatRow): (string, string) {
    match row
    case CategoryRow(id, name, _, _, _) => (id, name)
    case WholeImageRow(id, _) => (id, WHOLE_IMAGE)
  }

  function CountOf(dets: seq<Detection>, name: string): (n: nat)
    ensures n <= |dets|
    ensures n > 0 <==> exists d :: d in dets && d.categoryName == name
  {
    if dets == [] then 0
    else CountOf(dets[..|dets| - 1], name) + (if dets[|dets| - 1].categoryName == name then 1 else 0)
  }

  function AreaSum(dets: seq<Detection>, name: string): real {
    if dets == [] then 0.0
    else AreaSum(dets[..|dets| - 1], name) + (if dets[|dets| - 1].categoryName == name then dets[|dets| - 1].area else 0.0)
  }

  function ScoreSum(dets: seq<Detection>, name: string): real {
    if dets == [] then 0.0
    else ScoreSum(dets[..|dets| - 1], name) + (if dets[|dets| - 1].categoryName == name then dets[|dets| - 1].score else 0.0)
  }

  /** The aggregate of one group: its size and the totals its means divide. */
  function GroupRow(dets: seq<Detection>, name: string, dtKey: string): StatRow {
    CategoryRow(dtKey, name, CountOf(dets, name), AreaSum(dets, name), ScoreSum(dets, name))
  }

  /** No two rows overwrite each other. */
  predicate DistinctKeys(rows: seq<StatRow>) {
    forall i, j :: 0 <= i < j < |rows| ==> RowKey(rows[i]) != RowKey(rows[j])
  }

  /** The rows `proc_json` writes, for the group names taken in the order `names`. */
  function RowsFor(names: seq<string>, dets: seq<Detection>, dtKey: string): seq<StatRow> {
    if names == [] then []
    else GroupRows(dets, names[0], dtKey) + RowsFor(names[1..], dets, dtKey)
  }

  /** One row per name that occurs among the detections, carrying that group's
      aggregate, and no row for a name that does not occur. */
  lemma {:induction false} RowsForSpec(names: seq<string>, dets: seq<Detection>, dtKey: string)
    ensures forall r :: r in RowsFor(names, dets, dtKey) ==>
              && r.CategoryRow? && r.id == dtKey && r.categoryName in names
              && r.count == CountOf(dets, r.categoryName) > 0
              && r == GroupRow(dets, r.categoryName, dtKey)
    ensures forall n :: n in names && CountOf(dets, n) > 0 ==> exists r :: r in RowsFor(names, dets, dtKey) && r.categoryName == n
  {
    if names != [] {
      RowsForSpec(names[1..], dets, dtKey);
      var rest := RowsFor(names[1..], dets, dtKey);
      var head := GroupRows(dets, names[0], dtKey);
      assert RowsFor(names, dets, dtKey) == head + rest;
      forall n | n in names && CountOf(dets, n) > 0
        ensures exists r :: r in RowsFor(names, dets, dtKey) && r.categoryName == n
      {
        if n == names[0] {
          assert GroupRow(dets, n, dtKey) in head;
        } else {
          assert n in names[1..];
        }
      }
    }
  }

  /** With each group name once, no two rows written share a key. */
  lemma {:induction false} RowsForDistinct(names: seq<string>, dets: seq<Detection>, dtKey: string)
    requires NoDuplicates(names)
    ensures DistinctKeys(RowsFor(names, dets, dtKey))
  {
    if names != [] {
      assert NoDuplicates(names[1..]);
      RowsForDistinct(names[1..], dets, dtKey);
      RowsForSpec(names[1..], dets, dtKey);
      var rest := RowsFor(names[1..], dets, dtKey);
      var head := GroupRows(dets, names[0], dtKey);
      var rows := RowsFor(names, dets, dtKey);
      assert names[0] !in names[1..];
      assert rows == head + rest;
      forall i, j | 0 <= i < j < |rows|
        ensures RowKey(rows[i]) != RowKey(rows[j])
      {
        var rj := rest[j - |head|];
        assert rows[j] == rj && rj in rest;
        if i < |head| {
          assert rows[i] == GroupRow(dets, names[0], dtKey);
          assert rj.CategoryRow? && rj.categoryName in names[1..];
        } else {
          assert rows[i] == rest[i - |head|];
        }
      }
    }
  }

  lemma RowsForFrom(names: seq<string>, i: nat, dets: seq<Detection>, dtKey: string)
    requires i < |names|
    ensures RowsFor(names[i..], dets, dtKey) == GroupRows(dets, names[i], dtKey) + RowsFor(names[i + 1..], dets, dtKey)
  {
    assert names[i..][1..] == names[i + 1..];
  }

  /** `proc_json` (as intended): one row per allowed category that occurs. */
  function JsonRows(dets: seq<Detection>, dtKey: string): seq<StatRow> {
    RowsFor(ALLOWED_IN_GROUP_ORDER, dets, dtKey)
  }

  /** Exactly one row per allowed category name that occurs in the detections,
      with the number of detections of that name as its count; a name outside
      the allow-list gets no row. */
  lemma JsonRowsSpec(dets: seq<Detection>, dtKey: string)
    ensures var rows := JsonRows(dets, dtKey);
            && (forall r :: r in rows ==>
                  && r.CategoryRow? && r.id == dtKey && r.categoryName in ALLOWED_CATEGORIES
                  && r.count == CountOf(dets, r.categoryName) && r.count > 0)
            && (forall n :: n in ALLOWED_CATEGORIES && (exists d :: d in dets && d.categoryName == n) ==>
                  exists r :: r in rows && r.categoryName == n)
            && DistinctKeys(rows)
  {
    AllowedInGroupOrder();
    RowsForSpec(ALLOWED_IN_GROUP_ORDER, dets, dtKey);
    RowsForDistinct(ALLOWED_IN_GROUP_ORDER, dets, dtKey);
  }

  /** The group order lists the allowed categories, each once. */
  lemma AllowedInGroupOrder()
    ensures forall n :: n in ALLOWED_IN_GROUP_ORDER <==> n in ALLOWED_CATEGORIES
    ensures NoDuplicates(ALLOWED_IN_GROUP_ORDER)
  {
  }

  /** `proc_json` as written: `pd.DataFrame([])` has no `category_name` column,
      so `groupby("category_name")` raises `KeyError` on an empty detection list. */
  function ProcJsonAsWritten(dets: seq<Detection>, key: string, dtKey: string): (r: Result<seq<StatRow>, ReconcileError>)
    ensures r.Err? <==> dets == []
    ensures r.Ok? ==> r.value == JsonRows(dets, dtKey)
  {
    if dets == [] then Err(NoCategoryColumn(key)) else Ok(JsonRows(dets, dtKey))
  }

  /** A frame with no detections (sidecar `[]`) makes the code as written raise,
      while the intended behaviour writes no category row for it. */
  lemma EmptySidecarRaisesAsWritten(key: string, dtKey: string)
    ensures ProcJsonAsWritten([], key, dtKey) == Err(NoCategoryColumn(key))
    ensures JsonRows([], dtKey) == []
  {
    NoDetectionsNoRows(ALLOWED_IN_GROUP_ORDER, dtKey);
  }

  lemma {:induction false} NoDetectionsNoRows(names: seq<string>, dtKey: string)
    ensures RowsFor(names, [], dtKey) == []
  {
    if names != [] {
      NoDetectionsNoRows(names[1..], dtKey);
    }
  }

  /** `put_item` replaces the row with the same key, whatever was there. */
  function ApplyPuts(rows: map<(string, string), StatRow>, puts: seq<StatRow>): map<(string, string), StatRow> {
    if puts == [] then rows
    else ApplyPuts(rows, puts[..|puts| - 1])[RowKey(puts[|puts| - 1]) := puts[|puts| - 1]]
  }

  lemma ApplyPutsSnoc(rows: map<(string, string), StatRow>, puts: seq<StatRow>, row: StatRow)
    ensures ApplyPuts(rows, puts + [row]) == ApplyPuts(rows, puts)[RowKey(row) := row]
  {
    assert (puts + [row])[..|puts|] == puts;
  }

  lemma {:induction false} ApplyPutsAppend(rows: map<(string, string), StatRow>, xs: seq<StatRow>, ys: seq<StatRow>)
    ensures ApplyPuts(rows, xs + ys) == ApplyPuts(ApplyPuts(rows, xs), ys)
    decreases |ys|
  {
    if ys == [] {
      assert xs + ys == xs;
    } else {
      assert (xs + ys)[..|xs + ys| - 1] == xs + ys[..|ys| - 1];
      ApplyPutsAppend(rows, xs, ys[..|ys| - 1]);
    }
  }

  /** The table after a sequence of puts is the old table overridden by the
      last row written under each key. */
  lemma {:induction false} ApplyPutsOverride(rows: map<(string, string), StatRow>, puts: seq<StatRow>)
    ensures ApplyPuts(rows, puts) == rows + ApplyPuts(map[], puts)
  {
    if puts != [] {
      ApplyPutsOverride(rows, puts[..|puts| - 1]);
    }
  }

  /** Writing the same rows twice leaves the table as writing them once. */
  lemma ApplyPutsIdempotent(rows: map<(string, string), StatRow>, puts: seq<StatRow>)
    ensures ApplyPuts(ApplyPuts(rows, puts), puts) == ApplyPuts(rows, puts)
  {
    var last := ApplyPuts(map[], puts);
    ApplyPutsOverride(rows, puts);
    ApplyPutsOverride(rows + last, puts);
    assert (rows + last) + last == rows + last;
  }

  /** The DynamoDB statistics table. */
  class StatsTable {
    var rows: map<(string, string), StatRow>
    /** Every `put_item`, in order. */
    var puts: seq<StatRow>

    constructor (existing: map<(string, string), StatRow>)
      ensures rows == existing && puts == []
    {
      rows := existing;
      puts := [];
    }

    method PutItem(row: StatRow)
      modifies this
      ensures rows == old(rows)[RowKey(row) := row]
      ensures puts == old(puts) + [row]
    {
      rows := rows[RowKey(row) := row];
      puts := puts + [row];
    }
  }

  /** The rows of the group `name`: its aggregate if it has any detection. */
  function GroupRows(dets: seq<Detection>, name: string, dtKey: string): seq<StatRow> {
    if CountOf(dets, name) > 0 then [GroupRow(dets, name, dtKey)] else []
  }

  /** `proc_json`'s loop: the groups in order, allowed ones written. */
  method ProcJson(table: StatsTable, dets: seq<Detection>, dtKey: string)
    modifies table
    ensures table.puts == old(table.puts) + JsonRows(dets, dtKey)
    ensures table.rows == ApplyPuts(old(table.rows), JsonRows(dets, dtKey))
  {
    PutGroups(table, ALLOWED_IN_GROUP_ORDER, dets, dtKey);
  }

  /** The loop over the group names `names`, in order. */
  method PutGroups(table: StatsTable, names: seq<string>, dets: seq<Detection>, dtKey: string)
    modifies table
    ensures table.puts == old(table.puts) + RowsFor(names, dets, dtKey)
    ensures table.rows == ApplyPuts(old(table.rows), RowsFor(names, dets, dtKey))
  {
    var i := 0;
    ghost var done: seq<StatRow> := [];
    assert names[0..] == names;
    while i < |names|
      invariant 0 <= i <= |names|
      invariant done + RowsFor(names[i..], dets, dtKey) == RowsFor(names, dets, dtKey)
      invariant table.puts == old(table.puts) + done
      invariant table.rows == ApplyPuts(old(table.rows), done)
    {
      ghost var w := GroupRows(dets, names[i], dtKey);
      PutGroup(table, dets, names[i], dtKey);
      ApplyPutsAppend(old(table.rows), done, w);
      AppendAssoc(old(table.puts), done, w);
      RowsForFrom(names, i, dets, dtKey);
      AppendAssoc(done, w, RowsFor(names[i + 1..], dets, dtKey));
      done := done + w;
      i := i + 1;
    }
    assert names[i..] == [];
    assert done + [] == done;
  }

  /** One iteration of `proc_json`'s loop. */
  method PutGroup(table: StatsTable, dets: seq<Detection>, name: string, dtKey: string)
    modifies table
    ensures table.puts == old(table.puts) + GroupRows(dets, name, dtKey)
    ensures table.rows == ApplyPuts(old(table.rows), GroupRows(dets, name, dtKey))
  {
    if CountOf(dets, name) > 0 {
      table.PutItem(GroupRow(dets, name, dtKey));
    }
  }

  /** `proc_jpeg`: the single `whole_image` row of a frame. */
  method ProcJpeg(table: StatsTable, brightness: real, dtKey: string)
    modifies table
    ensures table.puts == old(table.puts) + [WholeImageRow(dtKey, brightness)]
    ensures table.rows == old(table.rows)[(dtKey, WHOLE_IMAGE) := WholeImageRow(dtKey, brightness)]
  {
    table.PutItem(WholeImageRow(dtKey, brightness));
  }

  // ---------------------------------------------------------------------
  // The reconciliation pass (feed_db_with_preds)
  // ---------------------------------------------------------------------

  /** An object body as the pass reads it; the brightness of a frame is the
      mean of its decoded pixel values, computed outside the model. */
  datatype Body = JsonDocument(detections: seq<Detection>) | JpegImage(brightness: real) | Undecodable

  function LoadJson(contents: map<string, Body>, key: string): Result<seq<Detection>, ReconcileError> {
    if key !in contents then Err(MissingObject(key))
    else match contents[key]
      case JsonDocument(dets) => Ok(dets)
      case _ => Err(UnexpectedContent(key))
  }

  function LoadJpeg(contents: map<string, Body>, key: string): Result<real, ReconcileError> {
    if key !in contents then Err(MissingObject(key))
    else match contents[key]
      case JpegImage(b) => Ok(b)
      case _ => Err(UnexpectedContent(key))
  }

  /** What a part of the pass writes, and the error that stopped it, if any. */
  datatype Pass = Pass(writes: seq<StatRow>, failure: Option<ReconcileError>)

  /** One iteration of the second loop: the JSON rows, then the JPEG row. */
  function EntryPass(id: string, e: Entry, contents: map<string, Body>): (p: Pass)
    ensures GetFilename(id).Err? ==> p == Pass([], Some(GetFilename(id).error))
  {
    match GetFilename(id)
    case Err(err) => Pass([], Some(err))
    case Ok(dtKey) =>
      var json := JsonPass(dtKey, e, contents);
      if json.failure.Some? || e.jpegKey.None? then json
      else match LoadJpeg(contents, e.jpegKey.value)
        case Err(err) => Pass(json.writes, Some(err))
        case Ok(b) => Pass(json.writes + [WholeImageRow(dtKey, b)], None)
  }

  /** The sidecar half of an entry: its category rows, or the error loading it,
      or the `KeyError` that `proc_json` as written raises on an empty sidecar. */
  function JsonPass(dtKey: string, e: Entry, contents: map<string, Body>): Pass {
    if e.jsonKey.None? then Pass([], None)
    else match LoadJson(contents, e.jsonKey.value)
      case Err(err) => Pass([], Some(err))
      case Ok(dets) =>
        match ProcJsonAsWritten(dets, e.jsonKey.value, dtKey)
        case Err(err) => Pass([], Some(err))
        case Ok(rows) => Pass(rows, None)
  }

  /** An entry whose sidecar holds no detections stops the pass: nothing is
      written for it, not even its frame's `whole_image` row, and the error
      names the sidecar. */
  lemma EmptySidecarStopsEntry(id: string, e: Entry, contents: map<string, Body>)
    requires GetFilename(id).Ok?
    requires e.jsonKey.Some? && e.jsonKey.value in contents
    requires contents[e.jsonKey.value] == JsonDocument([])
    ensures EntryPass(id, e, contents) == Pass([], Some(NoCategoryColumn(e.jsonKey.value)))
  {
  }

  /** What one entry writes, all under its timestamp key: category rows first,
      then, if the entry has a frame and nothing failed, that frame's single
      `whole_image` row last. */
  lemma EntryPassShape(id: string, e: Entry, contents: map<string, Body>)
    requires GetFilename(id).Ok?
    ensures var p := EntryPass(id, e, contents);
            && (forall r :: r in p.writes ==> r.id == GetFilename(id).value)
            && (forall k :: 0 <= k < |p.writes| - 1 ==> p.writes[k].CategoryRow?)
            && (p.failure.None? && e.jpegKey.Some? ==>
                  LoadJpeg(contents, e.jpegKey.value).Ok? && |p.writes| > 0
                  && p.writes[|p.writes| - 1] == WholeImageRow(GetFilename(id).value, LoadJpeg(contents, e.jpegKey.value).value))
            && (e.jpegKey.None? ==> forall r :: r in p.writes ==> r.CategoryRow?)
  {
    var dtKey := GetFilename(id).value;
    if e.jsonKey.Some? && LoadJson(contents, e.jsonKey.value).Ok? {
      JsonRowsSpec(LoadJson(contents, e.jsonKey.value).value, dtKey);
    }
  }

  predicate Covers(g: Grouping) {
    forall id :: id in g.order ==> id in g.files
  }

  /** Entries processed in order, stopping at the first that fails. */
  function Chain(ps: seq<Pass>): Pass {
    if ps == [] then Pass([], None)
    else if ps[0].failure.Some? then ps[0]
    else
      var rest := Chain(ps[1..]);
      Pass(ps[0].writes + rest.writes, rest.failure)
  }

  /** A run fails exactly when one of its entries fails. */
  lemma {:induction false} ChainFailure(ps: seq<Pass>)
    ensures Chain(ps).failure.None? <==> forall j :: 0 <= j < |ps| ==> ps[j].failure.None?
  {
    if ps != [] {
      ChainFailure(ps[1..]);
      assert forall j :: 1 <= j < |ps| ==> ps[j] == ps[1..][j - 1];
    }
  }

  /** Everything a run of entries writes, in order. */
  function AllWrites(ps: seq<Pass>): seq<StatRow> {
    if ps == [] then [] else ps[0].writes + AllWrites(ps[1..])
  }

  /** A run with no failure writes every entry's rows, in order. */
  lemma {:induction false} ChainCompletes(ps: seq<Pass>)
    requires forall j :: 0 <= j < |ps| ==> ps[j].failure.None?
    ensures Chain(ps) == Pass(AllWrites(ps), None)
  {
    if ps != [] {
      ChainCompletes(ps[1..]);
    }
  }

  /** A run stops at the first entry that fails: what the earlier entries
      wrote stays, the failing entry's own partial writes stay, and no later
      entry is written. */
  lemma {:induction false} ChainStopsAtFirstFailure(ps: seq<Pass>, k: nat)
    requires k < |ps|
    requires forall j :: 0 <= j < k ==> ps[j].failure.None?
    requires ps[k].failure.Some?
    ensures Chain(ps) == Pass(AllWrites(ps[..k]) + ps[k].writes, ps[k].failure)
  {
    if k > 0 {
      ChainStopsAtFirstFailure(ps[1..], k - 1);
      assert ps[1..][..k - 1] == ps[..k][1..];
      assert ps[0].writes + (AllWrites(ps[..k][1..]) + ps[k].writes)
          == ps[0].writes + AllWrites(ps[..k][1..]) + ps[k].writes;
    }
  }

  lemma ChainFrom(ps: seq<Pass>, i: nat)
    requires i < |ps|
    ensures Chain(ps[i..]) == if ps[i].failure.Some? then ps[i]
                              else Pass(ps[i].writes + Chain(ps[i + 1..]).writes, Chain(ps[i + 1..]).failure)
  {
    assert ps[i..][0] == ps[i];
    assert ps[i..][1..] == ps[i + 1..];
  }

  /** One step of a run: a failing entry ends it, any other adds its writes. */
  lemma ChainStep(ps: seq<Pass>, i: nat, done: seq<StatRow>)
    requires i < |ps|
    requires Chain(ps) == Pass(done + Chain(ps[i..]).writes, Chain(ps[i..]).failure)
    ensures ps[i].failure.Some? ==> Chain(ps) == Pass(done + ps[i].writes, ps[i].failure)
    ensures ps[i].failure.None? ==>
              Chain(ps) == Pass((done + ps[i].writes) + Chain(ps[i + 1..]).writes, Chain(ps[i + 1..]).failure)
  {
    ChainFrom(ps, i);
    AppendAssoc(done, ps[i].writes, Chain(ps[i + 1..]).writes);
  }

  lemma AppendAssoc(a: seq<StatRow>, b: seq<StatRow>, c: seq<StatRow>)
    ensures a + (b + c) == a + b + c
  {
  }

  /** The outcome of every entry of a grouping, in insertion order. */
  function EntryPasses(g: Grouping, contents: map<string, Body>): (ps: seq<Pass>)
    requires Covers(g)
    ensures |ps| == |g.order|
    ensures forall j :: 0 <= j < |ps| ==> ps[j] == EntryPass(g.order[j], g.files[g.order[j]], contents)
  {
    seq(|g.order|, j requires 0 <= j < |g.order| => EntryPass(g.order[j], g.files[g.order[j]], contents))
  }

  /** The keys S3 lists under `prefix`, in listing order. */
  function ListUnder(bucketKeys: seq<string>, prefix: string): (r: seq<string>)
    ensures forall k :: k in r <==> k in bucketKeys && StartsWith(k, prefix)
  {
    if bucketKeys == [] then []
    else
      var k := bucketKeys[|bucketKeys| - 1];
      ListUnder(bucketKeys[..|bucketKeys| - 1], prefix) + (if StartsWith(k, prefix) then [k] else [])
  }

  /** The grouping of what is listed under the normalised prefix. */
  function ListedGrouping(bucketKeys: seq<string>, prefix: string): (g: Grouping)
    ensures Covers(g)
  {
    GroupKeysOrder(ListUnder(bucketKeys, NormalizePrefix(prefix)), Stem, KindOf);
    GroupKeys(ListUnder(bucketKeys, NormalizePrefix(prefix)), Stem, KindOf)
  }

  /** The whole pass over a bucket, as a function of the listing and the contents only. */
  function Reconcile(bucketKeys: seq<string>, contents: map<string, Body>, prefix: string): Pass {
    Chain(EntryPasses(ListedGrouping(bucketKeys, prefix), contents))
  }

  /** A pass completes only if every key listed under the prefix has a stem
      that carries a valid timestamp. */
  lemma CompletedPassHasTimestamps(bucketKeys: seq<string>, contents: map<string, Body>, prefix: string)
    requires Reconcile(bucketKeys, contents, prefix).failure.None?
    ensures forall k :: k in bucketKeys && StartsWith(k, NormalizePrefix(prefix)) ==> GetFilename(Stem(k)).Ok?
  {
    var keys := ListUnder(bucketKeys, NormalizePrefix(prefix));
    var g := ListedGrouping(bucketKeys, prefix);
    var ps := EntryPasses(g, contents);
    ChainFailure(ps);
    GroupKeysDomain(keys, Stem, KindOf);
    GroupKeysOrder(keys, Stem, KindOf);
    forall k | k in bucketKeys && StartsWith(k, NormalizePrefix(prefix))
      ensures GetFilename(Stem(k)).Ok?
    {
      assert k in keys;
      var id := Stem(k);
      assert id in g.files;
      assert id in g.order;
      var j :| 0 <= j < |g.order| && g.order[j] == id;
      assert ps[j] == EntryPass(id, g.files[id], contents);
      assert ps[j].failure.None?;
    }
  }

  /** Re-running the pass over an unchanged bucket leaves the table as the first
      run left it: every write is an overwrite keyed by (id, category_name). */
  lemma ReconcileIdempotent(rows: map<(string, string), StatRow>, bucketKeys: seq<string>,
                            contents: map<string, Body>, prefix: string)
    ensures var w := Reconcile(bucketKeys, contents, prefix).writes;
            ApplyPuts(ApplyPuts(rows, w), w) == ApplyPuts(rows, w)
  {
    ApplyPutsIdempotent(rows, Reconcile(bucketKeys, contents, prefix).writes);
  }

  /** One iteration of the second loop of `feed_db_with_preds`. */
  method ProcessEntry(table: StatsTable, id: string, e: Entry, contents: map<string, Body>)
    returns (failure: Option<ReconcileError>)
    modifies table
    ensures table.puts == old(table.puts) + EntryPass(id, e, contents).writes
    ensures table.rows == ApplyPuts(old(table.rows), EntryPass(id, e, contents).writes)
    ensures failure == EntryPass(id, e, contents).failure
  {
    var dtKey := GetFilename(id);
    if dtKey.Err? {
      return Some(dtKey.error);
    }
    failure := ProcessSidecar(table, dtKey.value, e, contents);
    if failure.Some? {
      return;
    }
    if e.jpegKey.Some? {
      var b := LoadJpeg(contents, e.jpegKey.value);
      if b.Err? {
        return Some(b.error);
      }
      ProcJpeg(table, b.value, dtKey.value);
      ApplyPutsSnoc(old(table.rows), JsonPass(dtKey.value, e, contents).writes, WholeImageRow(dtKey.value, b.value));
    }
  }

  /** The sidecar half of one iteration: `proc_json` on the loaded detections. */
  method ProcessSidecar(table: StatsTable, dtKey: string, e: Entry, contents: map<string, Body>)
    returns (failure: Option<ReconcileError>)
    modifies table
    ensures table.puts == old(table.puts) + JsonPass(dtKey, e, contents).writes
    ensures table.rows == ApplyPuts(old(table.rows), JsonPass(dtKey, e, contents).writes)
    ensures failure == JsonPass(dtKey, e, contents).failure
  {
    if e.jsonKey.Some? {
      var dets := LoadJson(contents, e.jsonKey.value);
      if dets.Err? {
        return Some(dets.error);
      }
      var rows := ProcJsonAsWritten(dets.value, e.jsonKey.value, dtKey);
      if rows.Err? {
        return Some(rows.error);
      }
      ProcJson(table, dets.value, dtKey);
    }
    return None;
  }

  /** `feed_db_with_preds(bucket, prefix)`: normalise the prefix, group the
      listing by stem, then process each entry in insertion order. The
      returned error is the exception that ends the pass, if any. */
  method FeedDbWithPreds(table: StatsTable, bucketKeys: seq<string>, contents: map<string, Body>, prefix: string)
    returns (failure: Option<ReconcileError>)
    modifies table
    ensures table.puts == old(table.puts) + Reconcile(bucketKeys, contents, prefix).writes
    ensures table.rows == ApplyPuts(old(table.rows), Reconcile(bucketKeys, contents, prefix).writes)
    ensures failure == Reconcile(bucketKeys, contents, prefix).failure
  {
    var p := NormalizePrefix(prefix);
    var g := GroupListing(ListUnder(bucketKeys, p), Stem, KindOf);
    assert g == ListedGrouping(bucketKeys, prefix);
    failure := ProcessEntries(table, g, contents);
  }

  /** The `i`-th iteration of the second loop. */
  method ProcessEntryAt(table: StatsTable, g: Grouping, contents: map<string, Body>, i: nat)
    returns (failure: Option<ReconcileError>)
    requires Covers(g) && i < |g.order|
    modifies table
    ensures table.puts == old(table.puts) + EntryPasses(g, contents)[i].writes
    ensures table.rows == ApplyPuts(old(table.rows), EntryPasses(g, contents)[i].writes)
    ensures failure == EntryPasses(g, contents)[i].failure
  {
    failure := ProcessEntry(table, g.order[i], g.files[g.order[i]], contents);
  }

  /** The second loop of `feed_db_with_preds`: each entry in insertion order,
      until one raises. */
  method ProcessEntries(table: StatsTable, g: Grouping, contents: map<string, Body>)
    returns (failure: Option<ReconcileError>)
    requires Covers(g)
    modifies table
    ensures table.puts == old(table.puts) + Chain(EntryPasses(g, contents)).writes
    ensures table.rows == ApplyPuts(old(table.rows), Chain(EntryPasses(g, contents)).writes)
    ensures failure == Chain(EntryPasses(g, contents)).failure
  {
    ghost var ps := EntryPasses(g, contents);
    ghost var done: seq<StatRow> := [];
    assert ps[0..] == ps;
    var i := 0;
    while i < |g.order|
      invariant 0 <= i <= |g.order|
      invariant Chain(ps) == Pass(done + Chain(ps[i..]).writes, Chain(ps[i..]).failure)
      invariant table.puts == old(table.puts) + done
      invariant table.rows == ApplyPuts(old(table.rows), done)
    {
      ChainStep(ps, i, done);
      ghost var w := ps[i].writes;
      var f := ProcessEntryAt(table, g, contents, i);
      ApplyPutsAppend(old(table.rows), done, w);
      AppendAssoc(old(table.puts), done, w);
      if f.Some? {
        return f;
      }
      done := done + w;
      i := i + 1;
    }
    assert ps[i..] == [];
    assert Chain(ps).writes == done + [] == done;
    return None;
  }
}
