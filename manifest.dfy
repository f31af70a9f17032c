/** Reconciliation of an eJP submission's file manifest (the `files` section of the
    article XML) with the contents of its zip archive, as done by
    `elifecleaner/parse.py`.

    The archive is given as its asset map: pairs of (path inside the zip, local path)
    in the map's iteration order. */
module Manifest {
  import opened Wrappers
  import opened Strings
  import opened Seqs
  import opened Xml

  /** A `custom-meta` record: each key is present only when the child tag exists, and
      then holds that tag's text (which may be `None`). */
  datatype CustomMeta = CustomMeta(metaName: Option<Option<string>>, metaValue: Option<Option<string>>)

  /** A manifest record built by `file_list`: `file_type` and `id` are always present
      (possibly `None`); `upload_file_nm` only when the child tag exists. */
  datatype FileRecord = FileRecord(
    fileType: Option<string>,
    id: Option<string>,
    uploadFileNm: Option<Option<string>>,
    customMeta: seq<CustomMeta>)

  /** `d.get(key)` on an optional key holding an optional value. */
  function Get(v: Option<Option<string>>): Option<string> {
    if v.Some? then v.value else None
  }

  function UploadName(f: FileRecord): Option<string> {
    Get(f.uploadFileNm)
  }

  /** `path.split("/")[-1]`. */
  function Basename(path: string): string {
    AfterLast(path, '/')
  }

  /** The basenames of the asset map's keys, in map order. */
  function AssetBasenames(assets: seq<(string, string)>): (r: seq<string>)
    ensures |r| == |assets| && forall k :: 0 <= k < |assets| ==> r[k] == Basename(assets[k].0)
  {
    seq(|assets|, k requires 0 <= k < |assets| => Basename(assets[k].0))
  }

  // ---------------------------------------------------------------- missing files

  /** `name not in keys` for a manifest name that may be `None`. */
  predicate NotListed(keys: seq<string>, name: Option<string>) {
    !(name.Some? && name.value in keys)
  }

  function UploadNames(files: seq<FileRecord>): (r: seq<Option<string>>)
    ensures |r| == |files| && forall k :: 0 <= k < |files| ==> r[k] == UploadName(files[k])
  {
    seq(|files|, k requires 0 <= k < |files| => UploadName(files[k]))
  }

  /** The manifest's upload names that are not the basename of any archive entry, in
      manifest order, duplicates and `None`s included. */
  function MissingFiles(files: seq<FileRecord>, assets: seq<(string, string)>): (r: seq<Option<string>>)
    ensures |r| <= |files|
  {
    var keys := AssetBasenames(assets);
    Filter(UploadNames(files), n => NotListed(keys, n))
  }

  /** `find_missing_files`. */
  method FindMissingFiles(files: seq<FileRecord>, assets: seq<(string, string)>) returns (missing: seq<Option<string>>)
    ensures missing == MissingFiles(files, assets)
  {
    var keys := AssetBasenames(assets);
    missing := [];
    var i := 0;
    while i < |files|
      invariant 0 <= i <= |files|
      invariant missing == MissingFiles(files[..i], assets)
    {
      var name := UploadName(files[i]);
      MissingFilesSnoc(files, assets, i);
      if !(name.Some? && name.value in keys) {
        missing := missing + [name];
      }
      i := i + 1;
    }
    assert files[..i] == files;
  }

  lemma {:induction false} MissingFilesSnoc(files: seq<FileRecord>, assets: seq<(string, string)>, i: nat)
    requires i < |files|
    ensures MissingFiles(files[..i + 1], assets)
            == MissingFiles(files[..i], assets)
               + (if NotListed(AssetBasenames(assets), UploadName(files[i])) then [UploadName(files[i])] else [])
  {
    assert UploadNames(files[..i + 1])[..i] == UploadNames(files[..i]);
  }

  /** A name is reported exactly when it is not the basename of an archive entry: every
      reported name is unlisted, and every file whose name is unlisted is reported. */
  lemma {:induction false} MissingFilesExact(files: seq<FileRecord>, assets: seq<(string, string)>, k: nat)
    requires k < |files|
    ensures UploadName(files[k]) in MissingFiles(files, assets)
            <==> NotListed(AssetBasenames(assets), UploadName(files[k]))
  {
    var keys := AssetBasenames(assets);
    FilterIn(UploadNames(files), n => NotListed(keys, n));
    if NotListed(keys, UploadName(files[k])) {
      assert UploadNames(files)[k] == UploadName(files[k]);
      FilterKeeps(UploadNames(files), n => NotListed(keys, n), UploadName(files[k]));
    }
  }

  /** Manifest order is kept and duplicates are not merged: the result for two
      manifests one after the other is the two results one after the other. */
  lemma {:induction false} MissingFilesAppend(a: seq<FileRecord>, b: seq<FileRecord>, assets: seq<(string, string)>)
    ensures MissingFiles(a + b, assets) == MissingFiles(a, assets) + MissingFiles(b, assets)
  {
    var keys := AssetBasenames(assets);
    assert UploadNames(a + b) == UploadNames(a) + UploadNames(b);
    FilterAppend(UploadNames(a), UploadNames(b), n => NotListed(keys, n));
  }

  /** When every upload name is an archive basename nothing is missing. */
  lemma {:induction false} MissingFilesNone(files: seq<FileRecord>, assets: seq<(string, string)>)
    requires forall k :: 0 <= k < |files| ==> !NotListed(AssetBasenames(assets), UploadName(files[k]))
    ensures MissingFiles(files, assets) == []
  {
    var keys := AssetBasenames(assets);
    FilterNone(UploadNames(files), n => NotListed(keys, n));
  }

  // ---------------------------------------------------------------- the article XML file

  /** The key matches `^(.*)/\1.xml$` under Python's `re.match`: `D/D` followed by any
      character but a newline and `xml`, with `D` free of newlines, optionally followed
      by one final newline (which `$` accepts). The length of the key fixes `D`. */
  predicate IsArticleXmlKey(key: string) {
    var body := if |key| > 0 && key[|key| - 1] == '\n' then key[..|key| - 1] else key;
    |body| >= 5 && (|body| - 5) % 2 == 0 &&
    var n := (|body| - 5) / 2;
    var d := body[..n];
    body[n] == '/' && body[n + 1..2 * n + 1] == d && body[2 * n + 1] != '\n'
    && body[2 * n + 2..] == "xml" && forall k :: 0 <= k < n ==> d[k] != '\n'
  }

  /** Every key of the form `D/D?xml` matches, for any newline-free `D` and any single
      character `?` other than a newline. */
  lemma {:induction false} ArticleXmlKeyOf(d: string, c: char)
    requires c != '\n' && forall k :: 0 <= k < |d| ==> d[k] != '\n'
    ensures IsArticleXmlKey(d + "/" + d + [c] + "xml")
  {
    var key := d + "/" + d + [c] + "xml";
    var n := |d|;
    assert key[|key| - 1] == 'l';
    assert key[..n] == d;
    assert key[n + 1..2 * n + 1] == d;
    assert key[2 * n + 2..] == "xml";
  }

  /** Only keys of that form match. */
  lemma {:induction false} ArticleXmlKeyForm(key: string)
    requires IsArticleXmlKey(key)
    ensures exists d: string, c: char ::
              c != '\n' && (key == d + "/" + d + [c] + "xml" || key == d + "/" + d + [c] + "xml\n")
  {
    var body := if |key| > 0 && key[|key| - 1] == '\n' then key[..|key| - 1] else key;
    var n := (|body| - 5) / 2;
    var d := body[..n];
    var c := body[2 * n + 1];
    assert body == d + "/" + d + [c] + "xml";
    if body != key {
      assert key == body + "\n";
    }
  }

  /** `X/X.xml` matches, and so does `X/X_xml`, since the `.` is not escaped. */
  lemma {:induction false} ArticleXmlKeyExamples()
    ensures IsArticleXmlKey("X/X.xml")
    ensures IsArticleXmlKey("X/X_xml")
  {
    ArticleXmlKeyOf("X", '.');
    assert "X" + "/" + "X" + ['.'] + "xml" == "X/X.xml";
    ArticleXmlKeyOf("X", '_');
    assert "X" + "/" + "X" + ['_'] + "xml" == "X/X_xml";
  }

  /** The directory and the file name must be the same text, and nothing may follow
      `xml`. */
  lemma {:induction false} ArticleXmlKeyRejects()
    ensures !IsArticleXmlKey("X/Y.xml")
    ensures !IsArticleXmlKey("X/X.xml.zip")
  {
    var bad := "X/Y.xml";
    assert bad[2..3] == "Y" && bad[..1] == "X";
    var zip := "X/X.xml.zip";
    assert zip[3] == '.';
  }

  function IsXmlAsset(a: (string, string)): bool {
    IsArticleXmlKey(a.0)
  }

  /** The first entry of the asset map whose key is the article XML file. */
  function FirstXmlAsset(assets: seq<(string, string)>): Option<(string, string)> {
    First(assets, IsXmlAsset)
  }

  /** `article_xml_asset`: `None` for an empty map, else the first article XML entry. */
  method ArticleXmlAsset(assets: seq<(string, string)>) returns (r: Option<(string, string)>)
    ensures r == FirstXmlAsset(assets)
    ensures assets == [] ==> r.None?
  {
    if assets == [] {
      return None;
    }
    r := FindFirst(assets, IsXmlAsset);
  }

  // ---------------------------------------------------------------- extra files

  /** The truthy upload names of the manifest. */
  function ManifestNames(files: seq<FileRecord>): (r: seq<string>)
    ensures forall k :: 0 <= k < |files| && Truthy(UploadName(files[k])) ==> UploadName(files[k]).value in r
    ensures forall n :: n in r ==> n != "" && exists k :: 0 <= k < |files| && UploadName(files[k]) == Some(n)
  {
    if files == [] then []
    else
      var last := UploadName(files[|files| - 1]);
      var r := ManifestNames(files[..|files| - 1]) + (if Truthy(last) then [last.value] else []);
      assert forall k :: 0 <= k < |files| - 1 ==> files[k] == files[..|files| - 1][k];
      r
  }

  /** The basename of the article XML file, when the archive has one. */
  function XmlName(assets: seq<(string, string)>): Option<string> {
    var x := FirstXmlAsset(assets);
    if x.Some? then Some(Basename(x.value.0)) else None
  }

  /** A basename that is neither the article XML file's nor among `names`. */
  function Unlisted(names: seq<string>, xml: Option<string>): string -> bool {
    b => Some(b) != xml && b !in names
  }

  /** The basenames, in map order, that are neither the article XML file nor a
      truthy manifest name. */
  function ExtraFiles(files: seq<FileRecord>, assets: seq<(string, string)>): (r: seq<string>)
    ensures |r| <= |assets|
  {
    Filter(AssetBasenames(assets), Unlisted(ManifestNames(files), XmlName(assets)))
  }

  /** `find_extra_files`. */
  method FindExtraFiles(files: seq<FileRecord>, assets: seq<(string, string)>) returns (extra: seq<string>)
    ensures extra == ExtraFiles(files, assets)
  {
    var keys := AssetBasenames(assets);
    var names := ManifestNames(files);
    var xmlName := None;
    var xmlAsset := ArticleXmlAsset(assets);
    if xmlAsset.Some? {
      xmlName := Some(Basename(xmlAsset.value.0));
    }
    assert xmlName == XmlName(assets);
    extra := UnlistedKeys(keys, names, xmlName);
  }

  /** The loop of `find_extra_files`: skip the article XML file's name, keep the names
      the manifest does not list. */
  method UnlistedKeys(keys: seq<string>, names: seq<string>, xmlName: Option<string>) returns (extra: seq<string>)
    ensures extra == Filter(keys, Unlisted(names, xmlName))
  {
    extra := [];
    var i := 0;
    while i < |keys|
      invariant 0 <= i <= |keys|
      invariant extra == Filter(keys[..i], Unlisted(names, xmlName))
    {
      assert keys[..i + 1][..i] == keys[..i];
      if Some(keys[i]) == xmlName {
        i := i + 1;
        continue;
      }
      if keys[i] !in names {
        extra := extra + [keys[i]];
      }
      i := i + 1;
    }
    assert keys[..i] == keys;
  }

  /** A basename is reported exactly when it is not the article XML file's and no
      truthy manifest name equals it. */
  lemma {:induction false} ExtraFilesExact(files: seq<FileRecord>, assets: seq<(string, string)>, k: nat)
    requires k < |assets|
    ensures Basename(assets[k].0) in ExtraFiles(files, assets)
            <==> Some(Basename(assets[k].0)) != XmlName(assets)
                 && forall j :: 0 <= j < |files| ==> UploadName(files[j]) != Some(Basename(assets[k].0)) || Basename(assets[k].0) == ""
  {
    var names := ManifestNames(files);
    var xml := XmlName(assets);
    var b := Basename(assets[k].0);
    FilterIn(AssetBasenames(assets), Unlisted(names, xml));
    if Some(b) != xml && b !in names {
      assert AssetBasenames(assets)[k] == b;
      FilterKeeps(AssetBasenames(assets), Unlisted(names, xml), b);
    }
  }

  /** The article XML file is never reported as extra. */
  lemma {:induction false} ExtraFilesNotXml(files: seq<FileRecord>, assets: seq<(string, string)>)
    requires FirstXmlAsset(assets).Some?
    ensures Basename(FirstXmlAsset(assets).value.0) !in ExtraFiles(files, assets)
  {
    FilterIn(AssetBasenames(assets), Unlisted(ManifestNames(files), XmlName(assets)));
  }

  // ---------------------------------------------------------------- detail values

  /** The custom-meta's `meta_name` is truthy and one of `metaNames`. */
  function NamedIn(metaNames: seq<string>): CustomMeta -> bool {
    (cm: CustomMeta) => Truthy(Get(cm.metaName)) && Get(cm.metaName).value in metaNames
  }

  /** The first custom-meta whose truthy `meta_name` is one of `metaNames`. */
  function FirstMeta(cms: seq<CustomMeta>, metaNames: seq<string>): Option<CustomMeta> {
    First(cms, NamedIn(metaNames))
  }

  /** A file contributes when its type is one of `fileTypes` and its custom-meta list
      is not empty. */
  predicate Eligible(f: FileRecord, fileTypes: seq<string>) {
    f.fileType.Some? && f.fileType.value in fileTypes && f.customMeta != []
  }

  /** What one file contributes: `(file_type, meta_value)` of its first custom-meta
      with a listed name, or nothing. */
  function DetailOf(f: FileRecord, fileTypes: seq<string>, metaNames: seq<string>): (r: seq<(string, Option<string>)>)
    ensures |r| <= 1
    ensures |r| == 1 <==> Eligible(f, fileTypes) && FirstMeta(f.customMeta, metaNames).Some?
    ensures |r| == 1 ==> r[0] == (f.fileType.value, Get(FirstMeta(f.customMeta, metaNames).value.metaValue))
  {
    if Eligible(f, fileTypes) then
      match FirstMeta(f.customMeta, metaNames)
      case Some(cm) => [(f.fileType.value, Get(cm.metaValue))]
      case None => []
    else []
  }

  function DetailFn(fileTypes: seq<string>, metaNames: seq<string>): FileRecord -> seq<(string, Option<string>)> {
    f => DetailOf(f, fileTypes, metaNames)
  }

  function DetailValues(files: seq<FileRecord>, fileTypes: seq<string>, metaNames: seq<string>): seq<(string, Option<string>)> {
    FlatMap(files, DetailFn(fileTypes, metaNames))
  }

  /** Each file contributes at most one pair, and only a listed file type does. */
  lemma {:induction false} DetailValuesBound(files: seq<FileRecord>, fileTypes: seq<string>, metaNames: seq<string>)
    ensures |DetailValues(files, fileTypes, metaNames)| <= |files|
    ensures forall p :: p in DetailValues(files, fileTypes, metaNames) ==> p.0 in fileTypes
  {
    if files != [] {
      DetailValuesBound(files[..|files| - 1], fileTypes, metaNames);
    }
  }

  lemma {:induction false} DetailValuesAppend(a: seq<FileRecord>, b: seq<FileRecord>, fileTypes: seq<string>, metaNames: seq<string>)
    ensures DetailValues(a + b, fileTypes, metaNames) == DetailValues(a, fileTypes, metaNames) + DetailValues(b, fileTypes, metaNames)
  {
    FlatMapAppend(a, b, DetailFn(fileTypes, metaNames));
  }

  lemma {:induction false} DetailValuesSnoc(files: seq<FileRecord>, i: nat, fileTypes: seq<string>, metaNames: seq<string>)
    requires i < |files|
    ensures DetailValues(files[..i + 1], fileTypes, metaNames)
            == DetailValues(files[..i], fileTypes, metaNames) + DetailOf(files[i], fileTypes, metaNames)
  {
    assert files[..i + 1][..i] == files[..i];
  }

  /** `find_file_detail_values`: the inner loop stops at the first matching
      custom-meta. */
  method FindFileDetailValues(files: seq<FileRecord>, fileTypes: seq<string>, metaNames: seq<string>)
    returns (details: seq<(string, Option<string>)>)
    ensures details == DetailValues(files, fileTypes, metaNames)
  {
    details := [];
    var i := 0;
    while i < |files|
      invariant 0 <= i <= |files|
      invariant details == DetailValues(files[..i], fileTypes, metaNames)
    {
      var f := files[i];
      DetailValuesSnoc(files, i, fileTypes, metaNames);
      if f.fileType.Some? && f.fileType.value in fileTypes && f.customMeta != [] {
        var j := 0;
        while j < |f.customMeta|
          invariant 0 <= j <= |f.customMeta|
          invariant details == DetailValues(files[..i], fileTypes, metaNames)
          invariant forall k :: 0 <= k < j ==> !NamedIn(metaNames)(f.customMeta[k])
        {
          var cm := f.customMeta[j];
          var name := Get(cm.metaName);
          if name.Some? && name.value != "" && name.value in metaNames {
            FirstAt(f.customMeta, NamedIn(metaNames), j);
            details := details + [(f.fileType.value, Get(cm.metaValue))];
            break;
          }
          j := j + 1;
        }
      }
      i := i + 1;
    }
    assert files[..i] == files;
  }

  // ---------------------------------------------------------------- figure number sequence

  /** `str(n)` put in place of `(\d+)` in the rule's pattern `Figure (\d+)`. */
  function FigureLabel(n: nat): (r: string)
    ensures StartsWith(r, "Figure ") && |r| > 7 && AllDigits(r[7..])
  {
    "Figure " + NatToString(n)
  }

  /** The longest run of ASCII digits at the start of `s`. */
  function LeadingDigits(s: string): (r: string)
    ensures |r| <= |s| && r == s[..|r|] && AllDigits(r)
    ensures |r| < |s| ==> !IsDigit(s[|r|])
  {
    if s == [] || !IsDigit(s[0]) then [] else [s[0]] + LeadingDigits(s[1..])
  }

  /** `re.match(r"Figure (\d+)", v)` and `int(match.group(1))`: the text must start with
      `Figure ` and at least one digit, and the number is the whole digit run. */
  function MatchFigure(v: string): (r: Option<nat>)
    ensures r.Some? <==> StartsWith(v, "Figure ") && |v| > 7 && IsDigit(v[7])
  {
    if StartsWith(v, "Figure ") && |v| > 7 && IsDigit(v[7]) then Some(DigitsValue(LeadingDigits(v[7..]))) else None
  }

  lemma {:induction false} LeadingDigitsAll(s: string)
    requires AllDigits(s)
    ensures LeadingDigits(s) == s
  {
    if s != [] {
      LeadingDigitsAll(s[1..]);
    }
  }

  /** Parsing a label back gives its number. */
  lemma {:induction false} MatchFigureLabel(n: nat)
    ensures MatchFigure(FigureLabel(n)) == Some(n)
  {
    var text := FigureLabel(n);
    assert text[7..] == NatToString(n);
    LeadingDigitsAll(NatToString(n));
    DigitsValueOfNatToString(n);
  }

  /** The numbers the rule matches, in order of the values; a `None` value raises,
      since `re.match` is given it. */
  function FigureNumbers(values: seq<Option<string>>): (r: Outcome<seq<nat>>)
    ensures r.Raised? <==> exists k :: 0 <= k < |values| && values[k].None?
    ensures r.Raised? ==> r == Raised("TypeError")
  {
    if values == [] then Returned([])
    else
      var init := FigureNumbers(values[..|values| - 1]);
      var last := values[|values| - 1];
      assert forall k :: 0 <= k < |values| - 1 ==> values[k] == values[..|values| - 1][k];
      if init.Raised? then init
      else if last.None? then Raised("TypeError")
      else
        match MatchFigure(last.value)
        case Some(n) => Returned(init.value + [n])
        case None => init
  }

  function Identity(n: nat): nat { n }

  /** The label of each number, in order. */
  function Labels(numbers: seq<nat>): (r: seq<string>)
    ensures |r| == |numbers| && forall k :: 0 <= k < |numbers| ==> r[k] == FigureLabel(numbers[k])
  {
    seq(|numbers|, k requires 0 <= k < |numbers| => FigureLabel(numbers[k]))
  }

  /** The first number of each gap in the ascending list `s`, one per adjacent pair
      `p, q` with `q > p + 1`, except directly after a 0, which Python's
      `if prev_number:` takes for "no previous number". */
  function Gaps(s: seq<nat>): (r: seq<nat>)
    ensures r == [] || |r| < |s|
  {
    if |s| < 2 then []
    else
      var p := s[|s| - 2];
      Gaps(s[..|s| - 1]) + (if p != 0 && s[|s| - 1] > p + 1 then [p + 1] else [])
  }

  /** A number is reported exactly when it follows a nonzero number that is not
      followed by itself or the next one. */
  lemma {:induction false} GapsExact(s: seq<nat>, n: nat)
    ensures n in Gaps(s) <==> exists i :: 0 <= i < |s| - 1 && s[i] != 0 && s[i + 1] > s[i] + 1 && n == s[i] + 1
  {
    if |s| >= 2 {
      var s' := s[..|s| - 1];
      GapsExact(s', n);
      assert forall i :: 0 <= i < |s'| ==> s'[i] == s[i];
      var i := |s| - 2;
      if s[i] != 0 && s[i + 1] > s[i] + 1 && n == s[i] + 1 {
        assert n in Gaps(s);
      }
    }
  }

  /** In an ascending list a reported number is never one of the list's numbers. */
  lemma {:induction false} GapsAbsent(s: seq<nat>, n: nat)
    requires SortedBy(s, Identity) && n in Gaps(s)
    ensures n !in s
  {
    GapsExact(s, n);
    var i :| 0 <= i < |s| - 1 && s[i] != 0 && s[i + 1] > s[i] + 1 && n == s[i] + 1;
    forall j | 0 <= j < |s| ensures s[j] != n {
      if j <= i {
        assert Identity(s[j]) <= Identity(s[i]);
      } else {
        assert Identity(s[i + 1]) <= Identity(s[j]);
      }
    }
  }

  /** Consecutive numbers and repeats report nothing. */
  lemma {:induction false} GapsNone(s: seq<nat>)
    requires forall i :: 0 <= i < |s| - 1 ==> s[i + 1] <= s[i] + 1
    ensures Gaps(s) == []
  {
    if |s| >= 2 {
      GapsNone(s[..|s| - 1]);
    }
  }

  /** The result of `find_missing_value_by_sequence` for the figure rule. */
  function MissingBySequence(values: seq<Option<string>>): (r: Outcome<seq<string>>)
    ensures r.Raised? <==> exists k :: 0 <= k < |values| && values[k].None?
    ensures r.Raised? ==> r.exception == "TypeError"
  {
    match FigureNumbers(values)
    case Raised(e) => Raised(e)
    case Returned(numbers) =>
      Returned(Labels(Gaps(SortBy(numbers, Identity))))
  }

  /** `find_missing_value_by_sequence` with the figure rule's pattern: collects the
      numbers, sorts them, and walks them keeping the previous one. */
  method FindMissingValueBySequence(values: seq<Option<string>>) returns (r: Outcome<seq<string>>)
    ensures r == MissingBySequence(values)
  {
    var numbers := CollectFigureNumbers(values);
    if numbers.Raised? {
      return Raised(numbers.exception);
    }
    var sorted := SortBy(numbers.value, Identity);
    var missing := GapLabels(sorted);
    r := Returned(missing);
  }

  /** The first loop of `find_missing_value_by_sequence`: matches each value in turn. */
  method CollectFigureNumbers(values: seq<Option<string>>) returns (r: Outcome<seq<nat>>)
    ensures r == FigureNumbers(values)
  {
    var numbers := [];
    var i := 0;
    while i < |values|
      invariant 0 <= i <= |values|
      invariant FigureNumbers(values[..i]) == Returned(numbers)
    {
      assert values[..i + 1][..i] == values[..i];
      if values[i].None? {
        assert values == values[..i + 1] + values[i + 1..];
        FigureNumbersRaised(values[..i + 1], values[i + 1..]);
        return Raised("TypeError");
      }
      var m := MatchFigure(values[i].value);
      if m.Some? {
        numbers := numbers + [m.value];
      }
      i := i + 1;
    }
    assert values[..i] == values;
    r := Returned(numbers);
  }

  /** The second loop of `find_missing_value_by_sequence`: walks the sorted numbers
      keeping the previous one. */
  method GapLabels(sorted: seq<nat>) returns (missing: seq<string>)
    ensures missing == Labels(Gaps(sorted))
  {
    missing := [];
    var prev: Option<nat> := None;
    var j := 0;
    while j < |sorted|
      invariant 0 <= j <= |sorted|
      invariant prev == (if j == 0 then None else Some(sorted[j - 1]))
      invariant missing == Labels(Gaps(sorted[..j]))
    {
      var number := sorted[j];
      var expected: Option<nat> := None;
      if prev.Some? && prev.value != 0 {
        expected := Some(prev.value + 1);
      }
      assert sorted[..j + 1][..j] == sorted[..j];
      if expected.Some? && expected.value != 0 && number > expected.value {
        missing := missing + [FigureLabel(expected.value)];
      }
      prev := Some(number);
      j := j + 1;
    }
    assert sorted[..j] == sorted;
  }

  lemma {:induction false} FigureNumbersRaised(a: seq<Option<string>>, b: seq<Option<string>>)
    requires FigureNumbers(a).Raised?
    ensures FigureNumbers(a + b).Raised?
  {
    var k :| 0 <= k < |a| && a[k].None?;
    assert (a + b)[k].None?;
  }

  /** Values that are all figure labels give back their numbers. */
  lemma {:induction false} FigureNumbersOfLabels(numbers: seq<nat>)
    ensures FigureNumbers(LabelValues(numbers)) == Returned(numbers)
  {
    if numbers != [] {
      var init := numbers[..|numbers| - 1];
      var n := numbers[|numbers| - 1];
      FigureNumbersOfLabels(init);
      assert LabelValues(numbers)[..|numbers| - 1] == LabelValues(init);
      MatchFigureLabel(n);
      assert numbers == init + [n];
    }
  }

  function LabelValues(numbers: seq<nat>): (r: seq<Option<string>>)
    ensures |r| == |numbers| && forall k :: 0 <= k < |numbers| ==> r[k] == Some(FigureLabel(numbers[k]))
  {
    seq(|numbers|, k requires 0 <= k < |numbers| => Some(FigureLabel(numbers[k])))
  }

  /** For the labels of an ascending list the report is the labels of its gaps. */
  lemma {:induction false} MissingBySequenceOfLabels(numbers: seq<nat>)
    requires SortedBy(numbers, Identity)
    ensures MissingBySequence(LabelValues(numbers)) == Returned(Labels(Gaps(numbers)))
  {
    FigureNumbersOfLabels(numbers);
    SortBySorted(numbers, Identity);
  }

  /** `Figure 1`, `Figure 3` reports `Figure 2`. */
  lemma {:induction false} MissingBySequenceExample()
    ensures MissingBySequence([Some("Figure 1"), Some("Figure 3")]) == Returned(["Figure 2"])
  {
    var numbers: seq<nat> := [1, 3];
    LabelValuesOneThree();
    assert SortedBy(numbers, Identity);
    MissingBySequenceOfLabels(numbers);
    LabelsOfGapsOneThree();
  }

  lemma {:induction false} LabelValuesOneThree()
    ensures LabelValues([1, 3]) == [Some("Figure 1"), Some("Figure 3")]
  {
    assert FigureLabel(1) == "Figure 1" && FigureLabel(3) == "Figure 3";
  }

  lemma {:induction false} LabelsOfGapsOneThree()
    ensures Labels(Gaps([1, 3])) == ["Figure 2"]
  {
    var numbers: seq<nat> := [1, 3];
    assert Gaps(numbers) == [2];
    assert FigureLabel(2) == "Figure 2";
  }

  /** Only the first number of a gap is reported, and nothing is reported after 0. */
  lemma {:induction false} GapsExamples()
    ensures Gaps([1, 5]) == [2]
    ensures Gaps([0, 2]) == []
    ensures Gaps([1, 1, 2, 3]) == []
  {
    assert [0, 2][..1] == [0];
    GapsNone([1, 1, 2, 3]);
  }

  /** `find_missing_files_by_name`: the figure rule over the `Title` or
      `Figure number` custom-meta of `figure` files. */
  method FindMissingFilesByName(files: seq<FileRecord>) returns (r: Outcome<seq<string>>)
    ensures r == MissingBySequence(MetaValues(DetailValues(files, ["figure"], ["Title", "Figure number"])))
  {
    var details := FindFileDetailValues(files, ["figure"], ["Title", "Figure number"]);
    var values := seq(|details|, k requires 0 <= k < |details| => details[k].1);
    r := FindMissingValueBySequence(values);
  }

  function MetaValues(details: seq<(string, Option<string>)>): (r: seq<Option<string>>)
    ensures |r| == |details| && forall k :: 0 <= k < |details| ==> r[k] == details[k].1
  {
    seq(|details|, k requires 0 <= k < |details| => details[k].1)
  }

  // ---------------------------------------------------------------- file_list

  /** `./front/article-meta/files/file`. */
  const FilesPath: seq<Step> := [Child("front"), Child("article-meta"), Child("files"), Child("file")]

  /** The text of the first child named `name`: the outer `None` is "no such
      child". */
  function ChildText(e: Element, name: string): Option<Option<string>> {
    var named := Filter(e.children, HasTag(name));
    if named == [] then None else Some(named[0].text)
  }

  /** `tag = e.find(name)` and, when found, its text. */
  lemma {:induction false} ChildTextFind(e: Element, name: string)
    ensures ChildText(e, name) == match FindElement(e, [Child(name)])
                                  case Some(x) => Some(x.text)
                                  case None => None
  {
    FindAllChild(e, name);
  }

  function CustomMetaOf(cm: Element): CustomMeta {
    CustomMeta(ChildText(cm, "meta-name"), ChildText(cm, "meta-value"))
  }

  /** The record `file_list` builds for one `file` tag. */
  function FileRecordOf(f: Element): FileRecord {
    var metas := Filter(f.children, HasTag("custom-meta"));
    FileRecord(
      GetAttr(f.attrs, "file-type"),
      GetAttr(f.attrs, "id"),
      ChildText(f, "upload_file_nm"),
      seq(|metas|, k requires 0 <= k < |metas| => CustomMetaOf(metas[k])))
  }

  /** A record has one custom-meta entry per tag `findall("custom-meta")` returns,
      in order. */
  lemma {:induction false} FileRecordOfCustomMeta(f: Element)
    ensures |FileRecordOf(f).customMeta| == |FindAll(f, [Child("custom-meta")])|
    ensures forall k :: 0 <= k < |FileRecordOf(f).customMeta| ==>
              FileRecordOf(f).customMeta[k] == CustomMetaOf(FindAll(f, [Child("custom-meta")])[k])
  {
    FindAllChild(f, "custom-meta");
  }

  /** `file_list`: one record per `file` tag under `front/article-meta/files`, in
      document order. */
  method FileList(root: Element) returns (files: seq<FileRecord>)
    ensures |files| == |FindAll(root, FilesPath)|
    ensures forall k :: 0 <= k < |files| ==> files[k] == FileRecordOf(FindAll(root, FilesPath)[k])
  {
    var tags := FindAll(root, FilesPath);
    files := [];
    var i := 0;
    while i < |tags|
      invariant 0 <= i <= |tags|
      invariant |files| == i && forall k :: 0 <= k < i ==> files[k] == FileRecordOf(tags[k])
    {
      var detail := FileDetail(tags[i]);
      files := files + [detail];
      i := i + 1;
    }
  }

  /** The body of `file_list`'s loop: the record of one `file` tag. */
  method FileDetail(tag: Element) returns (r: FileRecord)
    ensures r == FileRecordOf(tag)
  {
    var fileType := GetAttr(tag.attrs, "file-type");
    var id := GetAttr(tag.attrs, "id");
    var upload := ChildText(tag, "upload_file_nm");
    var metaTags := FindAll(tag, [Child("custom-meta")]);
    FindAllChild(tag, "custom-meta");
    var metas := [];
    var j := 0;
    while j < |metaTags|
      invariant 0 <= j <= |metaTags|
      invariant |metas| == j && forall k :: 0 <= k < j ==> metas[k] == CustomMetaOf(metaTags[k])
    {
      metas := metas + [CustomMeta(ChildText(metaTags[j], "meta-name"), ChildText(metaTags[j], "meta-value"))];
      j := j + 1;
    }
    r := FileRecord(fileType, id, upload, metas);
  }

  // ---------------------------------------------------------------- figure_list

  /** `file_extension`: the lower-cased text after the last `.`, or `None` when the
      name is `None`, empty or has no `.`. */
  function FileExtension(name: Option<string>): (r: Option<string>)
    ensures r.None? <==> !Truthy(name) || forall k :: 0 <= k < |name.value| ==> name.value[k] != '.'
    ensures r.Some? ==> forall k :: 0 <= k < |r.value| ==> r.value[k] != '.'
  {
    if Truthy(name) && LastIndexOf(name.value, '.').Some? then Some(LowerAscii(AfterLast(name.value, '.'))) else None
  }

  /** The extension of `base.ext` is `ext` lower-cased, whatever `base` holds. */
  lemma {:induction false} FileExtensionOf(base: string, ext: string)
    requires forall k :: 0 <= k < |ext| ==> ext[k] != '.'
    ensures FileExtension(Some(base + "." + ext)) == Some(LowerAscii(ext))
  {
    var name := base + "." + ext;
    assert name == base + ['.'] + ext;
    assert name[|base|] == '.';
    AfterLastOf(base, '.', ext);
  }

  /** One entry of `figure_list`: `file_name` and `file_path` are the key and local
      path of the first asset whose local path ends with the upload name, and `pages`
      is set only for a `pdf`. */
  datatype FigureRecord = FigureRecord(
    uploadFileNm: Option<string>,
    extension: Option<string>,
    asset: Option<(string, string)>,
    pages: Option<Option<nat>>)

  function PathEndsWith(name: string): ((string, string)) -> bool {
    (a: (string, string)) => EndsWith(a.1, name)
  }

  predicate IsFigure(f: FileRecord) {
    f.fileType == Some("figure")
  }

  /** `pdf_page_count(path)`: `None` for a missing or empty path. */
  function PageCount(path: Option<string>, countPages: string -> nat): Option<nat> {
    if Truthy(path) then Some(countPages(path.value)) else None
  }

  /** The entry for one figure file. With no upload name the first `endswith` test
      raises, so this raises whenever the asset map is not empty. */
  function FigureOf(f: FileRecord, assets: seq<(string, string)>, countPages: string -> nat): (r: Outcome<FigureRecord>)
    ensures r.Raised? <==> UploadName(f).None? && assets != []
    ensures r.Returned? ==> r.value.uploadFileNm == UploadName(f) && r.value.extension == FileExtension(UploadName(f))
    ensures r.Returned? ==> (r.value.pages.Some? <==> FileExtension(UploadName(f)) == Some("pdf"))
    ensures r.Returned? && UploadName(f).Some? ==> r.value.asset == First(assets, PathEndsWith(UploadName(f).value))
  {
    var name := UploadName(f);
    var extension := FileExtension(name);
    if name.None? && assets != [] then Raised("TypeError")
    else
      var asset := if name.Some? then First(assets, PathEndsWith(name.value)) else None;
      var path := if asset.Some? then Some(asset.value.1) else None;
      Returned(FigureRecord(name, extension, asset, if extension == Some("pdf") then Some(PageCount(path, countPages)) else None))
  }

  /** The figure files' entries in manifest order, or the first raise. */
  function Figures(files: seq<FileRecord>, assets: seq<(string, string)>, countPages: string -> nat): Outcome<seq<FigureRecord>> {
    if files == [] then Returned([])
    else
      var init := Figures(files[..|files| - 1], assets, countPages);
      var f := files[|files| - 1];
      if init.Raised? || !IsFigure(f) then init
      else
        match FigureOf(f, assets, countPages)
        case Raised(e) => Raised(e)
        case Returned(x) => Returned(init.value + [x])
  }

  /** One entry per figure file, in order, each for its own file; a raise happens
      exactly when some figure file has no upload name and the asset map is not
      empty. */
  lemma {:induction false} FiguresShape(files: seq<FileRecord>, assets: seq<(string, string)>, countPages: string -> nat)
    ensures Figures(files, assets, countPages).Raised?
            <==> assets != [] && exists k :: 0 <= k < |files| && IsFigure(files[k]) && UploadName(files[k]).None?
    ensures Figures(files, assets, countPages).Returned? ==>
              var figs := Filter(files, IsFigure);
              var r := Figures(files, assets, countPages).value;
              |r| == |figs| && forall k :: 0 <= k < |r| ==> FigureOf(figs[k], assets, countPages) == Returned(r[k])
  {
    if files != [] {
      var init := files[..|files| - 1];
      var f := files[|files| - 1];
      FiguresShape(init, assets, countPages);
      assert forall k :: 0 <= k < |init| ==> init[k] == files[k];
      if assets != [] && IsFigure(f) && UploadName(f).None? {
        assert Figures(files, assets, countPages).Raised?;
      }
    }
  }

  /** `figure_list`, with the page counter of PDF files as a parameter. */
  method FigureList(files: seq<FileRecord>, assets: seq<(string, string)>, countPages: string -> nat)
    returns (r: Outcome<seq<FigureRecord>>)
    ensures r == Figures(files, assets, countPages)
  {
    var figures := [];
    var i := 0;
    while i < |files|
      invariant 0 <= i <= |files|
      invariant Figures(files[..i], assets, countPages) == Returned(figures)
    {
      var f := files[i];
      FiguresStep(files, i, assets, countPages);
      if f.fileType == Some("figure") {
        var figure := FigureDetail(f, assets, countPages);
        if figure.Raised? {
          assert files == files[..i + 1] + files[i + 1..];
          FiguresRaised(files[..i + 1], files[i + 1..], assets, countPages);
          return Raised("TypeError");
        }
        figures := figures + [figure.value];
      }
      i := i + 1;
    }
    assert files[..i] == files;
    r := Returned(figures);
  }

  lemma {:induction false} FiguresStep(files: seq<FileRecord>, i: nat, assets: seq<(string, string)>, countPages: string -> nat)
    requires i < |files| && Figures(files[..i], assets, countPages).Returned?
    ensures !IsFigure(files[i]) ==> Figures(files[..i + 1], assets, countPages) == Figures(files[..i], assets, countPages)
    ensures IsFigure(files[i]) && FigureOf(files[i], assets, countPages).Returned? ==>
              Figures(files[..i + 1], assets, countPages)
              == Returned(Figures(files[..i], assets, countPages).value + [FigureOf(files[i], assets, countPages).value])
  {
    assert files[..i + 1][..i] == files[..i];
  }

  /** The body of `figure_list`'s loop for one figure file: the asset search, which
      raises on its first test when the file has no upload name. */
  method FigureDetail(f: FileRecord, assets: seq<(string, string)>, countPages: string -> nat)
    returns (r: Outcome<FigureRecord>)
    ensures r == FigureOf(f, assets, countPages)
  {
    var name := UploadName(f);
    var extension := FileExtension(name);
    var asset: Option<(string, string)> := None;
    var j := 0;
    while j < |assets|
      invariant 0 <= j <= |assets|
      invariant asset.None?
      invariant name.Some? ==> forall k :: 0 <= k < j ==> !PathEndsWith(name.value)(assets[k])
      invariant name.None? ==> j == 0
    {
      if name.None? {
        return Raised("TypeError");
      }
      if EndsWith(assets[j].1, name.value) {
        FirstAt(assets, PathEndsWith(name.value), j);
        asset := Some(assets[j]);
        break;
      }
      j := j + 1;
    }
    var path := if asset.Some? then Some(asset.value.1) else None;
    var pages := None;
    if extension == Some("pdf") {
      pages := Some(PageCount(path, countPages));
    }
    r := Returned(FigureRecord(name, extension, asset, pages));
  }

  lemma {:induction false} FiguresRaised(a: seq<FileRecord>, b: seq<FileRecord>, assets: seq<(string, string)>, countPages: string -> nat)
    requires Figures(a, assets, countPages).Raised?
    ensures Figures(a + b, assets, countPages) == Raised("TypeError")
    decreases |b|
  {
    if b == [] {
      assert a + b == a;
      FiguresRaisedType(a, assets, countPages);
    } else {
      FiguresRaised(a, b[..|b| - 1], assets, countPages);
      assert (a + b)[..|a + b| - 1] == a + b[..|b| - 1];
    }
  }

  lemma {:induction false} FiguresRaisedType(files: seq<FileRecord>, assets: seq<(string, string)>, countPages: string -> nat)
    ensures Figures(files, assets, countPages).Raised? ==> Figures(files, assets, countPages) == Raised("TypeError")
  {
    if files != [] {
      FiguresRaisedType(files[..|files| - 1], assets, countPages);
    }
  }
}
