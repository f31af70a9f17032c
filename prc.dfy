/** The PRC ("publish, review, curate") changes made to an article's XML: the
    ISSN-keyed rewrites of the journal metadata, the detection of PRC XML, the
    `e…` to `RP…` elocation-id rewrite, the custom-meta, version-DOI and history
    insertions, and the next version DOI.

    The article XML is a `Document` whose `root` the transforms change; each method is
    proved equal to a function of the old root, and the lemmas state what that
    function does to the tree. */
module Prc {
  import opened Wrappers
  import opened Strings
  import opened Seqs
  import opened Xml

  /** For each ISSN, the text each `journal-id` should have, by `journal-id-type`. */
  const IssnJournalIdMap: map<string, map<string, string>> :=
    map["2050-084X" := map["nlm-ta" := "elife", "hwp" := "eLife", "publisher-id" := "eLife"]]

  /** For each ISSN, the text of the other journal metadata tags, by tag name. */
  const IssnJournalMetaMap: map<string, map<string, string>> :=
    map["2050-084X" := map["journal-title" := "eLife", "publisher-name" := "eLife Sciences Publications, Ltd"]]

  const IssnPath: seq<Step> := [Child("front"), Child("journal-meta"), Child("issn")]
  const JournalIdPath: seq<Step> := [Child("front"), Child("journal-meta"), Child("journal-id")]
  const JournalTitlePath: seq<Step> :=
    [Child("front"), Child("journal-meta"), Child("journal-title-group"), Child("journal-title")]
  const PublisherNamePath: seq<Step> :=
    [Child("front"), Child("journal-meta"), Child("publisher"), Child("publisher-name")]
  const ArticleMetaPath: seq<Step> := [Desc("front"), Child("article-meta")]
  const ElocationIdPath: seq<Step> := [Desc("front"), Child("article-meta"), Child("elocation-id")]

  const PrcTerm := "RP"

  /** The largest version number `NextVersionDoi` will increment. */
  const MaxVersion := 999

  // ---------------------------------------------------------------- the ISSN

  /** The text of the first `issn` tag, when there is one and it has text. */
  function IssnText(root: Element): Option<string> {
    match FindElement(root, IssnPath)
    case None => None
    case Some(t) => t.text
  }

  /** The entry of `m` for the document's ISSN, if the ISSN is a key of `m`. */
  function IssnEntry(m: map<string, map<string, string>>, root: Element): Option<map<string, string>> {
    var issn := IssnText(root);
    if issn.Some? && issn.value in m then Some(m[issn.value]) else None
  }

  // ---------------------------------------------------------------- journal-id tags

  function IdType(t: Element): Option<string> {
    GetAttr(t.attrs, "journal-id-type")
  }

  /** The tag has a non-empty `journal-id-type` that is one of `types`. */
  function IdTyped(types: set<string>): Element -> bool {
    (t: Element) => Truthy(IdType(t)) && IdType(t).value in types
  }

  /** `yield_journal_id_tags`: the `journal-id` tags, in document order, whose type is
      one of `types`. */
  function JournalIdTags(root: Element, types: set<string>): (r: seq<Element>)
    ensures forall t :: t in r <==> t in FindAll(root, JournalIdPath) && IdTyped(types)(t)
  {
    FilterIn(FindAll(root, JournalIdPath), IdTyped(types));
    Filter(FindAll(root, JournalIdPath), IdTyped(types))
  }

  /** A typed `journal-id` tag whose text is not the one `m` gives for its type. */
  predicate Mismatched(m: map<string, string>, t: Element) {
    IdTyped(m.Keys)(t) && t.text != Some(m[IdType(t).value])
  }

  /** The text update `transform_journal_id_tags` makes to one `journal-id` tag. */
  function FixJournalId(m: map<string, string>): Element -> Element {
    (t: Element) => if IdTyped(m.Keys)(t) then t.(text := Some(m[IdType(t).value])) else t
  }

  lemma {:induction false} FixJournalIdTextOnly(m: map<string, string>)
    ensures TextOnly(FixJournalId(m))
    ensures forall x :: FixJournalId(m)(FixJournalId(m)(x)) == FixJournalId(m)(x)
  {
    forall x ensures FixJournalId(m)(FixJournalId(m)(x)) == FixJournalId(m)(x) {
      assert IdType(FixJournalId(m)(x)) == IdType(x);
    }
  }

  /** The tree `transform_journal_id_tags` leaves: with a known ISSN, every typed
      `journal-id` tag gets the text the map gives for its type. */
  function JournalIdsFixed(root: Element): (r: Element)
    ensures SameShape(root, r)
  {
    match IssnEntry(IssnJournalIdMap, root)
    case None => SameShapeRefl(root); root
    case Some(m) =>
      FixJournalIdTextOnly(m);
      MapPathShape(root, JournalIdPath, FixJournalId(m));
      MapPath(root, JournalIdPath, FixJournalId(m))
  }

  /** What the rewrite does to each node: only typed `journal-id` tags under
      `front/journal-meta` change, only in their text, and only when the ISSN is known. */
  lemma {:induction false} JournalIdsFixedAt(root: Element, q: seq<nat>)
    requires ValidPos(root, q)
    ensures ValidPos(JournalIdsFixed(root), q)
    ensures At(JournalIdsFixed(root), q).tag == At(root, q).tag
    ensures At(JournalIdsFixed(root), q).attrs == At(root, q).attrs
    ensures At(JournalIdsFixed(root), q).text ==
      match IssnEntry(IssnJournalIdMap, root)
      case None => At(root, q).text
      case Some(m) =>
        if MatchesAt(root, JournalIdPath, q) && IdTyped(m.Keys)(At(root, q))
        then Some(m[IdType(At(root, q)).value]) else At(root, q).text
  {
    match IssnEntry(IssnJournalIdMap, root)
    case None =>
    case Some(m) =>
      FixJournalIdTextOnly(m);
      MapPathAt(root, JournalIdPath, FixJournalId(m), q);
  }

  /** The rewrite leaves the ISSN and the elocation-id text as they were. */
  lemma {:induction false} JournalIdsFixedKeeps(root: Element)
    ensures IssnText(JournalIdsFixed(root)) == IssnText(root)
    ensures FindElement(JournalIdsFixed(root), ElocationIdPath).Some? <==> FindElement(root, ElocationIdPath).Some?
    ensures FindElement(root, ElocationIdPath).Some? ==>
              FindElement(JournalIdsFixed(root), ElocationIdPath).value.text == FindElement(root, ElocationIdPath).value.text
  {
    match IssnEntry(IssnJournalIdMap, root)
    case None =>
    case Some(m) =>
      FixJournalIdTextOnly(m);
      MapPathElsewhere(root, JournalIdPath, FixJournalId(m), IssnPath);
      MapPathElsewhere(root, JournalIdPath, FixJournalId(m), ElocationIdPath);
  }

  /** Rewriting the journal-id tags a second time changes nothing. */
  lemma {:induction false} JournalIdsFixedIdempotent(root: Element)
    ensures JournalIdsFixed(JournalIdsFixed(root)) == JournalIdsFixed(root)
  {
    JournalIdsFixedKeeps(root);
    match IssnEntry(IssnJournalIdMap, root)
    case None =>
    case Some(m) =>
      FixJournalIdTextOnly(m);
      MapPathIdempotent(root, JournalIdPath, FixJournalId(m));
  }

  /** After the rewrite no typed `journal-id` tag differs from the map. */
  lemma {:induction false} JournalIdsFixedMatch(root: Element, m: map<string, string>)
    requires IssnEntry(IssnJournalIdMap, JournalIdsFixed(root)) == Some(m)
    ensures forall t :: t in JournalIdTags(JournalIdsFixed(root), m.Keys) ==> !Mismatched(m, t)
  {
    JournalIdsFixedKeeps(root);
    var r := JournalIdsFixed(root);
    FixJournalIdTextOnly(m);
    MapPathShape(root, JournalIdPath, FixJournalId(m));
    SameShapeAllPos(root, r, JournalIdPath);
    AllPosSound(root, JournalIdPath);
    forall t | t in JournalIdTags(r, m.Keys) ensures !Mismatched(m, t) {
      var k :| 0 <= k < |FindAll(r, JournalIdPath)| && FindAll(r, JournalIdPath)[k] == t;
      var q := AllPos(root, JournalIdPath)[k];
      assert q in AllPos(root, JournalIdPath);
      JournalIdsFixedAt(root, q);
    }
  }

  // ---------------------------------------------------------------- PRC detection

  /** The first elocation-id's text starts with `RP`. */
  predicate ElocationIsPrc(root: Element) {
    match FindElement(root, ElocationIdPath)
    case None => false
    case Some(t) => Truthy(t.text) && StartsWith(t.text.value, PrcTerm)
  }

  /** `is_xml_prc`: with a known ISSN some typed `journal-id` text differs from the
      map, or the elocation-id already carries the PRC term. */
  predicate IsXmlPrc(root: Element)
    ensures IsXmlPrc(root) ==> IssnEntry(IssnJournalIdMap, root).Some? || ElocationIsPrc(root)
    ensures ElocationIsPrc(root) ==> IsXmlPrc(root)
  {
    (match IssnEntry(IssnJournalIdMap, root)
     case None => false
     case Some(m) => exists t :: t in JournalIdTags(root, m.Keys) && Mismatched(m, t))
    || ElocationIsPrc(root)
  }

  /** Once the journal-id tags are rewritten, only the elocation-id can mark the XML
      as PRC. */
  lemma {:induction false} IsXmlPrcAfterJournalIds(root: Element)
    ensures IsXmlPrc(JournalIdsFixed(root)) <==> ElocationIsPrc(root)
  {
    JournalIdsFixedKeeps(root);
    var r := JournalIdsFixed(root);
    match IssnEntry(IssnJournalIdMap, r)
    case None =>
    case Some(m) => JournalIdsFixedMatch(root, m);
  }

  // ---------------------------------------------------------------- journal meta tags

  /** `transform_journal_meta_tag`: the first tag at `path` gets the map's value for
      `name`, when the ISSN is known, the tag exists and the value is non-empty. */
  function JournalMetaSet(root: Element, name: string, path: seq<Step>): (r: Element)
    ensures SameShape(root, r)
  {
    SameShapeRefl(root);
    match IssnEntry(IssnJournalMetaMap, root)
    case None => root
    case Some(m) =>
      match Find(root, path)
      case None => root
      case Some(pos) =>
        if name in m && m[name] != "" then SetTextAtShape(root, pos, Some(m[name])); SetTextAt(root, pos, Some(m[name]))
        else root
  }

  /** Exactly the found tag changes, and only in its text, when all three conditions
      hold; otherwise the tree is untouched. */
  lemma {:induction false} JournalMetaSetAt(root: Element, name: string, path: seq<Step>, q: seq<nat>)
    requires ValidPos(root, q)
    ensures ValidPos(JournalMetaSet(root, name, path), q)
    ensures At(JournalMetaSet(root, name, path), q).tag == At(root, q).tag
    ensures At(JournalMetaSet(root, name, path), q).attrs == At(root, q).attrs
    ensures At(JournalMetaSet(root, name, path), q).text ==
      match IssnEntry(IssnJournalMetaMap, root)
      case None => At(root, q).text
      case Some(m) =>
        if Find(root, path) == Some(q) && name in m && m[name] != "" then Some(m[name]) else At(root, q).text
  {
    match IssnEntry(IssnJournalMetaMap, root)
    case None =>
    case Some(m) =>
      match Find(root, path)
      case None =>
      case Some(pos) =>
        if name in m && m[name] != "" {
          SetTextAtHere(root, pos, Some(m[name]));
          if q != pos {
            SetTextAtOther(root, pos, Some(m[name]), q);
          }
        }
  }

  /** When the three conditions hold the found tag's text is the map's value, so
      setting it again changes nothing. */
  lemma {:induction false} JournalMetaSetIdempotent(root: Element, name: string, path: seq<Step>)
    requires path != [] && path[|path| - 1].tag != "issn"
    ensures JournalMetaSet(JournalMetaSet(root, name, path), name, path) == JournalMetaSet(root, name, path)
  {
    match IssnEntry(IssnJournalMetaMap, root)
    case None =>
    case Some(m) =>
      match Find(root, path)
      case None =>
      case Some(pos) =>
        if name in m && m[name] != "" {
          var t := Some(m[name]);
          var r := SetTextAt(root, pos, t);
          AllPosSound(root, path);
          SetTextElsewhere(root, pos, t, IssnPath);
          SetTextAtHere(root, pos, t);
          SameShapeAllPos(root, r, path);
          ReplaceAtTwice(root, pos, At(root, pos).(text := t), At(r, pos).(text := t));
        }
  }

  function JournalTitleSet(root: Element): Element {
    JournalMetaSet(root, "journal-title", JournalTitlePath)
  }

  function PublisherNameSet(root: Element): Element {
    JournalMetaSet(root, "publisher-name", PublisherNamePath)
  }

  // ---------------------------------------------------------------- elocation-id

  /** `re.sub(r"e(.*)", r"RP\1", s)`. A match runs from an `e` to the end of its line
      (`.` does not match a newline) and the search resumes there, so on every line
      the first `e` becomes `RP` and the rest of the line is kept. `replaced` says
      whether the current line has already had its match. */
  function SubLines(s: string, replaced: bool): string
    decreases |s|
  {
    if s == [] then []
    else if s[0] == '\n' then "\n" + SubLines(s[1..], false)
    else if s[0] == 'e' && !replaced then PrcTerm + SubLines(s[1..], true)
    else [s[0]] + SubLines(s[1..], replaced)
  }

  function ElocationSub(s: string): string {
    SubLines(s, false)
  }

  predicate NoNewline(s: string) {
    forall k :: 0 <= k < |s| ==> s[k] != '\n'
  }

  /** Once a line has had its match the rest of it is kept as it is. */
  lemma {:induction false} SubLinesRestOfLine(s: string)
    requires NoNewline(s)
    ensures SubLines(s, true) == s
  {
    if s != [] {
      SubLinesRestOfLine(s[1..]);
    }
  }

  /** A line whose first `e` follows `a` becomes `a + "RP" + b`. */
  lemma {:induction false} SubLinesLine(a: string, b: string)
    requires NoNewline(a) && NoNewline(b) && forall k :: 0 <= k < |a| ==> a[k] != 'e'
    ensures ElocationSub(a + "e" + b) == a + PrcTerm + b
  {
    var s := a + "e" + b;
    if a == [] {
      assert s[0] == 'e' && s[1..] == b;
      SubLinesRestOfLine(b);
    } else {
      assert s[0] == a[0] && s[1..] == a[1..] + "e" + b;
      SubLinesLine(a[1..], b);
      assert a == [a[0]] + a[1..];
    }
  }

  /** With the default patterns an elocation-id `"e" + t` becomes `"RP" + t`. */
  lemma {:induction false} ElocationSubOf(t: string)
    requires NoNewline(t)
    ensures ElocationSub("e" + t) == PrcTerm + t
  {
    SubLinesLine([], t);
    assert [] + "e" + t == "e" + t;
  }

  /** Text without an `e` is left as it is. */
  lemma {:induction false} SubLinesNoE(s: string, replaced: bool)
    requires forall k :: 0 <= k < |s| ==> s[k] != 'e'
    ensures SubLines(s, replaced) == s
  {
    if s != [] {
      SubLinesNoE(s[1..], if s[0] == '\n' then false else replaced);
    }
  }

  /** Lines are rewritten independently of each other. */
  lemma {:induction false} SubLinesSplit(a: string, b: string, replaced: bool)
    requires NoNewline(a)
    ensures SubLines(a + "\n" + b, replaced) == SubLines(a, replaced) + "\n" + SubLines(b, false)
  {
    var s := a + "\n" + b;
    if a == [] {
      assert s[0] == '\n' && s[1..] == b;
    } else {
      assert s[0] == a[0] && s[1..] == a[1..] + "\n" + b;
      var next := if a[0] == 'e' && !replaced then true else replaced;
      SubLinesSplit(a[1..], b, next);
    }
  }

  /** `transform_elocation_id` with the default patterns: the first elocation-id's text
      is rewritten; `re.sub` raises a `TypeError` on a tag without text. */
  function ElocationRewritten(root: Element): (r: Outcome<Element>)
    ensures r.Raised? <==> Find(root, ElocationIdPath).Some? && At(root, Find(root, ElocationIdPath).value).text.None?
    ensures r.Raised? ==> r.exception == "TypeError"
    ensures r.Returned? ==> SameShape(root, r.value)
  {
    SameShapeRefl(root);
    match Find(root, ElocationIdPath)
    case None => Returned(root)
    case Some(pos) =>
      var text := At(root, pos).text;
      if text.None? then Raised("TypeError")
      else
        var updated := ElocationSub(text.value);
        if updated != text.value then SetTextAtShape(root, pos, Some(updated)); Returned(SetTextAt(root, pos, Some(updated)))
        else Returned(root)
  }

  /** An elocation-id `"e" + t` becomes `"RP" + t`, after which the XML counts as PRC. */
  lemma {:induction false} ElocationRewrittenPrc(root: Element, t: string)
    requires FindElement(root, ElocationIdPath).Some? && FindElement(root, ElocationIdPath).value.text == Some("e" + t)
    requires NoNewline(t)
    ensures ElocationRewritten(root).Returned?
    ensures FindElement(ElocationRewritten(root).value, ElocationIdPath).Some?
    ensures FindElement(ElocationRewritten(root).value, ElocationIdPath).value.text == Some(PrcTerm + t)
    ensures IsXmlPrc(ElocationRewritten(root).value)
  {
    var pos := Find(root, ElocationIdPath).value;
    AllPosSound(root, ElocationIdPath);
    ElocationSubOf(t);
    var r := SetTextAt(root, pos, Some(PrcTerm + t));
    SetTextAtHere(root, pos, Some(PrcTerm + t));
    SameShapeAllPos(root, r, ElocationIdPath);
    assert StartsWith(PrcTerm + t, PrcTerm);
  }

  // ---------------------------------------------------------------- insertions

  /** Python's `list.insert(i, x)` for `i >= 0`: an index past the end appends. */
  function InsertAt<T>(s: seq<T>, i: nat, x: T): (r: seq<T>)
    ensures |r| == |s| + 1
    ensures multiset(r) == multiset(s) + multiset{x}
  {
    var j := if i <= |s| then i else |s|;
    assert s == s[..j] + s[j..];
    s[..j] + [x] + s[j..]
  }

  /** The index just after the last child tagged `t`, or 1 when there is none: where
      `add_version_doi` and `add_history_date` insert. */
  function InsertIndex(children: seq<Element>, t: string): (r: nat)
    ensures (exists k :: 0 <= k < |children| && children[k].tag == t) ==> 0 < r <= |children| && children[r - 1].tag == t
    ensures (forall k :: 0 <= k < |children| ==> children[k].tag != t) ==> r == 1
    ensures forall k :: r <= k < |children| ==> children[k].tag != t
  {
    if children == [] then 1
    else if children[|children| - 1].tag == t then |children|
    else
      var r := InsertIndex(children[..|children| - 1], t);
      assert forall k :: 0 <= k < |children| - 1 ==> children[..|children| - 1][k] == children[k];
      r
  }

  /** The `enumerate(findall("*"))` loop of `add_version_doi` and `add_history_date`. */
  method ScanInsertIndex(children: seq<Element>, t: string) returns (index: nat)
    ensures index == InsertIndex(children, t)
  {
    index := 1;
    var k := 0;
    while k < |children|
      invariant 0 <= k <= |children|
      invariant index == InsertIndex(children[..k], t)
    {
      assert children[..k + 1][..k] == children[..k];
      if children[k].tag == t {
        index := k + 1;
      }
      k := k + 1;
    }
    assert children[..k] == children;
  }

  /** Inserting after the last `t` child: the new child lands after every `t` child and
      right after the last one, or at index 1 (clamped to the end) when there is none;
      every other child keeps its order. */
  lemma {:induction false} InsertAfterLast(children: seq<Element>, t: string, x: Element)
    ensures var j := if InsertIndex(children, t) <= |children| then InsertIndex(children, t) else |children|;
            InsertAt(children, InsertIndex(children, t), x) == children[..j] + [x] + children[j..]
            && (forall k :: j <= k < |children| ==> children[k].tag != t)
            && ((exists k :: 0 <= k < |children| && children[k].tag == t) ==> j > 0 && children[j - 1].tag == t)
            && ((forall k :: 0 <= k < |children| ==> children[k].tag != t) ==> j == if |children| == 0 then 0 else 1)
  {
    var i := InsertIndex(children, t);
    var j := if i <= |children| then i else |children|;
    assert InsertAt(children, i, x) == children[..j] + [x] + children[j..];
    if forall k :: 0 <= k < |children| ==> children[k].tag != t {
      assert i == 1;
    } else {
      var k :| 0 <= k < |children| && children[k].tag == t;
      assert 0 < i <= |children| && children[i - 1].tag == t;
    }
  }

  /** `article-meta`, if the tree has one: `find(".//front/article-meta")`. */
  function ArticleMeta(root: Element): Option<seq<nat>> {
    Find(root, ArticleMetaPath)
  }

  /** The tree with `article-meta` replaced by `f` of itself; unchanged without one. */
  function UpdateArticleMeta(root: Element, am: Element): Element
    requires ArticleMeta(root).Some?
  {
    ReplaceAt(root, ArticleMeta(root).value, am)
  }

  /** An update of `article-meta` leaves every node off its path as it was. */
  lemma {:induction false} UpdateArticleMetaAt(root: Element, am: Element, q: seq<nat>)
    requires ArticleMeta(root).Some? && ValidPos(root, q) && Diverge(ArticleMeta(root).value, q)
    ensures ValidPos(UpdateArticleMeta(root, am), ArticleMeta(root).value)
    ensures At(UpdateArticleMeta(root, am), ArticleMeta(root).value) == am
    ensures ValidPos(UpdateArticleMeta(root, am), q) && At(UpdateArticleMeta(root, am), q) == At(root, q)
  {
    ReplaceAtHere(root, ArticleMeta(root).value, am);
    ReplaceAtElsewhere(root, ArticleMeta(root).value, am, q);
  }

  /** The custom-meta `add_prc_custom_meta_tags` adds. */
  const PrcCustomMeta := Element("custom-meta", [("specific-use", "meta-only")], None,
    [Element("meta-name", [], Some("publishing-route"), []), Element("meta-value", [], Some("prc"), [])])

  /** `article-meta` with the PRC custom-meta appended to its first
      `custom-meta-group`, which is created (as the last child) if absent. */
  function WithPrcCustomMeta(am: Element): Element {
    match FirstIndex(am.children, HasTag("custom-meta-group"))
    case None => AppendChild(am, AppendChild(NewElement("custom-meta-group"), PrcCustomMeta))
    case Some(i) => am.(children := am.children[i := AppendChild(am.children[i], PrcCustomMeta)])
  }

  function PrcCustomMetaAdded(root: Element): Element {
    if ArticleMeta(root).None? then root
    else UpdateArticleMeta(root, WithPrcCustomMeta(At(root, ArticleMeta(root).value)))
  }

  /** The group that receives the custom-meta is the first one, or a new last child;
      it gains exactly that custom-meta as its last child, and `article-meta` gains a
      child only when it had no group. */
  lemma {:induction false} WithPrcCustomMetaEffect(am: Element)
    ensures var r := WithPrcCustomMeta(am);
      match FirstIndex(r.children, HasTag("custom-meta-group"))
      case None => false
      case Some(i) =>
        && |r.children| == |am.children| + (if FirstIndex(am.children, HasTag("custom-meta-group")).None? then 1 else 0)
        && (forall k :: 0 <= k < |am.children| && k != i ==> r.children[k] == am.children[k])
        && r.children[i].children == (if i < |am.children| then am.children[i].children else []) + [PrcCustomMeta]
        && r.tag == am.tag && r.attrs == am.attrs && r.text == am.text
  {
    var r := WithPrcCustomMeta(am);
    match FirstIndex(am.children, HasTag("custom-meta-group"))
    case None =>
      assert HasTag("custom-meta-group")(r.children[|am.children|]);
      assert forall k :: 0 <= k < |am.children| ==> r.children[k] == am.children[k];
    case Some(i) =>
      assert forall k :: 0 <= k < i ==> r.children[k] == am.children[k];
      assert HasTag("custom-meta-group")(r.children[i]);
  }

  /** Repeated calls append duplicates: the second call adds a second custom-meta to
      the same group and no further child to `article-meta`. */
  lemma {:induction false} WithPrcCustomMetaTwice(am: Element)
    ensures var once := WithPrcCustomMeta(am);
      var twice := WithPrcCustomMeta(once);
      |twice.children| == |once.children|
      && match FirstIndex(once.children, HasTag("custom-meta-group"))
         case None => false
         case Some(i) =>
           twice.children[i].children == once.children[i].children + [PrcCustomMeta]
           && FirstIndex(twice.children, HasTag("custom-meta-group")) == Some(i)
  {
    WithPrcCustomMetaEffect(am);
    var once := WithPrcCustomMeta(am);
    var i := FirstIndex(once.children, HasTag("custom-meta-group")).value;
    var twice := WithPrcCustomMeta(once);
    assert forall k :: 0 <= k < i ==> twice.children[k] == once.children[k];
    assert HasTag("custom-meta-group")(twice.children[i]);
  }

  /** The `article-id` tag `add_version_doi` inserts. */
  function VersionArticleId(doi: Option<string>): Element {
    Element("article-id", [("pub-id-type", "doi"), ("specific-use", "version")], doi, [])
  }

  function WithVersionDoi(am: Element, doi: Option<string>): Element {
    am.(children := InsertAt(am.children, InsertIndex(am.children, "article-id"), VersionArticleId(doi)))
  }

  function VersionDoiAdded(root: Element, doi: Option<string>): Element {
    if ArticleMeta(root).None? then root
    else UpdateArticleMeta(root, WithVersionDoi(At(root, ArticleMeta(root).value), doi))
  }

  /** The `date` tag `add_history_date` appends; `dmy` stands for the day, month and
      year children the date structure is rendered into. */
  function DateElement(dateType: Option<string>, dmy: seq<Element>): Element {
    Element("date", if Truthy(dateType) then [("date-type", dateType.value)] else [], None, dmy)
  }

  /** `article-meta` with the date appended to its first `history` child, or to a new
      `history` inserted after the last `elocation-id`. */
  function WithHistoryDate(am: Element, date: Element): Element {
    match FirstIndex(am.children, HasTag("history"))
    case Some(i) => am.(children := am.children[i := AppendChild(am.children[i], date)])
    case None =>
      am.(children := InsertAt(am.children, InsertIndex(am.children, "elocation-id"),
                               AppendChild(NewElement("history"), date)))
  }

  function HistoryDateAdded(root: Element, dateType: Option<string>, dmy: seq<Element>): Element {
    if ArticleMeta(root).None? then root
    else UpdateArticleMeta(root, WithHistoryDate(At(root, ArticleMeta(root).value), DateElement(dateType, dmy)))
  }

  /** An existing `history` is reused and gains the date as its last child; otherwise
      `article-meta` gains exactly one child, a `history` holding only the date, placed
      after the last `elocation-id`. The date carries `date-type` only when one is given. */
  lemma {:induction false} WithHistoryDateEffect(am: Element, dateType: Option<string>, dmy: seq<Element>)
    ensures var date := DateElement(dateType, dmy);
      var r := WithHistoryDate(am, date);
      && (HasAttr(date.attrs, "date-type") <==> Truthy(dateType))
      && match FirstIndex(am.children, HasTag("history"))
         case Some(i) =>
           |r.children| == |am.children|
           && r.children[i].children == am.children[i].children + [date]
           && forall k :: 0 <= k < |am.children| && k != i ==> r.children[k] == am.children[k]
         case None =>
           exists j :: 0 <= j <= |am.children|
             && r.children == am.children[..j] + [Element("history", [], None, [date])] + am.children[j..]
             && forall k :: j <= k < |am.children| ==> am.children[k].tag != "elocation-id"
  {
    var date := DateElement(dateType, dmy);
    if Truthy(dateType) {
      assert date.attrs[0].0 == "date-type";
    }
    match FirstIndex(am.children, HasTag("history"))
    case Some(i) => HistoryReused(am, date, i);
    case None => HistoryCreated(am, date);
  }

  lemma {:induction false} HistoryReused(am: Element, date: Element, i: nat)
    requires FirstIndex(am.children, HasTag("history")) == Some(i)
    ensures var r := WithHistoryDate(am, date);
      && i < |am.children| == |r.children|
      && r.children[i].children == am.children[i].children + [date]
      && forall k :: 0 <= k < |am.children| && k != i ==> r.children[k] == am.children[k]
  {
    assert WithHistoryDate(am, date).children == am.children[i := AppendChild(am.children[i], date)];
  }

  lemma {:induction false} HistoryCreated(am: Element, date: Element)
    requires FirstIndex(am.children, HasTag("history")).None?
    ensures exists j ::
      (&& 0 <= j <= |am.children|
       && WithHistoryDate(am, date).children == am.children[..j] + [Element("history", [], None, [date])] + am.children[j..]
       && forall k :: j <= k < |am.children| ==> am.children[k].tag != "elocation-id")
  {
    var h := AppendChild(NewElement("history"), date);
    assert h == Element("history", [], None, [date]);
    InsertAfterLast(am.children, "elocation-id", h);
    var i := InsertIndex(am.children, "elocation-id");
    var j := if i <= |am.children| then i else |am.children|;
    assert WithHistoryDate(am, date).children == am.children[..j] + [h] + am.children[j..];
  }

  /** `add_version_doi` adds exactly one child to `article-meta`: the version
      `article-id`, right after the last `article-id` child. */
  lemma {:induction false} WithVersionDoiEffect(am: Element, doi: Option<string>)
    ensures exists j ::
      (&& 0 <= j <= |am.children|
       && WithVersionDoi(am, doi).children == am.children[..j] + [VersionArticleId(doi)] + am.children[j..]
       && (forall k :: j <= k < |am.children| ==> am.children[k].tag != "article-id")
       && ((j > 0 && am.children[j - 1].tag == "article-id") || j == (if am.children == [] then 0 else 1)))
  {
    InsertAfterLast(am.children, "article-id", VersionArticleId(doi));
  }

  // ---------------------------------------------------------------- version DOI

  /** `next_version_doi`: the DOI with its last `.`-separated segment incremented,
      `None` for a falsy DOI or a last segment that is not an integer or exceeds
      `MaxVersion`; unpacking the split of a DOI without a `.` raises. */
  function NextVersionDoi(doi: Option<string>): (r: Outcome<Option<string>>)
    ensures r.Raised? <==> Truthy(doi) && forall k :: 0 <= k < |doi.value| ==> doi.value[k] != '.'
    ensures r.Raised? ==> r.exception == "ValueError"
    ensures !Truthy(doi) ==> r == Returned(None)
  {
    if !Truthy(doi) then Returned(None)
    else
      match RSplitOnce(doi.value, '.')
      case None => Raised("ValueError")
      case Some((base, version)) => BumpVersion(base, version)
  }

  /** The DOI for the segments either side of the last `.`: the version incremented, or
      `None` when it is not an integer or exceeds `MaxVersion`. */
  function BumpVersion(base: string, version: string): (r: Outcome<Option<string>>)
    ensures r.Returned?
    ensures r.value.Some? <==> PyInt(version).Some? && PyInt(version).value <= MaxVersion
    ensures r.value.Some? ==> StartsWith(r.value.value, base + ".")
  {
    match PyInt(version)
    case None => Returned(None)
    case Some(v) => if v > MaxVersion then Returned(None) else Returned(Some(base + "." + IntToString(v + 1)))
  }

  /** A version up to `MaxVersion` is incremented, keeping everything before the last `.`. */
  lemma {:induction false} NextVersionDoiOf(base: string, n: nat)
    requires n <= MaxVersion
    ensures NextVersionDoi(Some(base + "." + NatToString(n))) == Returned(Some(base + "." + NatToString(n + 1)))
  {
    NextVersionDoiSplit(base, NatToString(n));
    PyIntOfNatToString(n);
    assert IntToString(n + 1) == NatToString(n + 1);
  }

  /** With a `.` present, the DOI is split at its last `.`. */
  lemma {:induction false} NextVersionDoiSplit(base: string, version: string)
    requires forall k :: 0 <= k < |version| ==> version[k] != '.'
    ensures NextVersionDoi(Some(base + "." + version)) ==
      match PyInt(version)
      case None => Returned(None)
      case Some(v) => if v > MaxVersion then Returned(None) else Returned(Some(base + "." + IntToString(v + 1)))
  {
    var doi := base + "." + version;
    assert doi == base + ['.'] + version;
    RSplitOnceOf(base, '.', version);
    assert RSplitOnce(doi, '.') == Some((base, version));
    assert Truthy(Some(doi));
    assert NextVersionDoi(Some(doi)) == BumpVersion(base, version);
  }

  /** A last segment beyond `MaxVersion` (a DOI without a version) gives `None`. */
  lemma {:induction false} NextVersionDoiCeiling(base: string, n: nat)
    requires n > MaxVersion
    ensures NextVersionDoi(Some(base + "." + NatToString(n))) == Returned(None)
  {
    NextVersionDoiSplit(base, NatToString(n));
    PyIntOfNatToString(n);
  }

  /** A last segment that `int()` rejects gives `None`. */
  lemma {:induction false} NextVersionDoiNotInt(base: string, version: string)
    requires forall k :: 0 <= k < |version| ==> version[k] != '.'
    requires PyInt(version) == None
    ensures NextVersionDoi(Some(base + "." + version)) == Returned(None)
  {
    NextVersionDoiSplit(base, version);
  }

  /** Version 999 is the last one incremented, to 1000. */
  lemma {:induction false} NextVersionDoiLast(base: string)
    ensures NextVersionDoi(Some(base + ".999")) == Returned(Some(base + ".1000"))
    ensures NextVersionDoi(Some(base + ".1000")) == Returned(None)
  {
    DecimalLiterals();
    assert base + ".999" == base + "." + NatToString(999);
    assert base + ".1000" == base + "." + NatToString(1000);
    NextVersionDoiOf(base, 999);
    NextVersionDoiCeiling(base, 1000);
  }

  lemma {:induction false} DecimalLiterals()
    ensures NatToString(999) == "999" && NatToString(1000) == "1000"
  {
    assert DigitChar(9) == '9' && DigitChar(0) == '0' && DigitChar(1) == '1';
    assert NatToString(9) == "9";
    assert NatToString(99) == "99";
    assert NatToString(1) == "1";
    assert NatToString(10) == "10";
    assert NatToString(100) == "100";
  }

  // ---------------------------------------------------------------- the document

  /** The parsed article XML, changed in place by the PRC transforms. */
  class Document {
    var root: Element

    constructor(root: Element)
      ensures this.root == root
    {
      this.root := root;
    }

    /** `transform_journal_id_tags`: sets the text of each yielded tag in turn. */
    method TransformJournalIdTags()
      modifies this
      ensures root == JournalIdsFixed(old(root))
    {
      var entry := IssnEntry(IssnJournalIdMap, root);
      if entry.Some? {
        var m := entry.value;
        var start := root;
        var ps := AllPos(root, JournalIdPath);
        AllPosSound(start, JournalIdPath);
        SameShapeRefl(start);
        var k := 0;
        while k < |ps|
          invariant 0 <= k <= |ps|
          invariant SameShape(start, root)
          invariant forall q :: ValidPos(start, q) ==>
            ValidPos(root, q) && At(root, q).attrs == At(start, q).attrs
            && At(root, q).text == (if q in ps[..k] then FixJournalId(m)(At(start, q)) else At(start, q)).text
        {
          SetJournalIdStep(start, root, m, ps, k);
          var t := At(root, ps[k]);
          if IdTyped(m.Keys)(t) {
            root := SetTextAt(root, ps[k], Some(m[IdType(t).value]));
          }
          k := k + 1;
        }
        JournalIdsLoopDone(start, root, m, ps);
      }
    }

    method TransformJournalMetaTag(name: string, path: seq<Step>)
      modifies this
      ensures root == JournalMetaSet(old(root), name, path)
    {
      var entry := IssnEntry(IssnJournalMetaMap, root);
      if entry.Some? {
        var found := Find(root, path);
        if found.Some? && name in entry.value && entry.value[name] != "" {
          root := SetTextAt(root, found.value, Some(entry.value[name]));
        }
      }
    }

    method TransformJournalTitleTag()
      modifies this
      ensures root == JournalTitleSet(old(root))
    {
      TransformJournalMetaTag("journal-title", JournalTitlePath);
    }

    method TransformPublisherNameTag()
      modifies this
      ensures root == PublisherNameSet(old(root))
    {
      TransformJournalMetaTag("publisher-name", PublisherNamePath);
    }

    method AddPrcCustomMetaTags()
      modifies this
      ensures root == PrcCustomMetaAdded(old(root))
    {
      var found := ArticleMeta(root);
      if found.Some? {
        var am := At(root, found.value);
        ghost var before := am;
        var group := FirstIndex(am.children, HasTag("custom-meta-group"));
        if group.None? {
          am := AppendChild(am, NewElement("custom-meta-group"));
          group := Some(|am.children| - 1);
        }
        var i := group.value;
        am := am.(children := am.children[i := AppendChild(am.children[i], PrcCustomMeta)]);
        assert am == WithPrcCustomMeta(before);
        root := ReplaceAt(root, found.value, am);
      }
    }

    /** `transform_elocation_id` with the default patterns; `error` is the exception
      raised, if any, in which case the tree is unchanged. */
    method TransformElocationId() returns (error: Option<string>)
      modifies this
      ensures ElocationRewritten(old(root)).Raised? ==>
                error == Some(ElocationRewritten(old(root)).exception) && root == old(root)
      ensures ElocationRewritten(old(root)).Returned? ==>
                error == None && root == ElocationRewritten(old(root)).value
    {
      error := None;
      var found := Find(root, ElocationIdPath);
      if found.Some? {
        var text := At(root, found.value).text;
        if text.None? {
          error := Some("TypeError");
        } else {
          var updated := ElocationSub(text.value);
          if updated != text.value {
            root := SetTextAt(root, found.value, Some(updated));
          }
        }
      }
    }

    method AddVersionDoi(doi: Option<string>)
      modifies this
      ensures root == VersionDoiAdded(old(root), doi)
    {
      var found := ArticleMeta(root);
      if found.Some? {
        var am := At(root, found.value);
        var index := ScanInsertIndex(am.children, "article-id");
        am := am.(children := InsertAt(am.children, index, VersionArticleId(doi)));
        root := ReplaceAt(root, found.value, am);
      }
    }

    /** `add_history_date`; `dmy` is what the date structure is rendered into. */
    method AddHistoryDate(dateType: Option<string>, dmy: seq<Element>)
      modifies this
      ensures root == HistoryDateAdded(old(root), dateType, dmy)
    {
      var found := ArticleMeta(root);
      if found.Some? {
        var am := At(root, found.value);
        var history := FirstIndex(am.children, HasTag("history"));
        var date := NewElement("date");
        if Truthy(dateType) {
          date := date.(attrs := SetAttr(date.attrs, "date-type", dateType.value));
          assert date.attrs == [("date-type", dateType.value)];
        }
        date := date.(children := dmy);
        assert date == DateElement(dateType, dmy);
        if history.Some? {
          var i := history.value;
          am := am.(children := am.children[i := AppendChild(am.children[i], date)]);
        } else {
          var index := ScanInsertIndex(am.children, "elocation-id");
          am := am.(children := InsertAt(am.children, index, AppendChild(NewElement("history"), date)));
        }
        root := ReplaceAt(root, found.value, am);
      }
    }
  }

  /** One pass of the journal-id loop keeps its invariant. */
  lemma {:induction false} SetJournalIdStep(start: Element, root: Element, m: map<string, string>, ps: seq<seq<nat>>, k: nat)
    requires k < |ps| && forall q :: q in ps ==> ValidPos(start, q)
    requires SameShape(start, root)
    requires forall q :: ValidPos(start, q) ==>
      ValidPos(root, q) && At(root, q).attrs == At(start, q).attrs
      && At(root, q).text == (if q in ps[..k] then FixJournalId(m)(At(start, q)) else At(start, q)).text
    ensures ValidPos(root, ps[k])
    ensures var t := At(root, ps[k]);
      var next := if IdTyped(m.Keys)(t) then SetTextAt(root, ps[k], Some(m[IdType(t).value])) else root;
      SameShape(start, next)
      && forall q :: ValidPos(start, q) ==>
        ValidPos(next, q) && At(next, q).attrs == At(start, q).attrs
        && At(next, q).text == (if q in ps[..k + 1] then FixJournalId(m)(At(start, q)) else At(start, q)).text
  {
    assert ps[k] in ps;
    var p := ps[k];
    var t := At(root, p);
    assert ps[..k + 1] == ps[..k] + [p];
    if IdTyped(m.Keys)(t) {
      var v := Some(m[IdType(t).value]);
      var next := SetTextAt(root, p, v);
      SetTextAtHere(root, p, v);
      SameShapeTrans(start, root, next);
      forall q | ValidPos(start, q)
        ensures ValidPos(next, q) && At(next, q).attrs == At(start, q).attrs
        ensures At(next, q).text == (if q in ps[..k + 1] then FixJournalId(m)(At(start, q)) else At(start, q)).text
      {
        if q != p {
          SetTextAtOther(root, p, v, q);
        }
      }
    }
  }

  /** After the loop the tree is the journal-id rewrite of where it started. */
  lemma {:induction false} JournalIdsLoopDone(start: Element, root: Element, m: map<string, string>, ps: seq<seq<nat>>)
    requires IssnEntry(IssnJournalIdMap, start) == Some(m) && ps == AllPos(start, JournalIdPath)
    requires SameShape(start, root)
    requires forall q :: ValidPos(start, q) ==>
      ValidPos(root, q) && At(root, q).attrs == At(start, q).attrs
      && At(root, q).text == (if q in ps[..|ps|] then FixJournalId(m)(At(start, q)) else At(start, q)).text
    ensures root == JournalIdsFixed(start)
  {
    var fixed := JournalIdsFixed(start);
    FixJournalIdTextOnly(m);
    MapPathShape(start, JournalIdPath, FixJournalId(m));
    AllPosSound(start, JournalIdPath);
    assert ps[..|ps|] == ps;
    forall q | ValidPos(start, q)
      ensures ValidPos(root, q) && ValidPos(fixed, q)
      ensures At(root, q).text == At(fixed, q).text && At(root, q).attrs == At(fixed, q).attrs
    {
      JournalIdsFixedAt(start, q);
      if MatchesAt(start, JournalIdPath, q) {
        AllPosComplete(start, JournalIdPath, q);
      }
    }
    NodewiseEqual(start, root, fixed);
  }
}
