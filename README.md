# elife-cleaner core, modelled in Dafny

elife-cleaner prepares eLife article submissions for production. This project models
three parts of it:

- **Manifest reconciliation** (`elifecleaner/parse.py`, modules `Manifest` and
  `TextRepair`). It covers:
  - the `file_list` records read from the article XML;
  - missing and extra files, comparing the manifest with the zip archive's asset map;
  - gaps in the "Figure N" numbering;
  - finding the article XML in the archive;
  - `figure_list`;
  - the two text repairs applied before the XML is parsed: HTML entity unescaping and
    injecting the `xmlns:xlink` declaration.
- **PRC transforms** (`elifecleaner/prc.py`, module `Prc`). PRC stands for "publish,
  review, curate". It covers:
  - rewriting the journal-id, journal-title and publisher-name tags for a known ISSN;
  - detecting PRC XML;
  - rewriting the elocation-id from `e…` to `RP…`;
  - inserting the PRC custom-meta, the version DOI `article-id` and the history date;
  - computing the next version DOI.

  The parsed document is a class `Prc.Document`. Its `root` is reassigned by each
  transform, and each transform is proved equal to a function of the old root.
- **Sub-article synthesis** (`elifecleaner/sub_article.py`, module `SubArticle`). It covers:
  - ordering the peer-review items;
  - sub-article ids and DOIs, article types and titles;
  - contributors: heap objects, because author comments share the parent article's
    contributor objects and set their roles in place;
  - the generated `sub-article` tags;
  - the namespace repair of the generated root.

Supporting modules:

- `Xml`: an ElementTree element as an immutable value. A node is identified by its
  position (the child indices leading to it), and the `find`/`findall` paths are modelled
  over positions.
- `Strings`: `str(n)`, `int(s)`, `split`, `rsplit`, `replace`, `lower`, `in`.
- `Seqs`: list comprehensions, Python's stable `sorted`, and the first match of a loop that
  `break`s.
- `Wrappers`: `Option`, and `Outcome` for calls that may raise.

Things outside the core are parameters:

| parameter | stands for |
|---|---|
| `table` | `html.entities.entitydefs` |
| `parse` | the XML parser |
| `serialize` | `ElementTree.tostring` |
| `num` | the title number regex |
| `countPages` | the PDF page counter |
| `dmy` | the rendered date children |
| `frontStub` | the front-stub children |

## Model

| member | source | states |
|---|---|---|
| Manifest.FindMissingFiles | elifecleaner/parse.py:54-63 | the result is the manifest's upload names that are not the basename of any archive key: in manifest order, with `None` and duplicates kept |
| Manifest.MissingFiles | elifecleaner/parse.py:54-63 | the manifest upload names, in manifest order, that are not the basename of any archive key; never more names than manifest files |
| Manifest.MissingFilesExact | elifecleaner/parse.py:60-62 | a file's upload name is reported if and only if no archive key has it as basename |
| Manifest.MissingFilesAppend | elifecleaner/parse.py:56-63 | the report for two manifests in a row is the two reports in a row (order kept, nothing merged) |
| Manifest.MissingFilesNone | elifecleaner/parse.py:54-63 | when every upload name is an archive basename nothing is reported |
| Manifest.IsArticleXmlKey | elifecleaner/parse.py:187 | `re.match("^(.*)/\1.xml$", key)`: a newline-free directory `D`, `/`, `D` again, one character other than a newline, `xml`, and at most one final newline |
| Manifest.ArticleXmlKeyOf | elifecleaner/parse.py:187 | every key `D/D?xml` matches `^(.*)/\1.xml$`, for any newline-free `D` and any non-newline `?` |
| Manifest.ArticleXmlKeyForm | elifecleaner/parse.py:187 | only such keys match, optionally with one trailing newline |
| Manifest.ArticleXmlKeyExamples | elifecleaner/parse.py:187 | `X/X.xml` matches, and so does `X/X_xml`, since the dot is not escaped |
| Manifest.ArticleXmlKeyRejects | elifecleaner/parse.py:187 | `X/Y.xml` and `X/X.xml.zip` do not match |
| Manifest.ArticleXmlAsset | elifecleaner/parse.py:179-192 | `None` for an empty map; otherwise the first entry in map order whose key matches, or `None` |
| Manifest.ManifestNames | elifecleaner/parse.py:73-77 | every truthy upload name is listed, and every listed name is a non-empty upload name of some file |
| Manifest.FindExtraFiles | elifecleaner/parse.py:66-91 | the archive basenames, in map order, that are neither the article XML file's name nor a truthy manifest name |
| Manifest.UnlistedKeys | elifecleaner/parse.py:85-90 | the loop keeps exactly the keys that are neither the skipped name nor listed, in order |
| Manifest.ExtraFiles | elifecleaner/parse.py:66-91 | the archive basenames, in archive order, that are neither the article XML file's name nor a manifest upload name; never more than the archive holds |
| Manifest.ExtraFilesExact | elifecleaner/parse.py:66-91 | a basename is reported if and only if it is not the XML file's name and no file has it as a (non-empty) upload name |
| Manifest.ExtraFilesNotXml | elifecleaner/parse.py:85-88 | the article XML file is never reported as extra |
| Manifest.DetailOf | elifecleaner/parse.py:127-140 | a file gives at most one pair; it gives one exactly when its type is listed, its custom-meta list is non-empty and some custom-meta has a truthy listed name; the pair is its type and the first such custom-meta's value |
| Manifest.DetailValues | elifecleaner/parse.py:123-141 | the detail pairs of the manifest files, file by file in manifest order |
| Manifest.DetailValuesBound | elifecleaner/parse.py:123-141 | at most one pair per file, and only listed file types occur |
| Manifest.DetailValuesAppend | elifecleaner/parse.py:126-141 | the pairs are collected file by file, in manifest order |
| Manifest.FindFileDetailValues | elifecleaner/parse.py:123-141 | the nested loop with `break` computes exactly those pairs |
| Manifest.FigureLabel | elifecleaner/parse.py:172 | the label substituted into `Figure (\d+)` is `Figure ` followed by decimal digits only |
| Manifest.LeadingDigits | elifecleaner/parse.py:159-161 | the longest run of digits at the start of the text: `(\d+)` is greedy |
| Manifest.MatchFigure | elifecleaner/parse.py:159-161 | `re.match` succeeds if and only if the text starts with `Figure ` and a digit |
| Manifest.MatchFigureLabel | elifecleaner/parse.py:159-172 | matching the label of `n` gives back `n` |
| Manifest.FigureNumbers | elifecleaner/parse.py:158-161 | the collection raises `TypeError` if and only if some value is `None` |
| Manifest.Gaps | elifecleaner/parse.py:163-174 | the loop over neighbouring sorted numbers `p`, `q`: the number after a non-zero `p` that `q` skips past; empty, or shorter than the input |
| Manifest.GapsExact | elifecleaner/parse.py:165-174 | `n` is reported if and only if it is `p + 1` for some adjacent pair `p, q` with `p != 0` and `q > p + 1` |
| Manifest.GapsAbsent | elifecleaner/parse.py:163-174 | in the sorted list a reported number is never one of the list's numbers |
| Manifest.GapsNone | elifecleaner/parse.py:165-174 | consecutive numbers and repeats report nothing |
| Manifest.GapsExamples | elifecleaner/parse.py:165-174 | `1, 5` reports only 2 (the first number of the gap); a gap after 0 and repeats report nothing |
| Manifest.FindMissingValueBySequence | elifecleaner/parse.py:144-176 | raises on a `None` value; otherwise the labels of the gaps of the sorted numbers matched |
| Manifest.CollectFigureNumbers | elifecleaner/parse.py:157-161 | the first loop: the numbers the rule matches in value order, or `TypeError` at the first `None` |
| Manifest.GapLabels | elifecleaner/parse.py:165-174 | the second loop, keeping the previous number: the labels of the gaps of the sorted numbers |
| Manifest.FigureNumbersRaised | elifecleaner/parse.py:158-159 | once a `None` has raised, further values do not change the outcome |
| Manifest.FigureNumbersOfLabels | elifecleaner/parse.py:158-161 | values that are all figure labels give back their numbers |
| Manifest.MissingBySequence | elifecleaner/parse.py:144-176 | raises `TypeError` exactly when some value is `None` (the regex is given `None`); otherwise the labels of the gaps |
| Manifest.MissingBySequenceOfLabels | elifecleaner/parse.py:144-176 | for the labels of an ascending list, the report is the labels of its gaps |
| Manifest.MissingBySequenceExample | elifecleaner/parse.py:96-97 | `Figure 1`, `Figure 3` reports `Figure 2` |
| Manifest.FindMissingFilesByName | elifecleaner/parse.py:94-120 | the figure rule applied to the `Title` / `Figure number` values of the `figure` files |
| Manifest.ChildTextFind | elifecleaner/parse.py:262-265 | a record key holds the text of `find(name)`, and is absent when there is no such child |
| Manifest.FileRecordOf | elifecleaner/parse.py:259-277 | the record of one `file` tag: its `file-type` and `id` attributes, its `upload_file_nm` text and one entry per `custom-meta` child, in order |
| Manifest.FileRecordOfCustomMeta | elifecleaner/parse.py:266-276 | a record has one custom-meta entry per `custom-meta` tag, in order, each read from its tag |
| Manifest.FileList | elifecleaner/parse.py:245-278 | one record per `file` tag under `front/article-meta/files`, in document order, each the record of its tag |
| Manifest.FileDetail | elifecleaner/parse.py:259-277 | the loop body builds the record of one `file` tag |
| Manifest.FileExtension | elifecleaner/parse.py:304-305 | `None` if and only if the name is falsy or has no `.`; the extension itself has no `.` |
| Manifest.FileExtensionOf | elifecleaner/parse.py:304-305 | the extension of `base.ext` is `ext` lower-cased, whatever `base` holds |
| Manifest.FigureOf | elifecleaner/parse.py:288-300 | raises if and only if the file has no upload name and the map is not empty; otherwise the entry records the name and extension, the first asset whose path ends with the name, and `pages` exactly for a `pdf` |
| Manifest.Figures | elifecleaner/parse.py:281-301 | the loop over the manifest: one entry per figure file in manifest order, stopping at the first raise |
| Manifest.FiguresShape | elifecleaner/parse.py:281-301 | one entry per figure file, in order, each for its own file; raises if and only if some figure file has no upload name and the map is not empty |
| Manifest.FigureList | elifecleaner/parse.py:281-301 | the loop computes exactly those entries, or the raise |
| Manifest.FigureDetail | elifecleaner/parse.py:289-300 | the loop body, with its asset search and `break`, gives the entry of one figure file |
| Manifest.FiguresRaised | elifecleaner/parse.py:288-300 | a raise stops the loop and is a `TypeError` |
| Manifest.FiguresRaisedType | elifecleaner/parse.py:294 | the only exception raised is `TypeError` |
| TextRepair.NameRun | elifecleaner/parse.py:230 | the longest run of `[^\t\n\f <&#;]` characters at the start |
| TextRepair.EntityAt | elifecleaner/parse.py:230 | a match is `&`, 1 to 32 name characters and `;` |
| TextRepair.EntityAtName | elifecleaner/parse.py:230 | every well-formed `&name;` is matched, with that name |
| TextRepair.EntityAtSplit | elifecleaner/parse.py:230 | every match is `&`, a well-formed name and `;` |
| TextRepair.ReplaceEntity | elifecleaner/parse.py:212-223 | a name in the table other than `amp`, `lt` and `gt` gives the table's text; any other name is written back as `&name;` |
| TextRepair.Unescape | elifecleaner/parse.py:230-231 | `re.sub` scanning left to right: each entity match is replaced by `replace_entity`, every other character is copied |
| TextRepair.HtmlEntityUnescape | elifecleaner/parse.py:226-231 | text without `&` is returned as it is; otherwise the substitution |
| TextRepair.UnescapeNoAmp | elifecleaner/parse.py:226-231 | text without `&` is unchanged, so the early return agrees with the substitution |
| TextRepair.HtmlEntityUnescapeIsScan | elifecleaner/parse.py:226-231 | `html_entity_unescape` is the substitution on every input |
| TextRepair.UnescapePrefix | elifecleaner/parse.py:230-231 | text before the first `&` is copied unchanged |
| TextRepair.UnescapeKnown | elifecleaner/parse.py:212-223 | a known entity other than `amp`, `lt` and `gt` becomes the table's text |
| TextRepair.UnescapeEntity | elifecleaner/parse.py:230-231 | a well-formed `&name;` at the start is replaced by `replace_entity`'s result for that name, and the scan goes on after the `;` |
| TextRepair.UnescapeKept | elifecleaner/parse.py:215-223 | `amp`, `lt`, `gt` and unknown names are written back as `&name;` |
| TextRepair.UnescapeEmptyTable | elifecleaner/parse.py:212-231 | with no known entity the substitution changes nothing |
| TextRepair.SpaceRun | elifecleaner/parse.py:236 | the greedy `\s{1,}` run at the start |
| TextRepair.TagEnd | elifecleaner/parse.py:236 | `.*?>` stops at the first `>`, and fails when a newline comes first |
| TextRepair.ArticleTagAt | elifecleaner/parse.py:236 | a match starts with `<article` and ends at a `>` |
| TextRepair.ArticleTagWithAttributes | elifecleaner/parse.py:236 | `<article` + whitespace + newline-free attributes + `>` is matched up to that first `>` |
| TextRepair.RepairScan | elifecleaner/parse.py:236-241 | `re.sub` scanning left to right: each `<article` tag match gains the xlink declaration before its `>`, every other character is copied |
| TextRepair.RepairBareTag | elifecleaner/parse.py:236-241 | `<article>` gains the xlink declaration |
| TextRepair.RepairTagWithAttributes | elifecleaner/parse.py:236-241 | an `<article …>` tag gains the declaration just before its `>`, with its attributes kept |
| TextRepair.RepairScanNoTag | elifecleaner/parse.py:236-241 | text without `<article` is left as it is |
| TextRepair.RepairScanEffect | elifecleaner/parse.py:235-241 | the substitution changes nothing, or the result contains the declaration |
| TextRepair.RepairArticleXml | elifecleaner/parse.py:234-242 | text that already holds the declaration is returned as it is; the result is the input or holds the declaration |
| TextRepair.RepairIdempotent | elifecleaner/parse.py:234-242 | repairing twice is repairing once |
| Prc.JournalIdTags | elifecleaner/prc.py:26-33 | exactly the `journal-id` tags on the path whose `journal-id-type` is truthy and listed |
| Prc.FixJournalIdTextOnly | elifecleaner/prc.py:70-72 | the per-tag update changes only text, and is idempotent |
| Prc.JournalIdsFixed | elifecleaner/prc.py:57-73 | only texts change: no tag name and no number of children differs from the input tree |
| Prc.JournalIdsFixedAt | elifecleaner/prc.py:57-73 | with a known ISSN, exactly the typed `journal-id` tags on the path take the map's text; no tag or attribute changes, and nothing changes for an unknown ISSN |
| Prc.JournalIdsFixedKeeps | elifecleaner/prc.py:57-73 | the ISSN and the elocation-id text are left as they were |
| Prc.JournalIdsFixedIdempotent | elifecleaner/prc.py:57-73 | rewriting a second time changes nothing |
| Prc.JournalIdsFixedMatch | elifecleaner/prc.py:39-46 | after the rewrite no typed `journal-id` differs from the map |
| Prc.IsXmlPrc | elifecleaner/prc.py:36-54 | PRC needs a known ISSN or an elocation-id starting with `RP`, and such an elocation-id alone makes it PRC |
| Prc.IsXmlPrcAfterJournalIds | elifecleaner/prc.py:36-54 | after the rewrite the XML counts as PRC if and only if its elocation-id starts with `RP` |
| Prc.JournalMetaSet | elifecleaner/prc.py:76-90 | only one text changes: no tag name and no number of children differs from the input tree |
| Prc.JournalMetaSetAt | elifecleaner/prc.py:76-90 | only the first tag at the path changes, only in its text, and only when the ISSN is known and the map's value is non-empty |
| Prc.JournalMetaSetIdempotent | elifecleaner/prc.py:76-90 | setting the tag a second time changes nothing |
| Prc.SubLines | elifecleaner/prc.py:152-156 | `re.sub(r"e(.*)", r"RP\1", text)` without DOTALL, as a scan: in each line the first `e` becomes `RP`, everything else is copied |
| Prc.ElocationSub | elifecleaner/prc.py:136-156 | the scan above from the start of the text, with the default patterns |
| Prc.SubLinesRestOfLine | elifecleaner/prc.py:136-156 | after its match, the rest of the line is kept |
| Prc.SubLinesLine | elifecleaner/prc.py:136-156 | the first `e` of a line becomes `RP` |
| Prc.ElocationSubOf | elifecleaner/prc.py:136-156 | `e` + `t` becomes `RP` + `t` |
| Prc.SubLinesNoE | elifecleaner/prc.py:152-156 | text without an `e` is left as it is |
| Prc.SubLinesSplit | elifecleaner/prc.py:152-156 | lines are rewritten independently |
| Prc.ElocationRewritten | elifecleaner/prc.py:143-165 | raises `TypeError` exactly when the elocation-id tag exists and has no text; otherwise no tag name and no number of children changes |
| Prc.ElocationRewrittenPrc | elifecleaner/prc.py:143-165 | the elocation-id `e` + `t` becomes `RP` + `t`, after which the XML counts as PRC |
| Prc.InsertAt | elifecleaner/prc.py:253 | `list.insert` adds exactly the one element: length + 1, same multiset plus `x` |
| Prc.InsertIndex | elifecleaner/prc.py:249-252 | just after the last child with the tag, or 1 when there is none; no later child has the tag |
| Prc.ScanInsertIndex | elifecleaner/prc.py:249-252 | the `enumerate` loop computes that index |
| Prc.InsertAfterLast | elifecleaner/prc.py:248-253 | the new child lands right after the last child with the tag (or at 1, clamped to the end), and the other children keep their order |
| Prc.UpdateArticleMetaAt | elifecleaner/prc.py:236-253 | changing `article-meta` in place leaves every node off its path as it was |
| Prc.WithPrcCustomMeta | elifecleaner/prc.py:122-132 | `article-meta` with the PRC custom-meta appended to its first `custom-meta-group`, or to a new group appended last |
| Prc.PrcCustomMetaAdded | elifecleaner/prc.py:113-133 | the document with its `article-meta` so updated, or unchanged when there is no `article-meta` |
| Prc.WithPrcCustomMetaEffect | elifecleaner/prc.py:113-133 | the first `custom-meta-group`, or a new last child, gains the custom-meta as its last child; nothing else changes |
| Prc.WithPrcCustomMetaTwice | elifecleaner/prc.py:122-132 | a second call appends a duplicate to the same group and adds no group |
| Prc.WithVersionDoi | elifecleaner/prc.py:243-253 | `article-meta` with the version `article-id` inserted after its last `article-id` child |
| Prc.VersionDoiAdded | elifecleaner/prc.py:234-254 | the document with its `article-meta` so updated, or unchanged when there is no `article-meta` |
| Prc.WithVersionDoiEffect | elifecleaner/prc.py:234-254 | `article-meta` gains exactly the version `article-id`, right after its last `article-id` |
| Prc.WithHistoryDate | elifecleaner/prc.py:302-314 | `article-meta` with the date appended to its first `history` child, or to a new `history` inserted after the last `elocation-id` |
| Prc.HistoryDateAdded | elifecleaner/prc.py:293-318 | the document with its `article-meta` so updated, or unchanged when there is no `article-meta` |
| Prc.WithHistoryDateEffect | elifecleaner/prc.py:293-318 | an existing `history` gains the date as its last child; otherwise exactly one `history` holding only the date is inserted after the last `elocation-id`; `date-type` is set only when truthy |
| Prc.NextVersionDoi | elifecleaner/prc.py:203-231 | raises `ValueError` if and only if a truthy DOI has no `.`; a falsy DOI gives `None` |
| Prc.NextVersionDoiSplit | elifecleaner/prc.py:207-231 | the DOI is split at its last `.`, and the segment after it is read by `int()` |
| Prc.BumpVersion | elifecleaner/prc.py:208-231 | never raises; yields a DOI exactly when `int()` accepts the version and it is at most `MAX_VERSION`, and that DOI starts with the base and `.` |
| Prc.NextVersionDoiOf | elifecleaner/prc.py:203-231 | a version up to 999 is incremented, keeping everything before the last `.` |
| Prc.NextVersionDoiCeiling | elifecleaner/prc.py:218-225 | a last segment above 999 gives `None` |
| Prc.NextVersionDoiNotInt | elifecleaner/prc.py:208-217 | a last segment `int()` rejects gives `None` |
| Prc.NextVersionDoiLast | elifecleaner/prc.py:199-231 | `.999` becomes `.1000`, and `.1000` gives `None` |
| Prc.Document.TransformJournalIdTags | elifecleaner/prc.py:57-73 | setting the text of each yielded tag in turn leaves exactly the rewritten tree |
| Prc.Document.TransformJournalMetaTag | elifecleaner/prc.py:76-90 | the root becomes the journal-meta rewrite of the old root |
| Prc.Document.TransformJournalTitleTag | elifecleaner/prc.py:93-100 | the same rewrite for `journal-title` |
| Prc.Document.TransformPublisherNameTag | elifecleaner/prc.py:103-110 | the same rewrite for `publisher-name` |
| Prc.Document.AddPrcCustomMetaTags | elifecleaner/prc.py:113-133 | the root gains the PRC custom-meta in `article-meta`, and is unchanged without one |
| Prc.Document.TransformElocationId | elifecleaner/prc.py:143-165 | the elocation-id text is rewritten; a tag without text raises `TypeError` and the tree is unchanged |
| Prc.Document.AddVersionDoi | elifecleaner/prc.py:234-254 | the root gains the version `article-id`, and is unchanged without `article-meta` |
| Prc.Document.AddHistoryDate | elifecleaner/prc.py:293-318 | the root gains the history date, and is unchanged without `article-meta` |
| SubArticle.ReorderReviewArticles | elifecleaner/sub_article.py:24-37 | the items sorted by their title number with a stable sort (the lemma below states what that means) |
| SubArticle.ReorderReviewArticlesCorrect | elifecleaner/sub_article.py:24-37 | the same items, ordered by title number, with equal numbers in input order |
| SubArticle.BucketsPartition | elifecleaner/sub_article.py:43-57 | the three comprehensions divide the items between them |
| SubArticle.ReorderContentJson | elifecleaner/sub_article.py:40-58 | no item is lost or duplicated |
| SubArticle.ReorderContentJsonBlocks | elifecleaner/sub_article.py:40-58 | evaluation summaries in input order, then the other items sorted by number, then replies in input order |
| SubArticle.SubArticleId | elifecleaner/sub_article.py:89-91 | `sa` followed by at least one decimal digit |
| SubArticle.SubArticleIdInjective | elifecleaner/sub_article.py:89-91 | different indexes give different ids |
| SubArticle.SubArticleDoi | elifecleaner/sub_article.py:94-96 | the article DOI, `.` and the sub-article id |
| SubArticle.SubArticleDoiParts | elifecleaner/sub_article.py:94-96 | splitting a sub-article DOI at its last `.` gives back the article DOI and the id |
| SubArticle.ArticleTypeOf | elifecleaner/sub_article.py:128-130 | `ARTICLE_TYPE_MAP.get(type, type)` |
| SubArticle.ArticleTypeOfCases | elifecleaner/sub_article.py:17-21 | the three mapped types are translated, and any other type (or none) falls through |
| SubArticle.ArticleTypeOfIdempotent | elifecleaner/sub_article.py:128-130 | a translated type is not translated again |
| SubArticle.TitleOf | elifecleaner/sub_article.py:133-140 | a title exists if and only if the XML has an `article-title` under `front-stub/title-group` |
| SubArticle.StripTitle | elifecleaner/sub_article.py:138-140 | every `<article-title>` and then every `</article-title>` removed |
| SubArticle.StripTitleOf | elifecleaner/sub_article.py:136-140 | the inner markup of `<article-title>…</article-title>` is kept, inline tags included |
| SubArticle.StripTitlePlain | elifecleaner/sub_article.py:136-140 | a plain-text title is kept as it is |
| SubArticle.DefaultRoles | elifecleaner/sub_article.py:106-107 | the roles are never empty afterwards, and non-empty roles are kept |
| SubArticle.Contributor.Copy | elifecleaner/sub_article.py:104 | a new object with the same field values |
| SubArticle.AddEditorAuthors | elifecleaner/sub_article.py:101-108 | one new author per editor, in order, each with the editor's fields and the editor role if it had none |
| SubArticle.AddCommentAuthors | elifecleaner/sub_article.py:115-119 | the parent's contributor objects themselves are appended, with empty roles set to the author role |
| SubArticle.SubArticleContributors | elifecleaner/sub_article.py:99-119 | the sub-article gains what its type calls for, and the parent's contributors change only in their roles, and only for an author comment |
| SubArticle.BuildSubArticleObject | elifecleaner/sub_article.py:122-141 | a new sub-article with its DOI, id, mapped type, title and contributors |
| SubArticle.BuildItem | elifecleaner/sub_article.py:153-156 | one loop turn: parse the item, then build its sub-article; the sub-articles built before keep their headers, and the parent's empty roles are set once an author comment has been built |
| SubArticle.BuildSubArticles | elifecleaner/sub_article.py:151-165 | one new sub-article per item, numbered by position; the parent's contributors get default roles exactly when some item is an author comment |
| SubArticle.FormatContentJson | elifecleaner/sub_article.py:144-165 | the sub-articles follow the reordered items and have pairwise distinct ids |
| SubArticle.SubArticleTag | elifecleaner/sub_article.py:177-194 | a `sub-article` with `id` and `article-type` only when truthy, the front-stub, then the item's first `body` if any |
| SubArticle.Generate | elifecleaner/sub_article.py:168-199 | one `sub-article` per item, in order, under an `article` root whose declarations are repaired |
| SubArticle.RepairNamespaces | elifecleaner/sub_article.py:202-216 | each known prefix in use gets its `xmlns:` declaration on the root; every other attribute and all children are kept |
| SubArticle.DeclarationPrefix | elifecleaner/sub_article.py:209-216 | a declaration's own prefix `xmlns` is not a known one |
| SubArticle.RepairNamespacesStable | elifecleaner/sub_article.py:202-216 | repairing an already repaired root changes no attribute |
| Xml.GetAttr | elifecleaner/parse.py:261 | `get` finds a value if and only if the name is present, and the value is that name's |
| Xml.SetAttrGet | elifecleaner/prc.py:245-246 | after `set`, `get` returns the value set, and every other name reads as before |
| Xml.SetAttrAgain | elifecleaner/sub_article.py:216 | setting the same value again changes nothing |
| Xml.AllPosSound | elifecleaner/parse.py:258 | every node `findall` returns is in the tree and has the last step's tag, following a child-only path tag by tag |
| Xml.FindAllComplete | elifecleaner/parse.py:258 | `findall` on a child-only path returns every node the path leads to |
| Xml.FindAllChild | elifecleaner/parse.py:266 | `findall(tag)` returns the children with that tag, in order |
| Xml.Find | elifecleaner/prc.py:38 | `find` is the first node `findall` returns, and `None` exactly when there is none |
| Xml.MapPathAt | elifecleaner/prc.py:62-72 | a text update along a path changes the text of exactly the selected nodes |
| Xml.MapPathIdempotent | elifecleaner/prc.py:62-72 | an idempotent text update applied twice along a path is applied once |
| Xml.SetTextAtOther | elifecleaner/prc.py:89 | setting one node's text leaves every other node's tag, text and attributes |
| Xml.SetTextAtShape | elifecleaner/prc.py:89 | setting one text changes no tag name and no number of children |
| Strings.PyIntOfNatToString | elifecleaner/prc.py:209-226 | `int(str(n)) == n` |
| Strings.PyIntRejects | elifecleaner/prc.py:209-217 | a character other than a digit, sign, `_` or whitespace makes `int()` fail |
| Strings.NatToStringInjective | elifecleaner/sub_article.py:91 | decimal rendering is injective |
| Strings.RSplitOnce | elifecleaner/prc.py:207 | unpacking fails if and only if there is no `.`; the parts join back to the input |
| Strings.RSplitOnceOf | elifecleaner/prc.py:207 | splitting `a.b`, when `b` has no `.`, gives `a` and `b` |
| Strings.AfterLast | elifecleaner/parse.py:58 | `split("/")[-1]`: a suffix without `/` that is the whole text or follows a `/` |
| Strings.ReplaceAllAbsent | elifecleaner/sub_article.py:138-140 | `replace` leaves text without the pattern alone |
| Strings.ReplaceAllConcat | elifecleaner/sub_article.py:138-140 | `replace` copies a prefix in which no occurrence starts |
| Strings.BeforeFirst | elifecleaner/sub_article.py:210 | `split(":")[0]`: a prefix without `:` that is the whole text or is followed by `:` |
| Strings.BeforeFirstOf | elifecleaner/sub_article.py:210 | `split(":")[0]` of `a:b` is `a` when `a` has no `:` |
| Seqs.SortByCorrect | elifecleaner/sub_article.py:36 | `sorted` returns a permutation ordered by key |
| Seqs.SortByStable | elifecleaner/sub_article.py:36 | `sorted` keeps the order of items with equal keys |
| Seqs.SortBySorted | elifecleaner/parse.py:163 | sorting an already sorted list changes nothing |
| Seqs.First | elifecleaner/parse.py:188-191 | the loop with `break` finds the first match, or `None` exactly when nothing matches |
| Seqs.FindFirst | elifecleaner/parse.py:188-191 | the `for` loop that `break`s at the first hit returns the first element that passes |
| Seqs.FilterIn | elifecleaner/parse.py:284-286 | a comprehension keeps exactly the elements that satisfy its condition |

## Left out

- Archive and file handling are not modelled: `check_ejp_zip`, reading the XML file in
  `parse_article_xml`, and the `REPAIR_XML` retry around the parser. The asset map is
  given as a sequence of (zip path, local path) pairs in the map's iteration order.
- Page counting is not modelled. `pdf_page_count` opens a PDF, so it is the parameter
  `countPages`, which cannot raise. `pdf_page_count` logs and re-raises Wand's
  `WandRuntimeError` and `PolicyError` (elifecleaner/parse.py:308-326), so that exception
  path out of `figure_list` is not modelled.
- The docmap functions are not modelled, because they call the docmap library:
  `version_doi_from_docmap`, `review_date_from_docmap`, `add_sub_article_xml` and
  `sub_article_data`, plus the HTML to XML step at the start of `format_content_json`.
- `date_struct_from_string` is not modelled, because it calls `time.strptime`. Likewise
  `build.set_dmy` is not modelled: `Prc.Document.AddHistoryDate` takes the rendered
  date children as `dmy`.
- Prc.Document.TransformElocationId: only the default patterns `e(.*)` and `RP\1` are modelled. Other patterns are parameters in the code.
- SubArticle.Generate: the front-stub's children (`build.set_article_id`, `set_title_group`, `set_contrib`, `set_related_object`) are given as `frontStub`, because they come from the jatsgenerator library. `set_contrib` is not modelled for the same reason.
- SubArticle.ReorderReviewArticlesCorrect: the title-number regex and its `int()` are the parameter `num`, and the `print` of each item is left out.
- SubArticle.FormatContentJson: states each sub-article's header fields and the parent contributors' roles. It does not carry up the contributor lists of the sub-articles; `SubArticle.BuildSubArticleObject` states those per sub-article.
- SubArticle.BuildSubArticles: the same as `SubArticle.FormatContentJson`.
- SubArticle.BuildItem: the same as `SubArticle.FormatContentJson`.
- SubArticle.RepairNamespaces: Python visits the prefixes in set order. The model picks them in any order, so the contract states each attribute's value by name and that the old attributes keep their places. It does not state where new declarations land among themselves.
- Manifest.FindMissingValueBySequence: only the pattern `Figure (\d+)` that `find_missing_files_by_name` passes is modelled; other patterns, and the labels they would give, are not.
- Manifest.FileExtension: lower-cases ASCII letters only. Python's `str.lower` also changes non-ASCII letters.
- Manifest.MatchFigure: `\d` is taken as the ASCII digits. Python also accepts other Unicode decimal digits.
- Xml.FindAllComplete: completeness is proved for paths of child steps only. For paths with a descendant step (`.//`) the model rests on the definition of `AllPos`, which visits descendants in document order, and on `Xml.AllPosSound`.
- Strings.PyIntRejects: `int()` is modelled for ASCII digits and whitespace only.
- TextRepair.SpaceRun: `\s` is the ASCII whitespace together with `\x1c`–`\x1f`. Unicode whitespace beyond that is not modelled.
- `html.entities.entitydefs` is the parameter `table` rather than the standard table's contents.
- ElementTree is modelled by tag, attributes, text and children only. Tails, comments, namespaces in tags and parsing are left out; the parser and `tostring` are the parameters `parse` and `serialize`.
- The trees are values, so aliasing between trees is lost. For example, the `body` element that `generate` appends stays in the item's own tree in Python.
- All logging (`LOGGER`) is left out.
- Only the three files named above are modelled: `transform.py`, `table.py` and `article_from_xml` are not part of this model.
