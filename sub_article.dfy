/** Building the peer-review sub-articles of an article: the order of the review
    content items, the ids and DOIs of the sub-articles, their article types,
    contributors and titles, the `sub-article` tags generated for them and the
    namespace declarations the generated root needs. */
module SubArticle {
  import opened Wrappers
  import opened Strings
  import opened Seqs
  import opened Xml

  const EvaluationSummary := "evaluation-summary"
  const Reply := "reply"

  /** The namespace URI for each attribute prefix the generated XML may use. */
  const XmlNamespaces: map<string, string> := map[
    "ali" := "http://www.niso.org/schemas/ali/1.0/",
    "mml" := "http://www.w3.org/1998/Math/MathML",
    "xlink" := "http://www.w3.org/1999/xlink"]

  /** The sub-article `article-type` for each content type. */
  const ArticleTypeMap: map<string, string> := map[
    "evaluation-summary" := "editor-report",
    "review-article" := "referee-report",
    "reply" := "author-comment"]

  /** One review content item: its `type` and its XML. */
  datatype Content = Content(contentType: Option<string>, xml: string)

  // ---------------------------------------------------------------- ordering

  /** The sort key of an item: the number `num` finds after `#` in its article title,
      0 when there is none. */
  function NumKey(num: string -> nat): Content -> nat {
    (c: Content) => num(c.xml)
  }

  /** `reorder_review_articles`: a stable sort by the title number. */
  function ReorderReviewArticles(items: seq<Content>, num: string -> nat): seq<Content> {
    SortBy(items, NumKey(num))
  }

  /** The reordered items are the same items, ordered by number, and items with the
      same number (those without one among them) keep their relative order. */
  lemma {:induction false} ReorderReviewArticlesCorrect(items: seq<Content>, num: string -> nat)
    ensures multiset(ReorderReviewArticles(items, num)) == multiset(items)
    ensures SortedBy(ReorderReviewArticles(items, num), NumKey(num))
    ensures forall k: nat :: WithKey(ReorderReviewArticles(items, num), NumKey(num), k) == WithKey(items, NumKey(num), k)
  {
    SortByCorrect(items, NumKey(num));
    forall k: nat ensures WithKey(ReorderReviewArticles(items, num), NumKey(num), k) == WithKey(items, NumKey(num), k) {
      SortByStable(items, NumKey(num), k);
    }
  }

  function IsType(t: string): Content -> bool {
    (c: Content) => c.contentType == Some(t)
  }

  /** Neither an evaluation summary nor a reply (an item without a type included). */
  function IsReview(): Content -> bool {
    (c: Content) => c.contentType != Some(EvaluationSummary) && c.contentType != Some(Reply)
  }

  /** The three buckets divide the items between them. */
  lemma {:induction false} BucketsPartition(s: seq<Content>)
    ensures multiset(Filter(s, IsType(EvaluationSummary))) + multiset(Filter(s, IsReview())) + multiset(Filter(s, IsType(Reply)))
            == multiset(s)
  {
    if s != [] {
      var s' := s[..|s| - 1];
      BucketsPartition(s');
      assert s == s' + [s[|s| - 1]];
    }
  }

  /** `reorder_content_json`: evaluation summaries, then the other items reordered,
      then replies; no item is lost or duplicated. */
  function ReorderContentJson(items: seq<Content>, num: string -> nat): (r: seq<Content>)
    ensures multiset(r) == multiset(items) && |r| == |items|
  {
    ReorderReviewArticlesCorrect(Filter(items, IsReview()), num);
    BucketsPartition(items);
    var r := Filter(items, IsType(EvaluationSummary))
             + ReorderReviewArticles(Filter(items, IsReview()), num)
             + Filter(items, IsType(Reply));
    assert |multiset(r)| == |multiset(items)|;
    r
  }

  /** The reordered list is made of three blocks: the evaluation summaries in their
      input order, the other items sorted by number, the replies in their input order. */
  lemma {:induction false} ReorderContentJsonBlocks(items: seq<Content>, num: string -> nat)
    ensures var r := ReorderContentJson(items, num);
      var e := |Filter(items, IsType(EvaluationSummary))|;
      var m := |Filter(items, IsReview())|;
      && e + m <= |r|
      && r[..e] == Filter(items, IsType(EvaluationSummary))
      && multiset(r[e..e + m]) == multiset(Filter(items, IsReview()))
      && SortedBy(r[e..e + m], NumKey(num))
      && r[e + m..] == Filter(items, IsType(Reply))
  {
    var es := Filter(items, IsType(EvaluationSummary));
    var rs := Filter(items, IsType(Reply));
    var mid := ReorderReviewArticles(Filter(items, IsReview()), num);
    ReorderReviewArticlesCorrect(Filter(items, IsReview()), num);
    assert |mid| == |Filter(items, IsReview())| by {
      assert |multiset(mid)| == |multiset(Filter(items, IsReview()))|;
    }
    var r := ReorderContentJson(items, num);
    assert r == es + mid + rs;
    assert r[..|es|] == es;
    assert r[|es|..|es| + |mid|] == mid;
    assert r[|es| + |mid|..] == rs;
  }

  // ---------------------------------------------------------------- ids and DOIs

  /** `sub_article_id`. */
  function SubArticleId(index: nat): (r: string)
    ensures |r| > 2 && r[..2] == "sa" && AllDigits(r[2..])
  {
    "sa" + NatToString(index)
  }

  /** `"%s" % value` for a value that may be `None`. */
  function PyStr(s: Option<string>): string {
    if s.None? then "None" else s.value
  }

  /** `sub_article_doi`: the article DOI, a `.` and the sub-article id. */
  function SubArticleDoi(articleDoi: Option<string>, index: nat): string {
    PyStr(articleDoi) + "." + SubArticleId(index)
  }

  /** Different indexes give different ids. */
  lemma {:induction false} SubArticleIdInjective(i: nat, j: nat)
    ensures SubArticleId(i) == SubArticleId(j) ==> i == j
  {
    if SubArticleId(i) == SubArticleId(j) {
      assert NatToString(i) == SubArticleId(i)[2..];
      NatToStringInjective(i, j);
    }
  }

  /** Splitting a sub-article DOI at its last `.` gives back the article DOI and the id. */
  lemma {:induction false} SubArticleDoiParts(articleDoi: string, index: nat)
    ensures RSplitOnce(SubArticleDoi(Some(articleDoi), index), '.') == Some((articleDoi, SubArticleId(index)))
  {
    var id := SubArticleId(index);
    var digits := NatToString(index);
    forall k | 0 <= k < |id| ensures id[k] != '.' {
      if k >= 2 {
        assert id[k] == digits[k - 2] && IsDigit(digits[k - 2]);
      }
    }
    RSplitOnceOf(articleDoi, '.', id);
    assert articleDoi + "." + id == articleDoi + ['.'] + id;
  }

  // ---------------------------------------------------------------- article type

  /** `ARTICLE_TYPE_MAP.get(type, type)`. */
  function ArticleTypeOf(contentType: Option<string>): Option<string> {
    if contentType.Some? && contentType.value in ArticleTypeMap then Some(ArticleTypeMap[contentType.value])
    else contentType
  }

  /** The three mapped types are translated; any other type, or none, falls through. */
  lemma {:induction false} ArticleTypeOfCases(contentType: Option<string>)
    ensures contentType == Some("evaluation-summary") ==> ArticleTypeOf(contentType) == Some("editor-report")
    ensures contentType == Some("review-article") ==> ArticleTypeOf(contentType) == Some("referee-report")
    ensures contentType == Some("reply") ==> ArticleTypeOf(contentType) == Some("author-comment")
    ensures contentType !in {Some("evaluation-summary"), Some("review-article"), Some("reply")} ==>
              ArticleTypeOf(contentType) == contentType
  {
  }

  /** No translated type is itself translated again. */
  lemma {:induction false} ArticleTypeOfIdempotent(contentType: Option<string>)
    ensures ArticleTypeOf(ArticleTypeOf(contentType)) == ArticleTypeOf(contentType)
  {
    assert forall t :: t in ArticleTypeMap ==> ArticleTypeMap[t] !in ArticleTypeMap;
  }

  // ---------------------------------------------------------------- titles

  const TitleOpen := "<article-title>"
  const TitleClose := "</article-title>"
  const TitlePath: seq<Step> := [Desc("front-stub"), Child("title-group"), Child("article-title")]

  /** The serialised title with the `article-title` tags removed. */
  function StripTitle(s: string): string {
    ReplaceAll(ReplaceAll(s, TitleOpen, ""), TitleClose, "")
  }

  /** The sub-article title: `None` without an article title in the XML, otherwise
      the serialisation `serialize` gives of it, with its tags stripped. */
  function TitleOf(xmlRoot: Element, serialize: Element -> string): (r: Option<string>)
    ensures r.None? <==> FindElement(xmlRoot, TitlePath).None?
  {
    match FindElement(xmlRoot, TitlePath)
    case None => None
    case Some(t) => Some(StripTitle(serialize(t)))
  }

  lemma {:induction false} CloseHasNoOpen()
    ensures ReplaceAll(TitleClose, TitleOpen, "") == TitleClose
  {
    forall i | 0 <= i < |TitleClose| && i <= |TitleClose| ensures !StartsWith(TitleClose[i..], TitleOpen) {
      if i == 0 {
        assert TitleClose[i..][1] != TitleOpen[1];
      } else if i == 1 {
        assert TitleClose[i..][0] != TitleOpen[0];
      }
    }
    assert TitleClose + [] == TitleClose;
    ReplaceAllConcat(TitleClose, [], TitleOpen, "");
  }

  /** The inner markup of a serialised `<article-title>…</article-title>` is kept,
      inline tags included, as long as neither tag occurs inside it. */
  lemma {:induction false} StripTitleOf(t: string)
    requires NoMatchBefore(t + TitleClose, TitleOpen, |t|) && NoMatchBefore(t + TitleClose, TitleClose, |t|)
    ensures StripTitle(TitleOpen + t + TitleClose) == t
  {
    var s := TitleOpen + t + TitleClose;
    assert s[..|TitleOpen|] == TitleOpen && s[|TitleOpen|..] == t + TitleClose;
    ReplaceAllConcat(t, TitleClose, TitleOpen, "");
    CloseHasNoOpen();
    assert ReplaceAll(s, TitleOpen, "") == t + TitleClose;
    ReplaceAllConcat(t, TitleClose, TitleClose, "");
    assert TitleClose[..|TitleClose|] == TitleClose && TitleClose[|TitleClose|..] == [];
  }

  /** In particular a title of plain text is kept as it is. */
  lemma {:induction false} StripTitlePlain(t: string)
    requires forall k :: 0 <= k < |t| ==> t[k] != '<'
    ensures StripTitle(TitleOpen + t + TitleClose) == t
  {
    forall i | 0 <= i < |t| && i <= |t + TitleClose|
      ensures !StartsWith((t + TitleClose)[i..], TitleOpen) && !StartsWith((t + TitleClose)[i..], TitleClose)
    {
      assert (t + TitleClose)[i..][0] == t[i];
    }
    StripTitleOf(t);
  }

  // ---------------------------------------------------------------- contributors

  datatype Role = Role(text: string, specificUse: string)

  const EditorRole := Role("Reviewing Editor", "editor")
  const RefereeRole := Role("Reviewer", "referee")
  const AuthorRole := Role("Author", "author")

  /** The roles after `if not roles: roles = [role]`. */
  function DefaultRoles(roles: seq<Role>, role: Role): (r: seq<Role>)
    ensures r != []
    ensures roles != [] ==> r == roles
  {
    if roles == [] then [role] else roles
  }

  /** A contributor of an article, with the fields the rules read or set. */
  class Contributor {
    var contribType: string
    var surname: Option<string>
    var givenName: Option<string>
    var anonymous: bool
    var roles: seq<Role>

    constructor(contribType: string, surname: Option<string>, givenName: Option<string>)
      ensures this.contribType == contribType && this.surname == surname && this.givenName == givenName
      ensures !anonymous && roles == []
    {
      this.contribType := contribType;
      this.surname := surname;
      this.givenName := givenName;
      this.anonymous := false;
      this.roles := [];
    }

    /** `copy.copy`: a new contributor with the same field values. */
    method Copy() returns (c: Contributor)
      ensures fresh(c)
      ensures c.contribType == contribType && c.surname == surname && c.givenName == givenName
      ensures c.anonymous == anonymous && c.roles == roles
    {
      c := new Contributor(contribType, surname, givenName);
      c.anonymous := anonymous;
      c.roles := roles;
    }
  }

  /** An article (the parent, or a sub-article being built). */
  class Article {
    var doi: Option<string>
    var id: Option<string>
    var articleType: Option<string>
    var title: Option<string>
    var editors: seq<Contributor>
    var contributors: seq<Contributor>

    constructor(doi: Option<string>)
      ensures this.doi == doi && id == None && articleType == None && title == None
      ensures editors == [] && contributors == []
    {
      this.doi := doi;
      this.id := None;
      this.articleType := None;
      this.title := None;
      this.editors := [];
      this.contributors := [];
    }
  }

  /** `a` is the author made from editor `e`: its fields, the type `author`, and the
      editor role when `e` has no roles. */
  predicate EditorCopy(a: Contributor, e: Contributor)
    reads a, e
  {
    a.contribType == "author" && a.surname == e.surname && a.givenName == e.givenName
    && a.anonymous == e.anonymous && a.roles == DefaultRoles(e.roles, EditorRole)
  }

  /** The one anonymous author of a referee report. */
  predicate AnonymousReferee(a: Contributor)
    reads a
  {
    a.contribType == "author" && a.surname == None && a.givenName == None && a.anonymous && a.roles == [RefereeRole]
  }

  /** `sub_article_contributors`, from the contributors `sub` had before: editor
      reports gain a new copy of each editor, referee reports one new anonymous
      author, author comments the parent's contributors themselves, whose empty roles
      are set to the author role; other types gain nothing. */
  twostate predicate ContributorsAdded(article: Article, new sub: Article, before: seq<Contributor>)
    reads article, sub, article.editors, article.contributors, sub.contributors
  {
    && |before| <= |sub.contributors| && sub.contributors[..|before|] == before
    && AddedFor(article, sub.articleType, sub.contributors[|before|..])
    && article.editors == old(article.editors)
    && (forall e :: e in old(article.editors) ==> e.contribType == old(e.contribType))
    && article.contributors == old(article.contributors)
    && forall c :: c in old(article.contributors) ==>
         && c.contribType == old(c.contribType) && c.surname == old(c.surname)
         && c.givenName == old(c.givenName) && c.anonymous == old(c.anonymous)
         && c.roles == if sub.articleType == Some("author-comment") then DefaultRoles(old(c.roles), AuthorRole) else old(c.roles)
  }

  /** The contributors a sub-article of type `articleType` gains. */
  twostate predicate AddedFor(article: Article, new articleType: Option<string>, new added: seq<Contributor>)
    reads article, article.editors, added
  {
    if articleType == Some("editor-report") then
      |added| == |article.editors|
      && forall k :: 0 <= k < |added| ==> fresh(added[k]) && EditorCopy(added[k], article.editors[k])
    else if articleType == Some("referee-report") then
      |added| == 1 && fresh(added[0]) && AnonymousReferee(added[0])
    else if articleType == Some("author-comment") then
      added == article.contributors
    else added == []
  }

  /** The editor-report loop: one copy per editor, in order. */
  method AddEditorAuthors(editors: seq<Contributor>, sub: Article)
    modifies sub
    ensures sub.doi == old(sub.doi) && sub.id == old(sub.id) && sub.articleType == old(sub.articleType)
    ensures sub.title == old(sub.title) && sub.editors == old(sub.editors)
    ensures |old(sub.contributors)| <= |sub.contributors|
    ensures sub.contributors[..|old(sub.contributors)|] == old(sub.contributors)
    ensures var added := sub.contributors[|old(sub.contributors)|..];
      && |added| == |editors|
      && forall k :: 0 <= k < |added| ==> fresh(added[k]) && EditorCopy(added[k], editors[k])
  {
    var added: seq<Contributor> := [];
    var i := 0;
    while i < |editors|
      invariant 0 <= i <= |editors| && |added| == i
      invariant sub.doi == old(sub.doi) && sub.id == old(sub.id) && sub.articleType == old(sub.articleType)
      invariant sub.title == old(sub.title) && sub.editors == old(sub.editors)
      invariant sub.contributors == old(sub.contributors) + added
      invariant forall k :: 0 <= k < i ==> fresh(added[k]) && EditorCopy(added[k], editors[k])
    {
      var author := editors[i].Copy();
      author.contribType := "author";
      if author.roles == [] {
        author.roles := [EditorRole];
      }
      added := added + [author];
      sub.contributors := sub.contributors + [author];
      i := i + 1;
    }
    assert sub.contributors[|old(sub.contributors)|..] == added;
  }

  /** The author-comment loop: each contributor, roles defaulted, then appended. */
  method AddCommentAuthors(authors: seq<Contributor>, sub: Article)
    modifies sub, authors
    ensures sub.doi == old(sub.doi) && sub.id == old(sub.id) && sub.articleType == old(sub.articleType)
    ensures sub.title == old(sub.title) && sub.editors == old(sub.editors)
    ensures sub.contributors == old(sub.contributors) + authors
    ensures forall c :: c in authors ==>
              && c.contribType == old(c.contribType) && c.surname == old(c.surname)
              && c.givenName == old(c.givenName) && c.anonymous == old(c.anonymous)
              && c.roles == DefaultRoles(old(c.roles), AuthorRole)
  {
    var i := 0;
    while i < |authors|
      invariant 0 <= i <= |authors|
      invariant sub.doi == old(sub.doi) && sub.id == old(sub.id) && sub.articleType == old(sub.articleType)
      invariant sub.title == old(sub.title) && sub.editors == old(sub.editors)
      invariant sub.contributors == old(sub.contributors) + authors[..i]
      invariant forall c :: c in authors ==>
                  && c.contribType == old(c.contribType) && c.surname == old(c.surname)
                  && c.givenName == old(c.givenName) && c.anonymous == old(c.anonymous)
                  && c.roles == if c in authors[..i] then DefaultRoles(old(c.roles), AuthorRole) else old(c.roles)
    {
      var author := authors[i];
      if author.roles == [] {
        author.roles := [AuthorRole];
      }
      sub.contributors := sub.contributors + [author];
      assert authors[..i + 1] == authors[..i] + [author];
      i := i + 1;
    }
    assert authors[..i] == authors;
  }

  /** `sub_article_contributors`. */
  method SubArticleContributors(article: Article, sub: Article)
    requires sub != article
    modifies sub, article.contributors
    ensures sub.doi == old(sub.doi) && sub.id == old(sub.id) && sub.articleType == old(sub.articleType)
    ensures sub.title == old(sub.title) && sub.editors == old(sub.editors)
    ensures ContributorsAdded(article, sub, old(sub.contributors))
  {
    var before := sub.contributors;
    if sub.articleType == Some("editor-report") {
      AddEditorAuthors(article.editors, sub);
      assert AddedFor(article, sub.articleType, sub.contributors[|before|..]);
    } else if sub.articleType == Some("referee-report") {
      var anonymous := new Contributor("author", None, None);
      anonymous.anonymous := true;
      anonymous.roles := [RefereeRole];
      sub.contributors := sub.contributors + [anonymous];
      assert sub.contributors[|before|..] == [anonymous];
    } else if sub.articleType == Some("author-comment") {
      AddCommentAuthors(article.contributors, sub);
      assert sub.contributors[|before|..] == article.contributors;
    }
    assert sub.contributors[..|before|] == before;
  }

  /** The header fields `build_sub_article_object` sets on a sub-article. */
  datatype Header = Header(doi: Option<string>, id: Option<string>, articleType: Option<string>, title: Option<string>)

  /** The header of the sub-article for the item at `index`. */
  function HeaderFor(articleDoi: Option<string>, item: Content, index: nat, xmlRoot: Element,
                     serialize: Element -> string): Header
  {
    Header(Some(SubArticleDoi(articleDoi, index)), Some(SubArticleId(index)),
           ArticleTypeOf(item.contentType), TitleOf(xmlRoot, serialize))
  }

  /** `sub` carries header `h` and no editors. */
  predicate HasHeader(sub: Article, h: Header)
    reads sub
  {
    && sub.doi == h.doi && sub.id == h.id && sub.articleType == h.articleType && sub.title == h.title
    && sub.editors == []
  }

  /** `sub` is the sub-article `build_sub_article_object` makes for `item` at `index`,
      as far as its own fields go. */
  predicate BuiltFor(sub: Article, articleDoi: Option<string>, item: Content, index: nat, xmlRoot: Element,
                     serialize: Element -> string)
    reads sub
  {
    HasHeader(sub, HeaderFor(articleDoi, item, index, xmlRoot, serialize))
  }

  /** `build_sub_article_object`: the sub-article for the item at `index`. */
  method BuildSubArticleObject(article: Article, xmlRoot: Element, content: Content, index: nat, serialize: Element -> string)
    returns (sub: Article)
    modifies article.contributors
    ensures fresh(sub) && BuiltFor(sub, article.doi, content, index, xmlRoot, serialize)
    ensures ContributorsAdded(article, sub, [])
  {
    sub := new Article(Some(SubArticleDoi(article.doi, index)));
    sub.id := Some(SubArticleId(index));
    sub.articleType := ArticleTypeOf(content.contentType);
    SubArticleContributors(article, sub);
    var titleTag := FindElement(xmlRoot, TitlePath);
    if titleTag.Some? {
      sub.title := Some(StripTitle(serialize(titleTag.value)));
    }
  }

  /** Some item becomes an author comment, so the parent's contributors are aliased
      and their empty roles set. */
  predicate HasAuthorComment(items: seq<Content>) {
    exists k :: 0 <= k < |items| && ArticleTypeOf(items[k].contentType) == Some("author-comment")
  }

  /** The `enumerate` loop of `format_content_json`: one sub-article per item,
      numbered by its place in `items`; `parse` stands for the XML parser. */
  method BuildSubArticles(items: seq<Content>, article: Article, parse: string -> Element, serialize: Element -> string)
    returns (data: seq<(Article, Element)>)
    modifies article.contributors
    ensures |data| == |items|
    ensures forall i :: 0 <= i < |data| ==>
      fresh(data[i].0) && data[i].1 == parse(items[i].xml) && BuiltFor(data[i].0, article.doi, items[i], i, data[i].1, serialize)
    ensures forall c :: c in article.contributors ==>
      c.roles == if HasAuthorComment(items) then DefaultRoles(old(c.roles), AuthorRole) else old(c.roles)
  {
    data := [];
    ghost var commented := false;
    ghost var roles0 := map c | c in article.contributors :: c.roles;
    ghost var roots := seq(|items|, k requires 0 <= k < |items| => parse(items[k].xml));
    ghost var doi := article.doi;
    ghost var headers := seq(|items|, k requires 0 <= k < |items| => HeaderFor(doi, items[k], k, roots[k], serialize));
    var i := 0;
    while i < |items|
      invariant 0 <= i <= |items| && |data| == i
      invariant article.contributors == old(article.contributors)
      invariant forall c :: c in roles0 <==> c in old(article.contributors)
      invariant forall c :: c in roles0 ==> roles0[c] == old(c.roles)
      invariant forall k :: 0 <= k < i ==> fresh(data[k].0)
      invariant BuiltSoFar(data, roots, headers)
      invariant commented == HasAuthorComment(items[..i])
      invariant RolesFilled(article.contributors, roles0, commented)
    {
      var sub, xmlRoot := BuildItem(article, items[i], i, parse, serialize, data, roots, headers, roles0, commented);
      assert xmlRoot == roots[i] && HasHeader(sub, headers[i]);
      BuiltSoFarSnoc(data, roots, headers, sub, xmlRoot);
      AuthorCommentSnoc(items, i);
      commented := commented || sub.articleType == Some("author-comment");
      data := data + [(sub, xmlRoot)];
      i := i + 1;
    }
    assert items[..i] == items;
    assert forall k :: 0 <= k < |items| ==> roots[k] == parse(items[k].xml);
  }

  /** Each pair built so far holds its item's parsed XML and a sub-article with its header. */
  ghost predicate BuiltSoFar(data: seq<(Article, Element)>, roots: seq<Element>, headers: seq<Header>)
    reads set k | 0 <= k < |data| :: data[k].0
  {
    |data| <= |roots| && |data| <= |headers|
    && forall k :: 0 <= k < |data| ==> data[k].1 == roots[k] && HasHeader(data[k].0, headers[k])
  }

  lemma {:induction false} BuiltSoFarSnoc(data: seq<(Article, Element)>, roots: seq<Element>, headers: seq<Header>, sub: Article, xmlRoot: Element)
    requires BuiltSoFar(data, roots, headers) && |data| < |roots| && |data| < |headers|
    requires xmlRoot == roots[|data|] && HasHeader(sub, headers[|data|])
    ensures BuiltSoFar(data + [(sub, xmlRoot)], roots, headers)
  {
    var d := data + [(sub, xmlRoot)];
    assert forall k :: 0 <= k < |data| ==> d[k] == data[k];
  }

  lemma {:induction false} AuthorCommentSnoc(items: seq<Content>, i: nat)
    requires i < |items|
    ensures HasAuthorComment(items[..i + 1]) <==>
              HasAuthorComment(items[..i]) || ArticleTypeOf(items[i].contentType) == Some("author-comment")
  {
    assert items[..i + 1][i] == items[i];
    assert forall k :: 0 <= k < i ==> items[..i + 1][k] == items[..i][k];
  }

  /** The roles of `cs` are those of `roles0`, with empty ones set to the author role
      once an author comment has been built. */
  ghost predicate RolesFilled(cs: seq<Contributor>, roles0: map<Contributor, seq<Role>>, commented: bool)
    reads set c | c in cs
  {
    forall c :: c in cs ==> c in roles0 && c.roles == if commented then DefaultRoles(roles0[c], AuthorRole) else roles0[c]
  }

  /** One turn of the loop in `format_content_json`: parse the item's XML and build its
      sub-article. The parent keeps its contributors; their roles are filled in only
      for an author comment. */
  method BuildItem(article: Article, item: Content, index: nat, parse: string -> Element, serialize: Element -> string,
                   ghost built: seq<(Article, Element)>, ghost roots: seq<Element>, ghost headers: seq<Header>,
                   ghost roles0: map<Contributor, seq<Role>>, ghost commented: bool)
    returns (sub: Article, xmlRoot: Element)
    requires BuiltSoFar(built, roots, headers)
    requires RolesFilled(article.contributors, roles0, commented)
    modifies article.contributors
    ensures BuiltSoFar(built, roots, headers)
    ensures RolesFilled(article.contributors, roles0, commented || sub.articleType == Some("author-comment"))
    ensures fresh(sub) && xmlRoot == parse(item.xml) && BuiltFor(sub, article.doi, item, index, xmlRoot, serialize)
    ensures article.contributors == old(article.contributors)
    ensures forall c :: c in article.contributors ==>
      c.roles == if sub.articleType == Some("author-comment") then DefaultRoles(old(c.roles), AuthorRole) else old(c.roles)
  {
    xmlRoot := parse(item.xml);
    sub := BuildSubArticleObject(article, xmlRoot, item, index, serialize);
  }

  /** `format_content_json` after the HTML to XML conversion: the items are reordered,
      then each becomes a sub-article numbered by its place in the new order. Every
      sub-article is a new object with its own id, and the parent's contributors had
      their empty roles set exactly when some item is an author comment. */
  method FormatContentJson(contents: seq<Content>, article: Article, num: string -> nat,
                           parse: string -> Element, serialize: Element -> string)
    returns (data: seq<(Article, Element)>)
    modifies article.contributors
    ensures |data| == |ReorderContentJson(contents, num)| == |contents|
    ensures forall i :: 0 <= i < |data| ==>
      var item := ReorderContentJson(contents, num)[i];
      fresh(data[i].0) && data[i].1 == parse(item.xml) && BuiltFor(data[i].0, article.doi, item, i, data[i].1, serialize)
    ensures forall i, j :: 0 <= i < j < |data| ==> data[i].0.id != data[j].0.id
    ensures forall c :: c in article.contributors ==>
      c.roles == if HasAuthorComment(ReorderContentJson(contents, num)) then DefaultRoles(old(c.roles), AuthorRole) else old(c.roles)
  {
    var items := ReorderContentJson(contents, num);
    data := BuildSubArticles(items, article, parse, serialize);
    forall i, j | 0 <= i < j < |data| ensures data[i].0.id != data[j].0.id {
      SubArticleIdInjective(i, j);
    }
  }

  // ---------------------------------------------------------------- generated XML

  /** What `generate` needs of one data item: the sub-article's id and type, the
      children the front-stub is rendered into, and the item's parsed XML. */
  datatype SubArticleItem = SubArticleItem(id: Option<string>, articleType: Option<string>,
                                           frontStub: seq<Element>, xmlRoot: Element)

  /** The `sub-article` tag `generate` appends for an item: `id` and `article-type`
      only when non-empty, the front-stub, then the item's first `body`, if any. */
  function SubArticleTag(item: SubArticleItem): (r: Element)
    ensures r.tag == "sub-article" && r.text == None
    ensures GetAttr(r.attrs, "id") == (if Truthy(item.id) then item.id else None)
    ensures GetAttr(r.attrs, "article-type") == (if Truthy(item.articleType) then item.articleType else None)
    ensures |r.children| == (if First(item.xmlRoot.children, HasTag("body")).Some? then 2 else 1)
    ensures r.children[0] == Element("front-stub", [], None, item.frontStub)
    ensures |r.children| == 2 ==> r.children[1] == First(item.xmlRoot.children, HasTag("body")).value
  {
    var withId := if Truthy(item.id) then SetAttr([], "id", item.id.value) else [];
    var attrs := if Truthy(item.articleType) then SetAttr(withId, "article-type", item.articleType.value) else withId;
    SetAttrGet([], "id", if Truthy(item.id) then item.id.value else "", "article-type");
    SetAttrGet(withId, "article-type", if Truthy(item.articleType) then item.articleType.value else "", "id");
    var frontStub := Element("front-stub", [], None, item.frontStub);
    var body := First(item.xmlRoot.children, HasTag("body"));
    Element("sub-article", attrs, None, [frontStub] + (if body.Some? then [body.value] else []))
  }

  /** `generate`: one `sub-article` per item, in order, under a new `article` root
      whose namespace declarations are then repaired. */
  method Generate(items: seq<SubArticleItem>) returns (root: Element)
    ensures root.tag == "article" && root.text == None
    ensures |root.children| == |items| && forall i :: 0 <= i < |items| ==> root.children[i] == SubArticleTag(items[i])
    ensures forall name :: GetAttr(root.attrs, name) == RepairedAttr(Element("article", [], None, root.children), name)
  {
    root := NewElement("article");
    var i := 0;
    while i < |items|
      invariant 0 <= i <= |items|
      invariant root.tag == "article" && root.attrs == [] && root.text == None
      invariant |root.children| == i && forall k :: 0 <= k < i ==> root.children[k] == SubArticleTag(items[k])
    {
      root := AppendChild(root, SubArticleTag(items[i]));
      i := i + 1;
    }
    root := RepairNamespaces(root);
  }

  // ---------------------------------------------------------------- namespaces

  /** The attribute names of a node. */
  function NodeAttrNames(e: Element): set<string> {
    set a | a in e.attrs :: a.0
  }

  /** The attribute names of every node of the tree, as `root.iter("*")` visits them. */
  function AttrNames(e: Element): set<string>
    decreases e, 1, 0
  {
    NodeAttrNames(e) + AttrNamesFrom(e, 0)
  }

  function AttrNamesFrom(e: Element, i: nat): set<string>
    requires i <= |e.children|
    decreases e, 0, |e.children| - i
  {
    if i == |e.children| then {} else AttrNames(e.children[i]) + AttrNamesFrom(e, i + 1)
  }

  /** The text before the first `:` of every attribute name that has one. */
  function Prefixes(e: Element): set<string> {
    set n | n in AttrNames(e) && ':' in n :: BeforeFirst(n, ':')
  }

  /** The prefixes in use that `XmlNamespaces` knows. */
  function KnownPrefixes(e: Element): set<string> {
    set p | p in Prefixes(e) && p in XmlNamespaces
  }

  const XmlnsPrefix := "xmlns:"

  /** The value `repair_namespaces` leaves for attribute `name` of the root: the URI of
      a known prefix in use for its `xmlns:` declaration, otherwise what it was. */
  function RepairedAttr(root: Element, name: string): Option<string> {
    if StartsWith(name, XmlnsPrefix) && name[|XmlnsPrefix|..] in KnownPrefixes(root)
    then Some(XmlNamespaces[name[|XmlnsPrefix|..]])
    else GetAttr(root.attrs, name)
  }

  /** `RepairedAttr` while the prefixes in `todo` are still to be handled. */
  function RepairedExcept(root: Element, todo: set<string>, name: string): Option<string> {
    if StartsWith(name, XmlnsPrefix) && name[|XmlnsPrefix|..] in KnownPrefixes(root) && name[|XmlnsPrefix|..] !in todo
    then Some(XmlNamespaces[name[|XmlnsPrefix|..]])
    else GetAttr(root.attrs, name)
  }

  /** `repair_namespaces`: for each prefix in use (in an unspecified order, as Python
      iterates over a set), a known one gets its declaration set on the root. */
  method RepairNamespaces(root: Element) returns (r: Element)
    ensures r == root.(attrs := r.attrs)
    ensures forall name :: GetAttr(r.attrs, name) == RepairedAttr(root, name)
    ensures |root.attrs| <= |r.attrs| && forall k :: 0 <= k < |root.attrs| ==> r.attrs[k].0 == root.attrs[k].0
  {
    var todo := Prefixes(root);
    r := root;
    while todo != {}
      invariant todo <= Prefixes(root)
      invariant r == root.(attrs := r.attrs)
      invariant forall name :: GetAttr(r.attrs, name) == RepairedExcept(root, todo, name)
      invariant |root.attrs| <= |r.attrs| && forall k :: 0 <= k < |root.attrs| ==> r.attrs[k].0 == root.attrs[k].0
      decreases |todo|
    {
      var prefix :| prefix in todo;
      var rest := todo - {prefix};
      if prefix in XmlNamespaces {
        var declaration := XmlnsPrefix + prefix;
        var attrs := SetAttr(r.attrs, declaration, XmlNamespaces[prefix]);
        forall name ensures GetAttr(attrs, name) == RepairedExcept(root, rest, name) {
          SetAttrGet(r.attrs, declaration, XmlNamespaces[prefix], name);
          if StartsWith(name, XmlnsPrefix) && name[|XmlnsPrefix|..] == prefix {
            assert name == declaration by {
              assert name == name[..|XmlnsPrefix|] + name[|XmlnsPrefix|..];
            }
          }
          if name == declaration {
            assert name[|XmlnsPrefix|..] == prefix;
          }
        }
        r := r.(attrs := attrs);
      } else {
        forall name ensures GetAttr(r.attrs, name) == RepairedExcept(root, rest, name) {
          assert RepairedExcept(root, rest, name) == RepairedExcept(root, todo, name);
        }
      }
      todo := rest;
    }
    assert forall name :: RepairedExcept(root, {}, name) == RepairedAttr(root, name);
  }

  lemma {:induction false} NodeAttrNamesHas(e: Element, name: string)
    ensures name in NodeAttrNames(e) <==> HasAttr(e.attrs, name)
  {
    if HasAttr(e.attrs, name) {
      var k :| 0 <= k < |e.attrs| && e.attrs[k].0 == name;
      assert e.attrs[k] in e.attrs;
    }
  }

  lemma {:induction false} AttrNamesFromChildren(a: Element, b: Element, i: nat)
    requires a.children == b.children && i <= |a.children|
    ensures AttrNamesFrom(a, i) == AttrNamesFrom(b, i)
    decreases |a.children| - i
  {
    if i < |a.children| {
      AttrNamesFromChildren(a, b, i + 1);
    }
  }

  /** The declarations themselves have the prefix `xmlns`, which is not a known one. */
  lemma {:induction false} DeclarationPrefix(name: string)
    requires StartsWith(name, XmlnsPrefix)
    ensures ':' in name && BeforeFirst(name, ':') == "xmlns" && "xmlns" !in XmlNamespaces
  {
    assert name == "xmlns" + [':'] + name[|XmlnsPrefix|..];
    BeforeFirstOf("xmlns", ':', name[|XmlnsPrefix|..]);
  }

  /** Repairing an already repaired root changes no attribute: the declarations it
      added bring no new known prefix. */
  lemma {:induction false} RepairNamespacesStable(root: Element, r: Element)
    requires r == root.(attrs := r.attrs)
    requires forall name :: GetAttr(r.attrs, name) == RepairedAttr(root, name)
    ensures forall name :: RepairedAttr(r, name) == GetAttr(r.attrs, name)
  {
    AttrNamesFromChildren(r, root, 0);
    forall p | p in KnownPrefixes(r) ensures p in KnownPrefixes(root) {
      var n :| n in AttrNames(r) && ':' in n && BeforeFirst(n, ':') == p;
      if n in NodeAttrNames(r) {
        NodeAttrNamesHas(r, n);
        if StartsWith(n, XmlnsPrefix) {
          DeclarationPrefix(n);
        }
        assert GetAttr(root.attrs, n) == GetAttr(r.attrs, n);
        NodeAttrNamesHas(root, n);
      }
      assert n in AttrNames(root);
      assert BeforeFirst(n, ':') in Prefixes(root);
    }
  }
}
