/** The two string passes `elifecleaner/parse.py` applies to article XML text before
    handing it to the XML parser: HTML entity unescaping and the injection of the
    `xmlns:xlink` namespace declaration into `<article>` open tags. Both are
    `re.sub` calls; the regular expressions are written out as scans. */
module TextRepair {
  import opened Wrappers
  import opened Strings

  // ---------------------------------------------------------------- entities

  /** A character of `[^\t\n\f <&#;]`. */
  predicate NameChar(c: char) {
    c != '\t' && c != '\n' && c != '\U{0c}' && c != ' ' && c != '<' && c != '&' && c != '#' && c != ';'
  }

  /** The length of the longest run of name characters at the start of `s`. */
  function NameRun(s: string): (n: nat)
    ensures n <= |s| && (forall k :: 0 <= k < n ==> NameChar(s[k])) && (n < |s| ==> !NameChar(s[n]))
  {
    if s == [] || !NameChar(s[0]) then 0 else 1 + NameRun(s[1..])
  }

  /** `&([^\t\n\f <&#;]{1,32}?);` matched at the start of `s`: the length of the
      entity name. As `;` is not a name character the lazy repetition ends at the end
      of the run, which must hold 1 to 32 characters and be followed by `;`. */
  function EntityAt(s: string): (r: Option<nat>)
    ensures r.Some? ==> 1 <= r.value <= 32 && r.value + 2 <= |s| && s[0] == '&' && s[r.value + 1] == ';'
  {
    if s != [] && s[0] == '&' then
      var n := NameRun(s[1..]);
      if 1 <= n <= 32 && n + 1 < |s| && s[n + 1] == ';' then Some(n) else None
    else None
  }

  /** `replace_entity`: names in the table other than `amp`, `lt` and `gt` become
      their text, every other name is written back as `&name;`. */
  function ReplaceEntity(table: map<string, string>, name: string): string {
    if name in table && name !in ["amp", "lt", "gt"] then table[name] else "&" + name + ";"
  }

  /** `re.sub(pattern, replace_entity, s)`, scanning left to right. */
  function Unescape(table: map<string, string>, s: string): string
    decreases |s|
  {
    if s == [] then []
    else
      match EntityAt(s)
      case Some(n) => ReplaceEntity(table, s[1..n + 1]) + Unescape(table, s[n + 2..])
      case None => [s[0]] + Unescape(table, s[1..])
  }

  /** `html_entity_unescape`, with `html.entities.entitydefs` as the parameter
      `table`. */
  function HtmlEntityUnescape(table: map<string, string>, s: string): string {
    if forall k :: 0 <= k < |s| ==> s[k] != '&' then s else Unescape(table, s)
  }

  /** Text without `&` passes through the scan unchanged, so the early return for such
      text changes nothing. */
  lemma {:induction false} UnescapeNoAmp(table: map<string, string>, s: string)
    requires forall k :: 0 <= k < |s| ==> s[k] != '&'
    ensures Unescape(table, s) == s
    ensures HtmlEntityUnescape(table, s) == s
  {
    if s != [] {
      UnescapeNoAmp(table, s[1..]);
    }
  }

  lemma {:induction false} HtmlEntityUnescapeIsScan(table: map<string, string>, s: string)
    ensures HtmlEntityUnescape(table, s) == Unescape(table, s)
  {
    if forall k :: 0 <= k < |s| ==> s[k] != '&' {
      UnescapeNoAmp(table, s);
    }
  }

  /** Text before the first `&` is copied, and the rest is scanned on its own. */
  lemma {:induction false} UnescapePrefix(table: map<string, string>, a: string, b: string)
    requires forall k :: 0 <= k < |a| ==> a[k] != '&'
    ensures Unescape(table, a + b) == a + Unescape(table, b)
  {
    if a != [] {
      var s := a + b;
      assert s[0] == a[0] && s[1..] == a[1..] + b;
      assert EntityAt(s) == None;
      assert Unescape(table, s) == [a[0]] + Unescape(table, a[1..] + b);
      UnescapePrefix(table, a[1..], b);
      ConsConcat(a, Unescape(table, b));
    } else {
      assert a + b == b;
    }
  }

  lemma {:induction false} ConsConcat(a: string, b: string)
    requires a != []
    ensures [a[0]] + (a[1..] + b) == a + b
  {
    assert a == [a[0]] + a[1..];
  }

  /** A well-formed entity: 1 to 32 name characters. */
  predicate EntityName(name: string) {
    1 <= |name| <= 32 && forall k :: 0 <= k < |name| ==> NameChar(name[k])
  }

  lemma {:induction false} EntityAtName(name: string, rest: string)
    requires EntityName(name)
    ensures EntityAt("&" + name + ";" + rest) == Some(|name|)
    ensures ("&" + name + ";" + rest)[1..|name| + 1] == name
    ensures ("&" + name + ";" + rest)[|name| + 2..] == rest
  {
    var s := "&" + name + ";" + rest;
    assert s[1..][..|name|] == name;
    assert s[1..][|name|] == ';';
    NameRunStops(s[1..], |name|);
  }

  lemma {:induction false} NameRunStops(s: string, n: nat)
    requires n < |s| && !NameChar(s[n]) && forall k :: 0 <= k < n ==> NameChar(s[k])
    ensures NameRun(s) == n
  {
    if n > 0 {
      NameRunStops(s[1..], n - 1);
    }
  }

  /** An entity whose name is in the table, other than `amp`, `lt` and `gt`, becomes
      the table's text. */
  lemma {:induction false} UnescapeKnown(table: map<string, string>, name: string, rest: string)
    requires EntityName(name) && name in table && name !in ["amp", "lt", "gt"]
    ensures Unescape(table, "&" + name + ";" + rest) == table[name] + Unescape(table, rest)
  {
    UnescapeEntity(table, name, rest);
    ReplaceEntityKnown(table, name);
  }

  /** A well-formed entity is replaced by `replace_entity`'s result for its name. */
  lemma {:induction false} UnescapeEntity(table: map<string, string>, name: string, rest: string)
    requires EntityName(name)
    ensures Unescape(table, "&" + name + ";" + rest) == ReplaceEntity(table, name) + Unescape(table, rest)
  {
    EntityAtName(name, rest);
    UnescapeAt(table, "&" + name + ";" + rest, name, rest);
  }

  lemma {:induction false} ReplaceEntityKnown(table: map<string, string>, name: string)
    requires name in table && name !in ["amp", "lt", "gt"]
    ensures ReplaceEntity(table, name) == table[name]
  {
  }

  /** `&amp;`, `&lt;`, `&gt;` and names the table lacks are left as they are. */
  lemma {:induction false} UnescapeKept(table: map<string, string>, name: string, rest: string)
    requires EntityName(name) && (name !in table || name in ["amp", "lt", "gt"])
    ensures Unescape(table, "&" + name + ";" + rest) == "&" + name + ";" + Unescape(table, rest)
  {
    UnescapeEntity(table, name, rest);
    assert ReplaceEntity(table, name) == "&" + name + ";";
  }

  lemma {:induction false} UnescapeAt(table: map<string, string>, s: string, name: string, rest: string)
    requires EntityAt(s) == Some(|name|) && s[1..|name| + 1] == name && s[|name| + 2..] == rest
    ensures Unescape(table, s) == ReplaceEntity(table, name) + Unescape(table, rest)
  {
    assert s != [];
  }

  /** A match is `&`, a well-formed name and `;`. */
  lemma {:induction false} EntityAtSplit(s: string, n: nat)
    requires EntityAt(s) == Some(n)
    ensures EntityName(s[1..n + 1]) && s == "&" + s[1..n + 1] + ";" + s[n + 2..]
  {
    var name := s[1..n + 1];
    var rest := s[n + 2..];
    assert forall k :: 0 <= k < n ==> name[k] == s[1..][k];
    var t := "&" + name + ";" + rest;
    assert |t| == |s|;
    forall k | 0 <= k < |s| ensures t[k] == s[k] {
      if 1 <= k <= n {
        assert t[k] == name[k - 1];
      } else if n + 2 <= k {
        assert t[k] == rest[k - n - 2];
      }
    }
  }

  /** With an empty table every entity is written back as it was: the scan alone
      changes nothing. */
  lemma {:induction false} UnescapeEmptyTable(s: string)
    ensures Unescape(map[], s) == s
    decreases |s|
  {
    if s != [] {
      match EntityAt(s)
      case Some(n) =>
        EntityAtSplit(s, n);
        UnescapeKept(map[], s[1..n + 1], s[n + 2..]);
        UnescapeEmptyTable(s[n + 2..]);
      case None =>
        UnescapeEmptyTable(s[1..]);
        assert s == [s[0]] + s[1..];
    }
  }

  // ---------------------------------------------------------------- xmlns:xlink

  /** The declaration whose presence anywhere in the text switches the repair off. */
  const XlinkDeclaration: string := "xmlns:xlink=\"http://www.w3.org/1999/xlink\""

  /** The length of the run of whitespace (`\s`) at the start of `s`. */
  function SpaceRun(s: string): (n: nat)
    ensures n <= |s| && (forall k :: 0 <= k < n ==> IsPySpace(s[k])) && (n < |s| ==> !IsPySpace(s[n]))
  {
    if s == [] || !IsPySpace(s[0]) then 0 else 1 + SpaceRun(s[1..])
  }

  /** `.*?>` at the start of `s`: the index of the first `>`, provided no newline comes
      before it (`.` does not match a newline). */
  function TagEnd(s: string): (r: Option<nat>)
    ensures r.Some? ==> r.value < |s| && s[r.value] == '>'
                        && forall k :: 0 <= k < r.value ==> s[k] != '>' && s[k] != '\n'
    ensures r.None? ==> forall k :: 0 <= k < |s| && s[k] == '>' ==> exists j :: 0 <= j < k && s[j] == '\n'
  {
    if s == [] then None
    else if s[0] == '>' then Some(0)
    else if s[0] == '\n' then None
    else
      var r := TagEnd(s[1..]);
      assert forall k :: 1 <= k < |s| ==> s[k] == s[1..][k - 1];
      if r.Some? then Some(r.value + 1) else None
  }

  /** `<article>|<article(\s{1,}.*?)>` matched at the start of `s`: the length of
      group 1. Greedy `\s{1,}` takes the whole whitespace run; giving some back cannot
      help, since the first `>` after the run is the same and `.` cannot cross a
      newline of the run. */
  function ArticleTagAt(s: string): (r: Option<nat>)
    ensures r.Some? ==> StartsWith(s, "<article") && 9 + r.value <= |s| && s[8 + r.value] == '>'
  {
    if StartsWith(s, "<article>") then Some(0)
    else if StartsWith(s, "<article") then
      var m := SpaceRun(s[8..]);
      if m == 0 then None
      else
        match TagEnd(s[8 + m..])
        case Some(j) => Some(m + j)
        case None => None
    else None
  }

  /** `re.sub` of the article-tag pattern with `<article\1 xmlns:xlink="…">`. */
  function RepairScan(s: string): string
    decreases |s|
  {
    if s == [] then []
    else
      match ArticleTagAt(s)
      case Some(g) => "<article" + s[8..8 + g] + " " + XlinkDeclaration + ">" + RepairScan(s[9 + g..])
      case None => [s[0]] + RepairScan(s[1..])
  }

  /** `repair_article_xml`. */
  function RepairArticleXml(s: string): (r: string)
    ensures r == s || Contains(r, XlinkDeclaration)
  {
    if Contains(s, XlinkDeclaration) then s else RepairScanEffect(s); RepairScan(s)
  }

  /** `<article>` gains the declaration. */
  lemma {:induction false} RepairBareTag(rest: string)
    ensures RepairScan("<article>" + rest) == "<article " + XlinkDeclaration + ">" + RepairScan(rest)
  {
    var s := "<article>" + rest;
    assert StartsWith(s, "<article>") by { assert s[..9] == "<article>"; }
    assert s[8..8] == [] && s[9..] == rest;
  }

  /** `<article` followed by whitespace `w` and newline-free attribute text `a` up to
      the first `>` gains the declaration just before that `>`. */
  lemma {:induction false} RepairTagWithAttributes(w: string, a: string, rest: string)
    requires w != [] && forall k :: 0 <= k < |w| ==> IsPySpace(w[k])
    requires a != [] ==> !IsPySpace(a[0])
    requires forall k :: 0 <= k < |a| ==> a[k] != '>' && a[k] != '\n'
    ensures RepairScan("<article" + w + a + ">" + rest)
            == "<article" + w + a + " " + XlinkDeclaration + ">" + RepairScan(rest)
  {
    var s := "<article" + w + a + ">" + rest;
    var g := |w| + |a|;
    ArticleTagWithAttributes(w, a, rest);
    assert s[8..8 + g] == w + a && s[9 + g..] == rest by {
      ArticleTagParts(w, a, rest);
    }
    RepairScanAt(s, g);
    ConcatAssoc("<article", w, a);
  }

  lemma {:induction false} ConcatAssoc(p: string, w: string, a: string)
    ensures p + (w + a) == p + w + a
  {
  }

  lemma {:induction false} RepairScanAt(s: string, g: nat)
    requires ArticleTagAt(s) == Some(g)
    ensures RepairScan(s) == "<article" + s[8..8 + g] + " " + XlinkDeclaration + ">" + RepairScan(s[9 + g..])
  {
  }

  lemma {:induction false} ArticleTagParts(w: string, a: string, rest: string)
    ensures ("<article" + w + a + ">" + rest)[8..8 + |w| + |a|] == w + a
    ensures ("<article" + w + a + ">" + rest)[9 + |w| + |a|..] == rest
  {
  }

  lemma {:induction false} ArticleTagWithAttributes(w: string, a: string, rest: string)
    requires w != [] && forall k :: 0 <= k < |w| ==> IsPySpace(w[k])
    requires a != [] ==> !IsPySpace(a[0])
    requires forall k :: 0 <= k < |a| ==> a[k] != '>' && a[k] != '\n'
    ensures ArticleTagAt("<article" + w + a + ">" + rest) == Some(|w| + |a|)
  {
    var s := "<article" + w + a + ">" + rest;
    TagSlices("<article", w, a, rest);
    assert StartsWith(s, "<article") by { assert s[..8] == "<article"; }
    assert !StartsWith(s, "<article>") by { assert s[8] == w[0]; assert !IsPySpace('>'); }
    SpaceRunOf(s[8..], |w|);
    TagEndOf(a, ">" + rest);
  }

  lemma {:induction false} TagSlices(p: string, w: string, a: string, rest: string)
    ensures (p + w + a + ">" + rest)[..|p|] == p
    ensures (p + w + a + ">" + rest)[|p|..] == w + (a + ">" + rest)
    ensures (p + w + a + ">" + rest)[|p| + |w|..] == a + (">" + rest)
  {
  }

  lemma {:induction false} SpaceRunOf(s: string, n: nat)
    requires n <= |s| && (forall k :: 0 <= k < n ==> IsPySpace(s[k])) && (n < |s| ==> !IsPySpace(s[n]))
    ensures SpaceRun(s) == n
  {
    if n > 0 {
      SpaceRunOf(s[1..], n - 1);
    }
  }

  lemma {:induction false} TagEndOf(a: string, rest: string)
    requires forall k :: 0 <= k < |a| ==> a[k] != '>' && a[k] != '\n'
    requires rest != [] && rest[0] == '>'
    ensures TagEnd(a + rest) == Some(|a|)
  {
    if a != [] {
      assert (a + rest)[1..] == a[1..] + rest;
      TagEndOf(a[1..], rest);
    }
  }

  /** Text with no `<article` is left as it is. */
  lemma {:induction false} RepairScanNoTag(s: string)
    requires !Contains(s, "<article")
    ensures RepairScan(s) == s
  {
    if s != [] {
      assert !StartsWith(s, "<article");
      RepairScanNoTag(s[1..]);
    }
  }

  /** The scan either changes nothing or leaves the declaration in the text. */
  lemma {:induction false} RepairScanEffect(s: string)
    ensures RepairScan(s) == s || Contains(RepairScan(s), XlinkDeclaration)
    decreases |s|
  {
    if s != [] {
      match ArticleTagAt(s)
      case Some(g) =>
        var head := "<article" + s[8..8 + g] + " ";
        ContainsSuffix(head, XlinkDeclaration);
        ContainsAppend(head + XlinkDeclaration, ">", XlinkDeclaration);
        ContainsAppend(head + XlinkDeclaration + ">", RepairScan(s[9 + g..]), XlinkDeclaration);
      case None =>
        RepairScanEffect(s[1..]);
        if RepairScan(s[1..]) != s[1..] {
          ContainsPrepend([s[0]], RepairScan(s[1..]), XlinkDeclaration);
        }
    }
  }

  /** Repairing twice is repairing once. */
  lemma {:induction false} RepairIdempotent(s: string)
    ensures RepairArticleXml(RepairArticleXml(s)) == RepairArticleXml(s)
  {
    if !Contains(s, XlinkDeclaration) {
      RepairScanEffect(s);
    }
  }
}
