/**
 * Extraction of `Paper` records from a PubMed article set. The XML document
 * is taken as already parsed: each `find` is the first matching element (or
 * none), each `findall` the matching elements in document order.
 */
module Parser {
  import opened Wrappers
  import opened Strings
  import opened Models
  import opened Lists

  /** An element as far as its text goes; ElementTree reports `None` for an element without text. */
  datatype TextNode = TextNode(text: Option<string>)

  /** The `PubDate` element and its `Year`, `Month` and `Day` children. */
  datatype PubDateNode = PubDateNode(year: Option<TextNode>, month: Option<TextNode>, day: Option<TextNode>)

  /**
   * An `Author` element: its `ValidYN` attribute, its `LastName`, `ForeName`
   * and `Initials` children and its first `AffiliationInfo/Affiliation` descendant.
   */
  datatype AuthorNode = AuthorNode(
    validYN: Option<string>,
    lastName: Option<TextNode>,
    foreName: Option<TextNode>,
    initials: Option<TextNode>,
    affiliation: Option<TextNode>)

  /** A `PubmedArticle` element: its first `PMID`, `ArticleTitle` and `PubDate`, and all its `Author` elements. */
  datatype ArticleNode = ArticleNode(
    pmid: Option<TextNode>,
    articleTitle: Option<TextNode>,
    pubDate: Option<PubDateNode>,
    authors: seq<AuthorNode>)

  /** The input: no data at all (Python's falsy `xml_data`), or a document's `PubmedArticle` elements. */
  datatype XmlData = NoData | Document(articles: seq<ArticleNode>)

  /** `_get_text`: the element's text, or `None` when the element is missing or its text is missing or empty. */
  function GetText(node: Option<TextNode>): (r: Option<string>)
    ensures r.Some? ==> r.value != "" && node.Some? && node.value.text == r
    ensures r.None? <==> node.None? || node.value.text.None? || node.value.text == Some("")
  {
    match node
    case None => None
    case Some(n) =>
      match n.text
      case None => None
      case Some(t) => if t == "" then None else Some(t)
  }

  /** Python's `f"{x}"` for an optional string: an absent value prints as `None`. */
  function Render(x: Option<string>): string {
    match x
    case None => "None"
    case Some(s) => s
  }

  /** The publication date: `year-month-day` when `PubDate` exists, else `N/A`. */
  function PublicationDate(pubDate: Option<PubDateNode>): (r: string)
    ensures r == "N/A" <==> pubDate.None?
  {
    match pubDate
    case None => "N/A"
    case Some(d) => Render(GetText(d.year)) + "-" + Render(GetText(d.month)) + "-" + Render(GetText(d.day))
  }

  /**
   * The date with `PubDate` present is never the `N/A` placeholder, and each
   * of its three parts is the element's text or the word `None`, never empty.
   */
  lemma PublicationDateShape(d: PubDateNode)
    ensures var date := PublicationDate(Some(d));
            && date != "N/A"
            && date == Render(GetText(d.year)) + "-" + Render(GetText(d.month)) + "-" + Render(GetText(d.day))
            && |Render(GetText(d.year))| > 0 && |Render(GetText(d.month))| > 0 && |Render(GetText(d.day))| > 0
    ensures PublicationDate(None) == "N/A"
  {
    var date := PublicationDate(Some(d));
    var y := Render(GetText(d.year));
    assert date[|y|] == '-';
    assert '-' !in "N/A";
  }

  function AuthorFromNode(n: AuthorNode): Author {
    Author(GetText(n.lastName), GetText(n.foreName), GetText(n.initials), GetText(n.affiliation))
  }

  /** Every `Author` element yields one `Author`, in document order, however empty. */
  function ParseAuthors(nodes: seq<AuthorNode>): (r: seq<Author>)
    ensures |r| == |nodes|
    ensures forall i :: 0 <= i < |nodes| ==> r[i] == AuthorFromNode(nodes[i])
  {
    if |nodes| == 0 then [] else [AuthorFromNode(nodes[0])] + ParseAuthors(nodes[1..])
  }

  // ------------------------------------------------- corresponding e-mail

  /** The characters `_get_corr_email` strips from both ends of the e-mail token. */
  const EmailPunctuation: set<char> := {'.', ',', ';', '(', ')', '[', ']'}

  /** The last of `words` that contains `c`: the reversed scan in `_get_corr_email`. */
  function LastContaining(words: seq<string>, c: char): (r: Option<string>)
    ensures r.Some? <==> exists i :: 0 <= i < |words| && c in words[i]
    ensures r.Some? ==> exists i :: 0 <= i < |words| && words[i] == r.value && c in r.value
                                    && forall j :: i < j < |words| ==> c !in words[j]
  {
    if |words| == 0 then None
    else if c in words[|words| - 1] then Some(words[|words| - 1])
    else LastContaining(words[..|words| - 1], c)
  }

  /** The e-mail inside one affiliation text: its last `@`-token, stripped of `.,;()[]`. */
  function EmailFromAffiliation(text: string): (r: Option<string>)
    ensures r.Some? <==> '@' in text
    ensures r.Some? ==> '@' in r.value
  {
    if '@' in text then
      var i :| 0 <= i < |text| && text[i] == '@';
      WordsCover(text, i);
      match LastContaining(Words(text), '@')
      case None => None
      case Some(word) =>
        StripKeeps(word, EmailPunctuation, '@');
        Some(Strip(word, EmailPunctuation))
    else
      None
  }

  /** An author `_get_corr_email` consults: `ValidYN='Y'`, with an affiliation holding `@`. */
  predicate HasEmailAffiliation(n: AuthorNode) {
    n.validYN == Some("Y") && GetText(n.affiliation).Some? && '@' in GetText(n.affiliation).value
  }

  /**
   * `_get_corr_email`: the e-mail from the first validated author whose
   * affiliation contains `@`; `None` when there is no such author.
   */
  function CorrespondingEmail(nodes: seq<AuthorNode>): (r: Option<string>)
    ensures r.Some? <==> exists i :: 0 <= i < |nodes| && HasEmailAffiliation(nodes[i])
    ensures r.Some? ==> '@' in r.value
    ensures r.Some? ==> exists i :: IsFirstEmailAuthor(nodes, i)
                                    && r == EmailFromAffiliation(GetText(nodes[i].affiliation).value)
  {
    if |nodes| == 0 then None
    else if HasEmailAffiliation(nodes[0]) then
      // the affiliation holds `@`, so some token holds it and the scan always
      // returns here: the source's fall-through to the next author never happens
      assert IsFirstEmailAuthor(nodes, 0);
      EmailFromAffiliation(GetText(nodes[0].affiliation).value)
    else
      EmailAuthorsAfterFirst(nodes);
      CorrespondingEmail(nodes[1..])
  }

  /** Author `i` is the first one `_get_corr_email` takes its e-mail from. */
  predicate IsFirstEmailAuthor(nodes: seq<AuthorNode>, i: int) {
    && 0 <= i < |nodes|
    && HasEmailAffiliation(nodes[i])
    && forall j :: 0 <= j < i ==> !HasEmailAffiliation(nodes[j])
  }

  /** Past a first author without an `@` affiliation, positions move up by one. */
  lemma EmailAuthorsAfterFirst(nodes: seq<AuthorNode>)
    requires |nodes| > 0 && !HasEmailAffiliation(nodes[0])
    ensures forall i :: 1 <= i < |nodes| ==> nodes[1..][i - 1] == nodes[i]
    ensures forall i :: IsFirstEmailAuthor(nodes[1..], i) ==> IsFirstEmailAuthor(nodes, i + 1) && nodes[1..][i] == nodes[i + 1]
  {
    forall i | IsFirstEmailAuthor(nodes[1..], i)
      ensures IsFirstEmailAuthor(nodes, i + 1)
    {
      forall j | 0 <= j < i + 1
        ensures !HasEmailAffiliation(nodes[j])
      {
        if j > 0 {
          assert nodes[j] == nodes[1..][j - 1];
        }
      }
    }
  }

  // ------------------------------------------------------------- articles

  /** One `PubmedArticle`: a `Paper` when both PMID and title are present and non-empty. */
  function ParseArticle(a: ArticleNode): (r: Option<Paper>)
    ensures r.Some? <==> GetText(a.pmid).Some? && GetText(a.articleTitle).Some?
    ensures r.Some? ==> r.value.pubmedId == GetText(a.pmid).value && r.value.title == GetText(a.articleTitle).value
    ensures r.Some? ==> r.value.pubmedId != "" && r.value.title != ""
    ensures r.Some? ==> && |r.value.authors| == |a.authors|
                        && (forall i :: 0 <= i < |a.authors| ==> r.value.authors[i] == AuthorFromNode(a.authors[i]))
                        && r.value.publicationDate == PublicationDate(a.pubDate)
                        && r.value.correspondingAuthorEmail == CorrespondingEmail(a.authors)
  {
    var pubmedId := GetText(a.pmid);
    var title := GetText(a.articleTitle);
    var date := PublicationDate(a.pubDate);
    var authors := ParseAuthors(a.authors);
    var email := CorrespondingEmail(a.authors);
    if pubmedId.Some? && title.Some? then
      Some(Paper(pubmedId.value, title.value, date, authors, email))
    else
      None
  }

  /** The papers of a sequence of articles, in document order, without de-duplication. */
  function ParseArticles(articles: seq<ArticleNode>): (r: seq<Paper>)
    ensures |r| <= |articles|
  {
    FilterMap(ParseArticle, articles)
  }

  /** A paper is in the output exactly when some article parses to it. */
  lemma ParseArticlesMembers(articles: seq<ArticleNode>, p: Paper)
    ensures p in ParseArticles(articles) <==> exists i :: 0 <= i < |articles| && ParseArticle(articles[i]) == Some(p)
  {
    FilterMapMembers(ParseArticle, articles, p);
  }

  /** Parsing a concatenation of article lists concatenates the results: order is kept, nothing is merged. */
  lemma ParseArticlesAppend(a: seq<ArticleNode>, b: seq<ArticleNode>)
    ensures ParseArticles(a + b) == ParseArticles(a) + ParseArticles(b)
  {
    FilterMapAppend(ParseArticle, a, b);
  }

  /** A single article yields its paper when kept and nothing otherwise. */
  lemma ParseSingleArticle(a: ArticleNode)
    ensures ParseArticle(a).Some? ==> ParseArticles([a]) == [ParseArticle(a).value]
    ensures ParseArticle(a).None? ==> ParseArticles([a]) == []
  {
  }

  /** `parse_pubmed_xml`: no data gives no papers; otherwise one paper per kept article. */
  function ParsePubmedXml(data: XmlData): (r: seq<Paper>)
    ensures data.NoData? ==> r == []
    ensures data.Document? ==> r == ParseArticles(data.articles)
    ensures data.Document? ==> |r| <= |data.articles|
  {
    match data
    case NoData => []
    case Document(articles) => ParseArticles(articles)
  }

  /** The last of `words` containing `c`, when its position `k` is known. */
  lemma {:induction false} LastContainingAt(words: seq<string>, c: char, k: int)
    requires 0 <= k < |words| && c in words[k]
    requires forall m :: k < m < |words| ==> c !in words[m]
    ensures LastContaining(words, c) == Some(words[k])
  {
    if k < |words| - 1 {
      LastContainingAt(words[..|words| - 1], c, k);
    }
  }

  /** No `@` lies at or after position `j` of `text`. */
  predicate NoAtFrom(text: string, j: int) {
    forall q :: 0 <= q < |text| && j <= q ==> text[q] != '@'
  }

  /** The word that holds position `p` of the text. */
  lemma WordHolding(text: string, ws: seq<string>, st: seq<int>, p: int) returns (k: int)
    requires SplitsInto(text, ws, st)
    requires 0 <= p < |text| && !IsSpace(text[p])
    ensures 0 <= k < |ws| && st[k] <= p < st[k] + |ws[k]|
    ensures IsRun(text, st[k], st[k] + |ws[k]|) && ws[k] == text[st[k]..st[k] + |ws[k]|]
  {
    k :| 0 <= k < |ws| && st[k] <= p < st[k] + |ws[k]|;
    assert WordAt(text, ws[k], st[k]);
  }

  /** Words after a position free of `@` from then on hold no `@`. */
  lemma NoAtInLaterWords(text: string, ws: seq<string>, st: seq<int>, k: int)
    requires SplitsInto(text, ws, st) && 0 <= k < |ws|
    requires NoAtFrom(text, st[k] + |ws[k]|)
    ensures forall m :: k < m < |ws| ==> '@' !in ws[m]
  {
    forall m | k < m < |ws|
      ensures '@' !in ws[m]
    {
      assert WordAt(text, ws[m], st[m]);
      assert st[k] + |ws[k]| < st[m];
      forall x | 0 <= x < |ws[m]|
        ensures ws[m][x] != '@'
      {
        assert ws[m][x] == text[st[m] + x];
      }
    }
  }

  /** `text[i..j]` is the whitespace-delimited run that holds the last `@` of `text`. */
  predicate LastAtRun(text: string, i: int, j: int) {
    && IsRun(text, i, j)
    && (exists p :: i <= p < j && text[p] == '@')
    && NoAtFrom(text, j)
  }

  /** The position of the last `@` of a text that holds one. */
  lemma LastAt(text: string) returns (p: int)
    requires '@' in text
    ensures 0 <= p < |text| && text[p] == '@' && NoAtFrom(text, p + 1)
  {
    var domain := AfterLast(text, '@');
    var at :| 0 <= at < |text| && text[at] == '@';
    assert forall x :: |text| - |domain| <= x < |text| ==> text[x] == domain[x - (|text| - |domain|)];
    p := |text| - |domain| - 1;
    forall q | 0 <= q < |text| && p + 1 <= q
      ensures text[q] != '@'
    {
      assert text[q] == domain[q - p - 1];
    }
  }

  /** Every text holding `@` has a run around its last `@`. */
  lemma LastAtRunExists(text: string)
    requires '@' in text
    ensures exists i, j :: LastAtRun(text, i, j)
  {
    var p := LastAt(text);
    WordsAreRuns(text);
    var k := WordHolding(text, Words(text), WordStarts(text), p);
    var i, j := WordStarts(text)[k], WordStarts(text)[k] + |Words(text)[k]|;
    assert NoAtFrom(text, j);
    assert LastAtRun(text, i, j);
  }

  /** For a text holding `@`, the e-mail comes from the last `@`-word of `split()`. */
  lemma EmailFromLastWord(text: string)
    requires '@' in text
    ensures LastContaining(Words(text), '@').Some?
    ensures EmailFromAffiliation(text) == Some(Strip(LastContaining(Words(text), '@').value, EmailPunctuation))
  {
    var i :| 0 <= i < |text| && text[i] == '@';
    WordsCover(text, i);
  }

  /** The run around the last `@` is a word of `split()`, and no later word holds `@`. */
  lemma LastAtRunWord(text: string, ws: seq<string>, st: seq<int>, i: int, j: int) returns (k: int)
    requires SplitsInto(text, ws, st)
    requires LastAtRun(text, i, j)
    ensures 0 <= k < |ws| && ws[k] == text[i..j] && '@' in ws[k]
    ensures forall m :: k < m < |ws| ==> '@' !in ws[m]
  {
    var p :| i <= p < j && text[p] == '@';
    k := WordHolding(text, ws, st, p);
    RunsMeet(text, i, j, st[k], st[k] + |ws[k]|, p);
    assert ws[k][p - i] == '@';
    NoAtInLaterWords(text, ws, st, k);
  }

  /**
   * For any affiliation: the e-mail is the whitespace-delimited run around
   * the last `@` of the text, stripped of `.,;()[]` at both ends.
   */
  lemma EmailIsLastAtRun(text: string, i: int, j: int)
    requires LastAtRun(text, i, j)
    ensures EmailFromAffiliation(text) == Some(Strip(text[i..j], EmailPunctuation))
  {
    var p :| i <= p < j && text[p] == '@';
    EmailFromLastWord(text);
    WordsAreRuns(text);
    var k := LastAtRunWord(text, Words(text), WordStarts(text), i, j);
    LastContainingAt(Words(text), '@', k);
  }

  /**
   * For an affiliation made of blank-separated tokens, the e-mail is the
   * last token holding `@`, stripped of `.,;()[]` at both ends.
   */
  lemma EmailOfTokens(ws: seq<string>, k: nat)
    requires forall j :: 0 <= j < |ws| ==> IsToken(ws[j])
    requires k < |ws| && '@' in ws[k]
    ensures LastContaining(ws, '@').Some?
    ensures EmailFromAffiliation(Join(ws, " ")) == Some(Strip(LastContaining(ws, '@').value, EmailPunctuation))
  {
    WordsOfJoin(ws);
    JoinContains(ws, " ", k, '@');
  }

  lemma TokenWithPeriod(address: string)
    requires IsToken(address) && '@' in address
    ensures IsToken(address + ".") && '@' in address + "."
  {
    var i :| 0 <= i < |address| && address[i] == '@';
    assert (address + ".")[i] == '@';
  }

  /**
   * An affiliation ending in `contact: <address>.` yields the address without
   * the period, e.g. `jane.doe@company.com.` gives `jane.doe@company.com`.
   */
  lemma EmailDropsTrailingPeriod(ws: seq<string>, address: string)
    requires forall j :: 0 <= j < |ws| ==> IsToken(ws[j])
    requires IsToken(address) && '@' in address
    requires address[0] !in EmailPunctuation && address[|address| - 1] !in EmailPunctuation
    ensures EmailFromAffiliation(Join(ws + [address + "."], " ")) == Some(address)
  {
    var w := address + ".";
    TokenWithPeriod(address);
    var all := ws + [w];
    forall j | 0 <= j < |all|
      ensures IsToken(all[j])
    {
      if j < |ws| {
        assert all[j] == ws[j];
      }
    }
    assert all[|all| - 1] == w;
    LastContainingAt(all, '@', |all| - 1);
    EmailOfTokens(all, |all| - 1);
    StripOneTrailing(address, EmailPunctuation, '.');
  }
}
