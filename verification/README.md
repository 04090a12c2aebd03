# get-papers-list core in Dafny

This project models the pure core of `get-papers-list`, a tool that fetches
PubMed records and keeps the papers that have at least one author from a
pharmaceutical or biotech company. The model has three parts:

- **Affiliation classifier** (`Heuristics`). It makes a first-match-wins
  decision over the ASCII lower-cased affiliation text, in this order:
  1. an academic keyword gives "no";
  2. otherwise a company keyword gives "yes";
  3. otherwise, if the text has an `@`, the text after the last `@` decides
     (`.edu`, `.gov` or `.ac.` give "no", any other domain gives "yes");
  4. otherwise "no".
- **Record extraction** (`Parser`). A PubMed article set is taken as an
  already parsed tree of `PubmedArticle` nodes. From each node the model
  extracts:
  - the PMID and the title;
  - a `year-month-day` date, with `None` for a missing part and `N/A` when
    there is no `PubDate`;
  - one `Author` per author node;
  - the corresponding author's e-mail, taken from the first `ValidYN='Y'`
    author whose affiliation holds `@`.

  Articles without a PMID or a title are dropped.
- **Paper filter** (`Cli`, `filter_papers_by_affiliation`). It keeps the
  papers that have a company author. For each kept paper it joins the names
  of the company authors in author order, and joins their distinct
  affiliations in ascending order. All other fields are copied unchanged.

Supporting modules:

- `Wrappers`: `Option`, which models Python's `Optional`.
- `Strings`: Python's `in`, `lower()`, `split()`, `strip()`, `sep.join` and
  `split(c)[-1]` on `seq<char>`.
- `Ordering`: Python's string order, and `sorted(set)` as a strictly
  ascending sequence.
- `Models`: the `Author`, `Paper` and `FilteredPaper` records.
- `Lists`: the loop shared by the parser and the filter, which visits the
  items in order and keeps each result that is present.

The records keep the source's shapes:

- all four `Author` fields are optional, each on its own;
- `Paper` requires its id, title and date, and only its e-mail is optional;
- `Paper.authors` is an ordered sequence, not a set;
- `FilteredPaper` holds the authors and the affiliations as single
  flattened strings, and its e-mail stays optional.

A domain is academic when `.edu`, `.gov` or `.ac.` occurs anywhere in the
text after the last `@`, not only at its end.

## Model

| member | source | states |
|---|---|---|
| Heuristics.IsCompanyAffiliation | papers_fetcher/heuristics.py:17-48 | a "yes" needs a non-empty text with no academic keyword, and either a company keyword or an `@` |
| Heuristics.AnyKeywordIn | papers_fetcher/heuristics.py:33 | scanning the keywords in order finds a match exactly when some keyword is a substring of the text |
| Strings.Contains | papers_fetcher/heuristics.py:37 | the substring search answers yes exactly when the needle occurs at some offset of the text |
| Heuristics.AbsentOrEmptyIsNotCompany | papers_fetcher/heuristics.py:27-28 | a missing or empty affiliation is never a company |
| Heuristics.AcademicWins | papers_fetcher/heuristics.py:32-34 | an academic keyword in the lower-cased text gives "no", whatever company keyword is also present |
| Heuristics.CompanyKeywordWins | papers_fetcher/heuristics.py:36-38 | with no academic keyword, any company keyword gives "yes" |
| Heuristics.EmailDomainDecides | papers_fetcher/heuristics.py:40-46 | with no keyword of either kind and an `@` present, the answer is "no" exactly when the text after the last `@` holds `.edu`, `.gov` or `.ac.` |
| Heuristics.NoSignalIsNotCompany | papers_fetcher/heuristics.py:48 | with no keyword of either kind and no `@`, the answer is "no" |
| Heuristics.CaseInsensitive | papers_fetcher/heuristics.py:30 | classifying a text and classifying its lower-cased form agree |
| Heuristics.AcademicKeywordAnywhere | papers_fetcher/heuristics.py:30-34 | inserting an academic keyword anywhere into any text makes it "no" |
| Heuristics.AppendAcademicKeyword | papers_fetcher/heuristics.py:33 | appending an academic keyword to any text makes it "no" |
| Heuristics.CompanyKeywordAnywhere | papers_fetcher/heuristics.py:36-38 | a company keyword anywhere, even inside a longer word (`ag` in `management`), gives "yes" unless an academic keyword occurs |
| Heuristics.AcademicKeywordsAreLowerCase | papers_fetcher/heuristics.py:12-15 | the academic keywords have no upper-case letter, so they match the lower-cased text |
| Heuristics.CompanyKeywordsAreLowerCase | papers_fetcher/heuristics.py:5-9 | the company keywords have no upper-case letter |
| Strings.AfterLast | papers_fetcher/heuristics.py:42 | the domain is the suffix after the last `@` (the whole text when there is none) and holds no `@` |
| Parser.GetText | papers_fetcher/parser.py:8-11 | the text is absent exactly when the element or its text is missing or empty, so a present value is never empty |
| Parser.PublicationDate | papers_fetcher/parser.py:46-53 | the date is the `N/A` placeholder exactly when the article has no `PubDate` |
| Parser.PublicationDateShape | papers_fetcher/parser.py:46-53 | with `PubDate`, the date is year, month and day joined by `-`, each part non-empty (`None` when missing), and never `N/A`; without `PubDate` it is `N/A` |
| Parser.ParseAuthors | papers_fetcher/parser.py:55-61 | every author node gives exactly one `Author`, in document order, even when all four fields are missing |
| Strings.Words | papers_fetcher/parser.py:20 | whitespace splitting yields non-empty tokens that contain no whitespace |
| Strings.WordsAreRuns | papers_fetcher/parser.py:20 | the tokens of `split()` are exactly the maximal whitespace-free slices of the text, left to right, and every non-whitespace character lies in one of them |
| Strings.WordsCover | papers_fetcher/parser.py:20-22 | every non-whitespace character lands in some token, so an `@` in the text is in some token |
| Strings.WordsOfJoin | papers_fetcher/parser.py:20 | splitting tokens joined by single blanks gives back the tokens |
| Strings.Strip | papers_fetcher/parser.py:23 | the stripped text is no longer than the input and neither starts nor ends with a stripped character |
| Strings.StripSpec | papers_fetcher/parser.py:23 | stripping leaves a slice whose ends are outside the stripped set, with only stripped characters removed on either side |
| Strings.StripKeeps | papers_fetcher/parser.py:23 | stripping never removes a character outside the set, so the `@` survives |
| Strings.StripOneTrailing | papers_fetcher/parser.py:23 | a single trailing punctuation character is removed and nothing else |
| Parser.LastContaining | papers_fetcher/parser.py:21-23 | the reversed scan finds a token exactly when some token holds `@`, and it finds the last such token |
| Parser.EmailFromAffiliation | papers_fetcher/parser.py:18-23 | an affiliation yields an e-mail exactly when it holds `@`, and that e-mail still holds `@` |
| Parser.CorrespondingEmail | papers_fetcher/parser.py:13-24 | the e-mail is present exactly when some `ValidYN='Y'` author's affiliation holds `@`; it comes from the first such author, and unvalidated authors are never consulted |
| Parser.LastAtRunExists | papers_fetcher/parser.py:18-23 | every text holding `@` has a whitespace-delimited run around its last `@` |
| Parser.EmailIsLastAtRun | papers_fetcher/parser.py:18-23 | for any affiliation, the e-mail is the whitespace-delimited run around the last `@`, stripped of `.,;()[]` |
| Parser.EmailOfTokens | papers_fetcher/parser.py:20-23 | for blank-separated tokens, the e-mail is the last `@` token stripped of `.,;()[]` |
| Parser.EmailDropsTrailingPeriod | papers_fetcher/parser.py:20-23 | an affiliation ending in `address.` yields the address without the period |
| Parser.ParseArticle | papers_fetcher/parser.py:42-72 | an article yields a paper exactly when PMID and title are both present and non-empty; the paper's id is the PMID text, its title the `ArticleTitle` text, and it carries the article's authors, date and e-mail |
| Lists.FilterMapAppend | papers_fetcher/parser.py:65-72 | keeping the present results of two lists in turn gives the two outputs in turn: order is kept and nothing is merged or dropped |
| Lists.FilterMapMembers | papers_fetcher/parser.py:65-72 | a value is in the output exactly when some item yields it |
| Parser.ParseArticles | papers_fetcher/parser.py:41-72 | there are never more papers than articles |
| Parser.ParseArticlesMembers | papers_fetcher/parser.py:65-72 | a paper is in the output exactly when some article parses to it |
| Parser.ParseArticlesAppend | papers_fetcher/parser.py:41-74 | parsing two article lists in turn gives the two results in turn: document order is kept and repeated PMIDs are not merged |
| Parser.ParseSingleArticle | papers_fetcher/parser.py:65-72 | one article gives its paper when kept and nothing otherwise |
| Parser.ParsePubmedXml | papers_fetcher/parser.py:36-38 | no input data gives no papers; a document gives the papers of its articles, so the order, membership and append lemmas of `ParseArticles` apply |
| Ordering.BelowTransitive | cli.py:41 | the string order used by `sorted` is transitive |
| Ordering.BelowTotal | cli.py:41 | any two different strings are ordered one way or the other |
| Ordering.Insert | cli.py:31 | adding to the set keeps it strictly ascending and adds exactly the new element |
| Ordering.SortedDistinct | cli.py:41 | `sorted(set(xs))` is strictly ascending and holds exactly the elements of `xs` |
| Ordering.SortedUnique | cli.py:41 | only one strictly ascending sequence has a given set of elements |
| Cli.IsCompanyAuthor | cli.py:28 | an author counts exactly when the classifier accepts the affiliation; the emptiness guard never changes the outcome |
| Cli.DisplayName | cli.py:29 | a display name neither starts nor ends with whitespace and is no longer than the two names and a blank |
| Cli.DisplayNameOfNoName | cli.py:29-30 | an author with neither name gets the empty display name |
| Cli.DisplayNameStripped | cli.py:29 | for any names, padded ones included, the display name is `fore last` with only whitespace cut from either end |
| Cli.DisplayNameOfFullName | cli.py:29 | with both names present and not padded with whitespace, the display name is the fore name, a blank, then the last name, inner blanks (`Mary Ann`) kept |
| Cli.DisplayNameOfLastNameOnly | cli.py:29 | without a fore name, the display name is the last name alone (not padded) |
| Cli.DisplayNameOfForeNameOnly | cli.py:29 | without a last name, the display name is the fore name alone (not padded) |
| Cli.CompanyAuthorNames | cli.py:27-30 | there are never more names than authors |
| Cli.CompanyAuthorNamesNonEmpty | cli.py:27-35 | some name is listed exactly when some author has a non-empty affiliation the classifier accepts |
| Cli.CompanyAuthorNamesMembers | cli.py:27-30 | a name is listed exactly when some company author has it |
| Cli.CompanyAuthorNamesAppend | cli.py:27-40 | names follow author order and repeats are kept |
| Cli.CompanyAuthorAffiliations | cli.py:27-31 | an affiliation is collected exactly when some company author has it |
| Strings.Join | cli.py:40-41 | the joined text starts with the first part and puts the separator after it |
| Strings.JoinLength | cli.py:40-41 | the joined text is as long as the parts' total plus one separator between each pair |
| Strings.JoinSnoc | cli.py:40-41 | joining one more part appends the separator and that part, so every part appears, in order |
| Strings.Lower | papers_fetcher/heuristics.py:30 | lower-casing keeps the length and maps each character on its own, `A`–`Z` to `a`–`z` |
| Cli.CompanyAffiliations | cli.py:25-41 | the affiliations are strictly ascending, so there are no repeats, and they are exactly those of the company authors |
| Cli.FilterPaper | cli.py:24-43 | a paper is kept exactly when some author is a company author; id, title, date and e-mail are copied unchanged; the two flattened fields are the `; `-joined names and sorted affiliations |
| Cli.FilterPapers | cli.py:20-44 | there are never more filtered papers than input papers |
| Cli.FilterPapersMembers | cli.py:23-36 | a filtered paper is in the output exactly when some input paper filters to it |
| Cli.FilterPapersAppend | cli.py:23-36 | filtering two lists in turn gives the two results in turn, so input order is kept |
| Cli.CompanyAuthorsStep | cli.py:27-31 | one more author appends its name to the names list and adds its affiliation to the set exactly when it is a company author |
| Cli.CollectCompanyAuthors | cli.py:24-31 | the author loop, with its running list and set, computes the company author names and the sorted distinct affiliations |
| Cli.FilterOnePaper | cli.py:24-43 | one pass of the outer loop computes the filtered paper, or nothing |
| Cli.FilterPapersByAffiliation | cli.py:20-44 | the loop computes the filtered list, and the `debug` flag has no effect on it |

## Left out

- The `fetch` command in `cli.py` is not modelled: argument handling, console and spinner output, exit codes and CSV writing are I/O.
- `papers_fetcher/api.py` is not modelled: its HTTP calls to the NCBI E-utilities and its JSON decoding are network I/O.
- The XML parser itself is not modelled. `ET.fromstring`, the `.//` descendant searches and the failure on malformed XML are left out. Their result is taken as a tree in which every `find` is already resolved to its first match.
- Debug logging (`console.log`) is not modelled. It runs only when `debug` is set and never changes the result; `debug` is kept as an unused parameter.
- Unicode case folding is left out. `Lower` maps only `A`–`Z`.
- `split()` and `strip()` use the ASCII whitespace set only: tab to carriage return, 0x1C–0x1F and space. Non-ASCII whitespace such as U+00A0 is left out.
- The unused `is_company_affiliation` import in `papers_fetcher/parser.py` is not modelled.
- Parser.CorrespondingEmail: the source falls through to the next author when no token of an `@` affiliation holds `@`. `Strings.WordsCover` shows this cannot happen, so the model returns at the first matching author.
