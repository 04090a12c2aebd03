/**
 * `filter_papers_by_affiliation`: keeps the papers with at least one
 * company-affiliated author and flattens those authors' names and their
 * distinct affiliations into text.
 */
module Cli {
  import opened Wrappers
  import opened Strings
  import opened Ordering
  import opened Heuristics
  import opened Models
  import opened Lists

  /** The delimiter of both flattened fields. */
  const Separator: string := "; "

  /** Python's `x or ''` for an optional name. */
  function OrEmpty(x: Option<string>): string {
    match x
    case None => ""
    case Some(s) => s
  }

  /**
   * The per-author test: a non-empty affiliation the classifier accepts.
   * The emptiness guard is redundant, as the classifier rejects a missing or empty text itself.
   */
  function IsCompanyAuthor(a: Author): (r: bool)
    ensures r <==> IsCompanyAffiliation(a.affiliation)
  {
    a.affiliation.Some? && a.affiliation.value != "" && IsCompanyAffiliation(a.affiliation)
  }

  /** `f"{fore_name or ''} {last_name or ''}".strip()`. */
  function DisplayName(a: Author): (r: string)
    ensures |r| <= |OrEmpty(a.foreName)| + 1 + |OrEmpty(a.lastName)|
    ensures |r| > 0 ==> !IsSpace(r[0]) && !IsSpace(r[|r| - 1])
  {
    WhitespaceIsSpace();
    Strip(OrEmpty(a.foreName) + " " + OrEmpty(a.lastName), Whitespace)
  }

  /** An author with neither name (a collective author, say) gets the empty display name, and is still listed. */
  lemma DisplayNameOfNoName(a: Author)
    requires a.foreName.None? && a.lastName.None?
    ensures DisplayName(a) == ""
  {
    var full := "" + " " + "";
    WhitespaceIsSpace();
    assert full == [' '];
    assert LeadingIn(full, Whitespace) == 1;
  }

  /** For any names, padded ones included, the display name is `fore last` with only whitespace cut at either end. */
  lemma DisplayNameStripped(a: Author)
    ensures exists i :: StrippedAt(OrEmpty(a.foreName) + " " + OrEmpty(a.lastName), Whitespace, DisplayName(a), i)
  {
    var full := OrEmpty(a.foreName) + " " + OrEmpty(a.lastName);
    StripSpec(full, Whitespace);
    var i :| StrippedAt(full, Whitespace, Strip(full, Whitespace), i);
    assert DisplayName(a) == Strip(full, Whitespace);
    assert StrippedAt(full, Whitespace, DisplayName(a), i);
  }

  /** With both names present, the display name is `fore last`; inner blanks, as in `Mary Ann`, are kept. */
  lemma DisplayNameOfFullName(a: Author, fore: string, last: string)
    requires a.foreName == Some(fore) && a.lastName == Some(last)
    requires |fore| > 0 && !IsSpace(fore[0])
    requires |last| > 0 && !IsSpace(last[|last| - 1])
    ensures DisplayName(a) == fore + " " + last
  {
    var full := fore + " " + last;
    WhitespaceIsSpace();
    assert full[0] == fore[0] && full[|full| - 1] == last[|last| - 1];
    assert LeadingIn(full, Whitespace) == 0;
    assert full[0..] == full;
    assert TrailingIn(full, Whitespace) == 0;
  }

  /** Without a fore name the blank separator is stripped and the last name stands alone. */
  lemma DisplayNameOfLastNameOnly(a: Author, last: string)
    requires a.foreName.None? && a.lastName == Some(last)
    requires |last| > 0 && !IsSpace(last[0]) && !IsSpace(last[|last| - 1])
    ensures DisplayName(a) == last
  {
    var full := "" + " " + last;
    WhitespaceIsSpace();
    assert full[0] == ' ' && full[1..] == last;
    assert LeadingIn(full[1..], Whitespace) == 0;
    assert LeadingIn(full, Whitespace) == 1;
    assert TrailingIn(last, Whitespace) == 0;
  }

  /** Without a last name the trailing blank is stripped and the fore name stands alone. */
  lemma DisplayNameOfForeNameOnly(a: Author, fore: string)
    requires a.foreName == Some(fore) && a.lastName.None?
    requires |fore| > 0 && !IsSpace(fore[0]) && !IsSpace(fore[|fore| - 1])
    ensures DisplayName(a) == fore
  {
    var full := fore + " " + "";
    WhitespaceIsSpace();
    assert full[0] == fore[0];
    assert LeadingIn(full, Whitespace) == 0;
    assert full[0..] == full;
    assert full[..|full| - 1] == fore;
    assert TrailingIn(fore, Whitespace) == 0;
    assert TrailingIn(full, Whitespace) == 1;
  }

  /** The names of the company authors, in author order, repeats kept. */
  function CompanyAuthorNames(authors: seq<Author>): (r: seq<string>)
    ensures |r| <= |authors|
  {
    if |authors| == 0 then []
    else
      var init := authors[..|authors| - 1];
      var last := authors[|authors| - 1];
      CompanyAuthorNames(init) + (if IsCompanyAuthor(last) then [DisplayName(last)] else [])
  }

  /** The affiliations of the company authors, in author order, repeats kept. */
  function CompanyAuthorAffiliations(authors: seq<Author>): (r: seq<string>)
    ensures forall y :: y in r <==> exists i :: 0 <= i < |authors| && IsCompanyAuthor(authors[i])
                                                && authors[i].affiliation == Some(y)
  {
    if |authors| == 0 then []
    else
      var init := authors[..|authors| - 1];
      var last := authors[|authors| - 1];
      var r := CompanyAuthorAffiliations(init) + (if IsCompanyAuthor(last) then [last.affiliation.value] else []);
      assert forall i :: 0 <= i < |init| ==> init[i] == authors[i];
      r
  }

  /**
   * The company affiliations as Python's `sorted(set)`: ascending, no
   * repeats, exactly the affiliations of the company authors.
   */
  function CompanyAffiliations(authors: seq<Author>): (r: seq<string>)
    ensures StrictlySorted(r)
    ensures forall y :: y in r <==> exists i :: 0 <= i < |authors| && IsCompanyAuthor(authors[i])
                                                && authors[i].affiliation == Some(y)
  {
    SortedDistinct(CompanyAuthorAffiliations(authors))
  }

  /** One paper through the filter: kept, flattened, when some author is a company author. */
  function FilterPaper(p: Paper): (r: Option<FilteredPaper>)
    ensures r.Some? <==> exists i :: 0 <= i < |p.authors| && IsCompanyAuthor(p.authors[i])
    ensures r.Some? ==> && r.value.pubmedId == p.pubmedId
                        && r.value.title == p.title
                        && r.value.publicationDate == p.publicationDate
                        && r.value.correspondingAuthorEmail == p.correspondingAuthorEmail
    ensures r.Some? ==> && r.value.nonAcademicAuthors == Join(CompanyAuthorNames(p.authors), Separator)
                        && r.value.companyAffiliations == Join(CompanyAffiliations(p.authors), Separator)
  {
    var names := CompanyAuthorNames(p.authors);
    CompanyAuthorNamesNonEmpty(p.authors);
    if |names| > 0 then
      Some(FilteredPaper(
        p.pubmedId,
        p.title,
        p.publicationDate,
        Join(names, Separator),
        Join(CompanyAffiliations(p.authors), Separator),
        p.correspondingAuthorEmail))
    else
      None
  }

  /** The filter over a list of papers, in input order. */
  function FilterPapers(papers: seq<Paper>): (r: seq<FilteredPaper>)
    ensures |r| <= |papers|
  {
    FilterMap(FilterPaper, papers)
  }

  /** One more author extends both running lists the way the loop body does. */
  lemma CompanyAuthorsStep(authors: seq<Author>, j: nat)
    requires j < |authors|
    ensures CompanyAuthorNames(authors[..j + 1])
         == CompanyAuthorNames(authors[..j]) + (if IsCompanyAuthor(authors[j]) then [DisplayName(authors[j])] else [])
    ensures SortedDistinct(CompanyAuthorAffiliations(authors[..j + 1]))
         == if IsCompanyAuthor(authors[j])
            then Insert(authors[j].affiliation.value, SortedDistinct(CompanyAuthorAffiliations(authors[..j])))
            else SortedDistinct(CompanyAuthorAffiliations(authors[..j]))
  {
    var seen := authors[..j + 1];
    assert seen[..j] == authors[..j] && seen[j] == authors[j];
    var raw := CompanyAuthorAffiliations(seen);
    var before := CompanyAuthorAffiliations(authors[..j]);
    if IsCompanyAuthor(authors[j]) {
      assert raw == before + [authors[j].affiliation.value];
      assert raw[..|raw| - 1] == before;
      assert SortedDistinct(raw) == Insert(raw[|raw| - 1], SortedDistinct(raw[..|raw| - 1]));
    } else {
      assert raw == before;
    }
  }

  /** The author loop of `filter_papers_by_affiliation`: the names list and the affiliation set of one paper. */
  method CollectCompanyAuthors(authors: seq<Author>) returns (names: seq<string>, affiliations: seq<string>)
    ensures names == CompanyAuthorNames(authors)
    ensures affiliations == CompanyAffiliations(authors)
  {
    names := [];
    // the Python set, kept as a strictly ascending sequence
    affiliations := [];
    for j := 0 to |authors|
      invariant names == CompanyAuthorNames(authors[..j])
      invariant affiliations == SortedDistinct(CompanyAuthorAffiliations(authors[..j]))
    {
      var author := authors[j];
      CompanyAuthorsStep(authors, j);
      if IsCompanyAuthor(author) {
        names := names + [DisplayName(author)];
        affiliations := Insert(author.affiliation.value, affiliations);
      }
      assert names == CompanyAuthorNames(authors[..j + 1]);
      assert affiliations == SortedDistinct(CompanyAuthorAffiliations(authors[..j + 1]));
    }
    assert authors[..|authors|] == authors;
  }

  /** The body of the outer loop of `filter_papers_by_affiliation`: one paper. */
  method FilterOnePaper(paper: Paper) returns (r: Option<FilteredPaper>)
    ensures r == FilterPaper(paper)
  {
    var names, affiliations := CollectCompanyAuthors(paper.authors);
    if |names| > 0 {
      r := Some(FilteredPaper(
        paper.pubmedId,
        paper.title,
        paper.publicationDate,
        Join(names, Separator),
        Join(affiliations, Separator),
        paper.correspondingAuthorEmail));
    } else {
      r := None;
    }
  }

  /**
   * `filter_papers_by_affiliation`. `debug` only drives console logging, so
   * the result is `FilterPapers(papers)` whichever way it is set.
   */
  method FilterPapersByAffiliation(papers: seq<Paper>, debug: bool) returns (filtered: seq<FilteredPaper>)
    ensures filtered == FilterPapers(papers)
  {
    filtered := [];
    for n := 0 to |papers|
      invariant filtered == FilterPapers(papers[..n])
    {
      var kept := FilterOnePaper(papers[n]);
      assert papers[..n + 1][..n] == papers[..n];
      match kept {
        case Some(f) => filtered := filtered + [f];
        case None =>
      }
    }
    assert papers[..|papers|] == papers;
  }

  // ----------------------------------------------------------- properties

  /** Names of a concatenation of author lists concatenate: author order is kept, repeats too. */
  lemma {:induction false} CompanyAuthorNamesAppend(a: seq<Author>, b: seq<Author>)
    ensures CompanyAuthorNames(a + b) == CompanyAuthorNames(a) + CompanyAuthorNames(b)
    decreases |b|
  {
    if |b| == 0 {
      assert a + b == a;
    } else {
      var b' := b[..|b| - 1];
      assert (a + b)[..|a + b| - 1] == a + b';
      assert (a + b)[|a + b| - 1] == b[|b| - 1];
      CompanyAuthorNamesAppend(a, b');
    }
  }

  /** Some name is listed exactly when some author is a company author. */
  lemma {:induction false} CompanyAuthorNamesNonEmpty(authors: seq<Author>)
    ensures |CompanyAuthorNames(authors)| > 0 <==> exists i :: 0 <= i < |authors| && IsCompanyAuthor(authors[i])
  {
    if |authors| > 0 {
      var init := authors[..|authors| - 1];
      CompanyAuthorNamesNonEmpty(init);
      assert forall i :: 0 <= i < |init| ==> init[i] == authors[i];
    }
  }

  /** Some company author among `authors` has display name `name`. */
  predicate NamesCompanyAuthor(authors: seq<Author>, name: string) {
    exists i :: 0 <= i < |authors| && IsCompanyAuthor(authors[i]) && DisplayName(authors[i]) == name
  }

  /** A name is listed exactly when some company author carries it. */
  lemma {:induction false} CompanyAuthorNamesMembers(authors: seq<Author>, name: string)
    ensures name in CompanyAuthorNames(authors) <==> NamesCompanyAuthor(authors, name)
  {
    if |authors| == 0 {
      assert !NamesCompanyAuthor(authors, name);
    } else {
      var init := authors[..|authors| - 1];
      var last := |authors| - 1;
      var tail := if IsCompanyAuthor(authors[last]) then [DisplayName(authors[last])] else [];
      assert CompanyAuthorNames(authors) == CompanyAuthorNames(init) + tail;
      CompanyAuthorNamesMembers(init, name);
      if name in CompanyAuthorNames(authors) {
        if name in CompanyAuthorNames(init) {
          var i :| 0 <= i < |init| && IsCompanyAuthor(init[i]) && DisplayName(init[i]) == name;
          assert authors[i] == init[i];
        } else {
          assert name in tail;
          assert IsCompanyAuthor(authors[last]) && DisplayName(authors[last]) == name;
        }
        assert NamesCompanyAuthor(authors, name);
      }
      if NamesCompanyAuthor(authors, name) {
        var i :| 0 <= i < |authors| && IsCompanyAuthor(authors[i]) && DisplayName(authors[i]) == name;
        if i < last {
          assert init[i] == authors[i];
          assert NamesCompanyAuthor(init, name);
        } else {
          assert i == last;
          assert IsCompanyAuthor(authors[last]) && DisplayName(authors[last]) == name;
          assert tail == [name];
        }
        assert name in CompanyAuthorNames(authors);
      }
    }
  }

  /** Filtering a concatenation concatenates the results: input order is kept. */
  lemma FilterPapersAppend(a: seq<Paper>, b: seq<Paper>)
    ensures FilterPapers(a + b) == FilterPapers(a) + FilterPapers(b)
  {
    FilterMapAppend(FilterPaper, a, b);
  }

  /** Some paper among `papers` filters to `f`. */
  predicate FiltersTo(papers: seq<Paper>, f: FilteredPaper) {
    exists i :: 0 <= i < |papers| && FilterPaper(papers[i]) == Some(f)
  }

  /** A filtered paper is in the output exactly when some input paper filters to it. */
  lemma FilterPapersMembers(papers: seq<Paper>, f: FilteredPaper)
    ensures f in FilterPapers(papers) <==> FiltersTo(papers, f)
  {
    FilterMapMembers(FilterPaper, papers, f);
  }
}
