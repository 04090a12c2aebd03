/** The record shapes passed between the parser and the filter. */
module Models {
  import opened Wrappers

  /** One author; every field may be missing independently. */
  datatype Author = Author(
    lastName: Option<string>,
    foreName: Option<string>,
    initials: Option<string>,
    affiliation: Option<string>)

  /** One paper, its authors in document order; only the e-mail is optional. */
  datatype Paper = Paper(
    pubmedId: string,
    title: string,
    publicationDate: string,
    authors: seq<Author>,
    correspondingAuthorEmail: Option<string>)

  /** A paper that passed the company filter, its authors and affiliations flattened to text. */
  datatype FilteredPaper = FilteredPaper(
    pubmedId: string,
    title: string,
    publicationDate: string,
    nonAcademicAuthors: string,
    companyAffiliations: string,
    correspondingAuthorEmail: Option<string>)
}
