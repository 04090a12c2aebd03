/**
 * The affiliation classifier: decides from free text whether an author's
 * affiliation names a company. First match wins: academic markers, then
 * company markers, then the domain of an e-mail address, then "no".
 */
module Heuristics {
  import opened Wrappers
  import opened Strings

  /** Substrings that suggest a corporate or commercial entity. */
  const CompanyKeywords: seq<string> := [
    "inc", "ltd", "llc", "corp", "pharmaceuticals", "pharma",
    "biotech", "therapeutics", "diagnostics", "labs", "group",
    "solutions", "ag", "gmbh"
  ]

  /** Substrings that suggest an academic or non-profit institution. */
  const AcademicKeywords: seq<string> := [
    "university", "college", "institute", "hospital", "school of medicine",
    "research center", "foundation", "nhs", "nih", "medical center"
  ]

  /** Python's `any(keyword in s for keyword in keywords)`. */
  predicate ContainsAny(s: string, keywords: seq<string>) {
    exists k :: 0 <= k < |keywords| && IsSubstring(keywords[k], s)
  }

  /** Executable `any(keyword in s for keyword in keywords)`, scanning the keywords in order. */
  method AnyKeywordIn(s: string, keywords: seq<string>) returns (found: bool)
    ensures found <==> ContainsAny(s, keywords)
  {
    var k := 0;
    while k < |keywords|
      invariant 0 <= k <= |keywords|
      invariant forall j :: 0 <= j < k ==> !IsSubstring(keywords[j], s)
    {
      found := Contains(keywords[k], s);
      if found {
        return;
      }
      k := k + 1;
    }
    return false;
  }

  /** An e-mail domain holding `.edu`, `.gov` or `.ac.`. */
  predicate IsAcademicDomain(domain: string) {
    IsSubstring(".edu", domain) || IsSubstring(".gov", domain) || IsSubstring(".ac.", domain)
  }

  /** The classifier. `None` and `""` both stand for Python's falsy affiliation. */
  function IsCompanyAffiliation(affiliation: Option<string>): (r: bool)
    ensures r ==> affiliation.Some? && affiliation.value != ""
    ensures r ==> !ContainsAny(Lower(affiliation.value), AcademicKeywords)
    ensures r ==> ContainsAny(Lower(affiliation.value), CompanyKeywords) || '@' in affiliation.value
  {
    match affiliation
    case None => false
    case Some(text) =>
      if text == "" then false
      else
        var lower := Lower(text);
        if ContainsAny(lower, AcademicKeywords) then false
        else if ContainsAny(lower, CompanyKeywords) then true
        else if '@' in lower then !IsAcademicDomain(AfterLast(lower, '@'))
        else false
  }

  // ------------------------------------------------------------ the rules

  /** Rule 0: an absent or empty affiliation is never a company. */
  lemma AbsentOrEmptyIsNotCompany()
    ensures !IsCompanyAffiliation(None)
    ensures !IsCompanyAffiliation(Some(""))
  {
  }

  /** Rule 1: an academic marker wins, whatever company marker is also present. */
  lemma AcademicWins(text: string)
    requires ContainsAny(Lower(text), AcademicKeywords)
    ensures !IsCompanyAffiliation(Some(text))
  {
  }

  /** Rule 2: with no academic marker, a company marker makes it a company. */
  lemma CompanyKeywordWins(text: string)
    requires !ContainsAny(Lower(text), AcademicKeywords)
    requires ContainsAny(Lower(text), CompanyKeywords)
    ensures IsCompanyAffiliation(Some(text))
  {
    var k :| 0 <= k < |CompanyKeywords| && IsSubstring(CompanyKeywords[k], Lower(text));
    assert |CompanyKeywords[k]| > 0;
  }

  /**
   * Rule 3: with no marker of either kind and an `@` present, the answer is
   * "no" exactly when the text after the last `@` holds `.edu`, `.gov` or `.ac.`.
   */
  lemma EmailDomainDecides(text: string)
    requires !ContainsAny(Lower(text), AcademicKeywords)
    requires !ContainsAny(Lower(text), CompanyKeywords)
    requires '@' in text
    ensures IsCompanyAffiliation(Some(text)) <==> !IsAcademicDomain(AfterLast(Lower(text), '@'))
  {
    var i :| 0 <= i < |text| && text[i] == '@';
    assert Lower(text)[i] == '@';
  }

  /** Rule 4: no marker of either kind and no `@` means "no". */
  lemma NoSignalIsNotCompany(text: string)
    requires !ContainsAny(Lower(text), AcademicKeywords)
    requires !ContainsAny(Lower(text), CompanyKeywords)
    requires '@' !in text
    ensures !IsCompanyAffiliation(Some(text))
  {
  }

  // ---------------------------------------------------- derived properties

  /** The classifier ignores ASCII case. */
  lemma CaseInsensitive(text: string)
    ensures IsCompanyAffiliation(Some(text)) == IsCompanyAffiliation(Some(Lower(text)))
  {
    LowerIdempotent(text);
  }

  lemma AcademicKeywordsAreLowerCase()
    ensures forall k :: 0 <= k < |AcademicKeywords| ==> IsLowerCase(AcademicKeywords[k])
  {
    AcademicKeywordsFrom(0, 5);
    AcademicKeywordsFrom(5, 10);
  }

  /** The academic keywords at positions `from` to `to` (exclusive) are lower case. */
  lemma AcademicKeywordsFrom(from: nat, to: nat)
    requires (from == 0 && to == 5) || (from == 5 && to == 10)
    ensures forall k :: from <= k < to ==> IsLowerCase(AcademicKeywords[k])
  {
    if from == 0 {
      assert IsLowerCase("university") && IsLowerCase("college") && IsLowerCase("institute");
      assert IsLowerCase("hospital") && IsLowerCase("school of medicine");
    } else {
      assert IsLowerCase("research center") && IsLowerCase("foundation");
      assert IsLowerCase("nhs") && IsLowerCase("nih") && IsLowerCase("medical center");
    }
  }

  lemma CompanyKeywordsAreLowerCase()
    ensures forall k :: 0 <= k < |CompanyKeywords| ==> IsLowerCase(CompanyKeywords[k])
  {
    CompanyKeywordsFrom(0, 7);
    CompanyKeywordsFrom(7, 14);
  }

  /** The company keywords at positions `from` to `to` (exclusive) are lower case. */
  lemma CompanyKeywordsFrom(from: nat, to: nat)
    requires (from == 0 && to == 7) || (from == 7 && to == 14)
    ensures forall k :: from <= k < to ==> IsLowerCase(CompanyKeywords[k])
  {
    if from == 0 {
      assert IsLowerCase("inc") && IsLowerCase("ltd") && IsLowerCase("llc") && IsLowerCase("corp");
      assert IsLowerCase("pharmaceuticals") && IsLowerCase("pharma") && IsLowerCase("biotech");
    } else {
      assert IsLowerCase("therapeutics") && IsLowerCase("diagnostics") && IsLowerCase("labs");
      assert IsLowerCase("group") && IsLowerCase("solutions") && IsLowerCase("ag") && IsLowerCase("gmbh");
    }
  }

  /** `Lower(before + word + after)` holds `Lower(word)` right after `Lower(before)`. */
  lemma LowerKeepsInfix(before: string, word: string, after: string)
    ensures OccursAt(Lower(word), Lower(before + word + after), |before|)
  {
    LowerConcat(before + word, after);
    LowerConcat(before, word);
    var whole := Lower(before) + Lower(word) + Lower(after);
    assert whole[|before|..|before| + |word|] == Lower(word);
  }

  /** Writing an academic keyword anywhere into any affiliation makes it academic. */
  lemma {:induction false} AcademicKeywordAnywhere(before: string, after: string, k: nat)
    requires k < |AcademicKeywords|
    ensures !IsCompanyAffiliation(Some(before + AcademicKeywords[k] + after))
  {
    var text := before + AcademicKeywords[k] + after;
    AcademicKeywordsAreLowerCase();
    LowerCaseFixed(AcademicKeywords[k]);
    LowerKeepsInfix(before, AcademicKeywords[k], after);
    assert IsSubstring(AcademicKeywords[k], Lower(text));
    AcademicWins(text);
  }

  /** Appending an academic keyword to any affiliation makes it academic. */
  lemma AppendAcademicKeyword(text: string, k: nat)
    requires k < |AcademicKeywords|
    ensures !IsCompanyAffiliation(Some(text + AcademicKeywords[k]))
  {
    AcademicKeywordAnywhere(text, "", k);
    assert text + AcademicKeywords[k] + "" == text + AcademicKeywords[k];
  }

  /**
   * A company keyword anywhere, even inside a longer word (`"ag"` in
   * `"management"`), makes the text a company unless an academic keyword occurs.
   */
  lemma {:induction false} CompanyKeywordAnywhere(before: string, after: string, k: nat)
    requires k < |CompanyKeywords|
    requires !ContainsAny(Lower(before + CompanyKeywords[k] + after), AcademicKeywords)
    ensures IsCompanyAffiliation(Some(before + CompanyKeywords[k] + after))
  {
    var text := before + CompanyKeywords[k] + after;
    CompanyKeywordsAreLowerCase();
    LowerCaseFixed(CompanyKeywords[k]);
    LowerKeepsInfix(before, CompanyKeywords[k], after);
    assert IsSubstring(CompanyKeywords[k], Lower(text));
    CompanyKeywordWins(text);
  }
}
