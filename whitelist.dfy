/** The per-column character whitelists of the cleaning step and the
    filter that applies them (`clean_column`: missing values become the
    empty string, then every character outside the class is deleted). */
module Whitelist {
  import opened Wrappers
  import opened Seqs
  import opened Strings

  /** One constructor per distinct character-class pattern. */
  datatype CharClass =
    | ListChars      // cast, director, keywords, genres: letters, digits, \s and '|'
    | UrlChars       // homepage
    | TaglineChars   // tagline
    | OverviewChars  // overview
    | CompanyChars   // production_companies
    | TitleChars     // original_title
    | BaseChars      // the base whitelist of the unusual-character report

  /** Membership of `c` in the character class. */
  predicate Allows(w: CharClass, c: char)
  {
    IsLetter(c) || IsDigit(c) ||
    match w
    case ListChars => IsSpace(c) || c == '|'
    case UrlChars => c in ":/?#[]@!$&'()*+,;=-._~"
    case TaglineChars => IsSpace(c) || c in ",\"!?"
    case OverviewChars => IsSpace(c) || c in "'!?.,-():"
    case CompanyChars => IsSpace(c) || c in "/-&|.,()"
    case TitleChars => IsSpace(c) || c in "!'.,-():"
    case BaseChars => IsSpace(c) || c in ".,-():"
  }

  /** The column to class table, in the order the cleaning loop visits it. */
  const ColumnWhitelists: seq<(string, CharClass)> := [
    ("cast", ListChars),
    ("homepage", UrlChars),
    ("director", ListChars),
    ("tagline", TaglineChars),
    ("keywords", ListChars),
    ("overview", OverviewChars),
    ("genres", ListChars),
    ("production_companies", CompanyChars),
    ("original_title", TitleChars)
  ]

  /** Unreserved URI characters, section 2.3 of RFC 3986. */
  predicate Unreserved(c: char) { IsLetter(c) || IsDigit(c) || c in "-._~" }

  /** Reserved URI characters (gen-delims and sub-delims), section 2.2 of
      RFC 3986. */
  predicate Reserved(c: char) { c in ":/?#[]@" || c in "!$&'()*+,;=" }

  /** The homepage class is exactly the unreserved and reserved URI
      characters; the percent sign of percent-encoding is not among them. */
  lemma HomepageIsUriCharacters(c: char)
    ensures Allows(UrlChars, c) <==> Unreserved(c) || Reserved(c)
    ensures !Allows(UrlChars, '%')
  {
  }

  predicate AllAllowed(s: string, w: CharClass)
  {
    forall i :: 0 <= i < |s| ==> Allows(w, s[i])
  }

  /** `regex.sub("", s)` with the negated class: the allowed characters of
      `s`, in order. */
  function Clean(s: string, w: CharClass): (r: string)
    ensures |r| <= |s|
    ensures AllAllowed(r, w)
  {
    Filter(s, c => Allows(w, c))
  }

  /** One cell of `clean_column`: `fillna("")`, then the filter. */
  function CleanCell(cell: Option<string>, w: CharClass): (r: string)
    ensures AllAllowed(r, w)
    ensures cell == None ==> r == []
  {
    Clean(cell.GetOr([]), w)
  }

  /** The result is a subsequence of the input: cleaning only deletes. */
  lemma CleanIsSubsequence(s: string, w: CharClass)
    ensures IsSubsequence(Clean(s, w), s)
  {
    FilterIsSubsequence(s, c => Allows(w, c));
  }

  /** Every allowed character survives as often as it occurs; every other
      character disappears. */
  lemma CleanCounts(s: string, w: CharClass, c: char)
    ensures Count(Clean(s, w), c) == if Allows(w, c) then Count(s, c) else 0
  {
    FilterCount(s, c => Allows(w, c), c);
  }

  /** Cleaning distributes over concatenation. */
  lemma CleanAppend(a: string, b: string, w: CharClass)
    ensures Clean(a + b, w) == Clean(a, w) + Clean(b, w)
  {
    FilterAppend(a, b, c => Allows(w, c));
  }

  /** Cleaning leaves a string unchanged exactly when all its characters
      are allowed. */
  lemma CleanIdentity(s: string, w: CharClass)
    ensures Clean(s, w) == s <==> AllAllowed(s, w)
  {
    FilterIdentity(s, c => Allows(w, c));
  }

  /** A second application changes nothing. */
  lemma CleanIdempotent(s: string, w: CharClass)
    ensures Clean(Clean(s, w), w) == Clean(s, w)
  {
    FilterIdempotent(s, c => Allows(w, c));
  }
}
