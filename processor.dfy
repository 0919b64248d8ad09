/**
 * The text-processing core: PDF text extraction, the match-score guard and the
 * keyword gap analysis.
 */
module Processor {
  import opened Wrappers
  import opened Text

  // ---------------------------------------------------------------------------
  // Text extraction
  // ---------------------------------------------------------------------------

  /** One page of an opened PDF: its text, or the exception reading it raises. */
  datatype Page = Page(text: string) | UnreadablePage(error: string)

  /**
   * What the PDF library makes of an uploaded byte stream: either opening it
   * raises (`error` is the exception's message), or it yields the pages in
   * document order and closing the document may raise.
   */
  datatype PdfStream =
    | Unparsable(error: string)
    | Parsed(pages: seq<Page>, closeError: Option<string>)

  const ErrorPrefix: string := "Extraction Error: "

  /** The in-order concatenation of the page texts, with no separator. */
  function Concat(pages: seq<Page>): string
  {
    if pages == [] then [] else
      (if pages[0].Page? then pages[0].text else []) + Concat(pages[1..])
  }

  /** The message of the first page that cannot be read, if any. */
  function FirstPageError(pages: seq<Page>): Option<string>
  {
    if pages == [] then None
    else if pages[0].UnreadablePage? then Some(pages[0].error)
    else FirstPageError(pages[1..])
  }

  /** The exception that ends extraction: opening, then each page in order, then closing. */
  function Failure(pdf: PdfStream): Option<string>
  {
    match pdf
    case Unparsable(e) => Some(e)
    case Parsed(pages, closeError) =>
      if FirstPageError(pages).Some? then FirstPageError(pages) else closeError
  }

  /**
   * The string extraction returns: after a failure, the error marker followed by the
   * message; otherwise the page texts, every page having been read.
   */
  function ExtractedText(pdf: PdfStream): (r: string)
    ensures Failure(pdf).Some? ==> r == ErrorPrefix + Failure(pdf).value
    ensures Failure(pdf).Some? ==> |r| >= |ErrorPrefix| && r[..|ErrorPrefix|] == ErrorPrefix
    ensures Failure(pdf).None? ==> pdf.Parsed? && forall k :: 0 <= k < |pdf.pages| ==> pdf.pages[k].Page?
    ensures Failure(pdf).None? ==> r == Concat(pdf.pages)
  {
    match pdf
    case Unparsable(e) => ErrorPrefix + e
    case Parsed(pages, _) =>
      NoPageErrorAllRead(pages);
      match Failure(pdf)
      case Some(e) => ErrorPrefix + e
      case None => Concat(pages)
  }

  lemma {:induction false} NoPageErrorAllRead(pages: seq<Page>)
    ensures FirstPageError(pages).None? <==> forall k :: 0 <= k < |pages| ==> pages[k].Page?
  {
    if pages != [] {
      NoPageErrorAllRead(pages[1..]);
      assert forall k :: 1 <= k < |pages| ==> pages[k] == pages[1..][k - 1];
    }
  }

  lemma {:induction false} ConcatAppend(a: seq<Page>, b: seq<Page>)
    ensures Concat(a + b) == Concat(a) + Concat(b)
  {
    if a == [] {
      assert a + b == b;
    } else {
      assert (a + b)[1..] == a[1..] + b;
      ConcatAppend(a[1..], b);
    }
  }

  lemma {:induction false} FirstPageErrorAppend(a: seq<Page>, b: seq<Page>)
    ensures FirstPageError(a + b) ==
            if FirstPageError(a).Some? then FirstPageError(a) else FirstPageError(b)
  {
    if a == [] {
      assert a + b == b;
    } else {
      assert (a + b)[1..] == a[1..] + b;
      FirstPageErrorAppend(a[1..], b);
    }
  }

  /**
   * `extract_text_from_pdf`: appends the text of every page in order; any
   * exception (opening, reading a page, closing) is caught and turned into
   * `"Extraction Error: " + message`, so the caller always receives a string.
   */
  method ExtractTextFromPdf(pdf: PdfStream) returns (text: string)
    ensures Failure(pdf).None? ==> text == Concat(pdf.pages)
    ensures Failure(pdf).Some? ==> text == ErrorPrefix + Failure(pdf).value
    ensures text == ExtractedText(pdf)
  {
    if pdf.Unparsable? {
      return ErrorPrefix + pdf.error;
    }
    var pages := pdf.pages;
    text := "";
    var i := 0;
    while i < |pages|
      invariant 0 <= i <= |pages|
      invariant FirstPageError(pages[..i]).None?
      invariant text == Concat(pages[..i])
    {
      ConcatAppend(pages[..i], [pages[i]]);
      FirstPageErrorAppend(pages[..i], [pages[i]]);
      assert pages[..i + 1] == pages[..i] + [pages[i]];
      if pages[i].UnreadablePage? {
        FirstPageErrorAppend(pages[..i + 1], pages[i + 1..]);
        assert pages == pages[..i + 1] + pages[i + 1..];
        return ErrorPrefix + pages[i].error;
      }
      text := text + pages[i].text;
      i := i + 1;
    }
    assert pages[..i] == pages;
    if pdf.closeError.Some? {
      return ErrorPrefix + pdf.closeError.value;
    }
  }

  /** Where page `k`'s text starts in the concatenation. */
  function Offset(pages: seq<Page>, k: nat): nat
    requires k <= |pages|
  {
    |Concat(pages[..k])|
  }

  /** The text of page `k` sits, unchanged, right after the texts of the pages before it. */
  lemma PageTextAt(pages: seq<Page>, k: nat)
    requires k < |pages| && pages[k].Page?
    ensures Offset(pages, k) + |pages[k].text| <= |Concat(pages)|
    ensures Concat(pages)[Offset(pages, k)..Offset(pages, k) + |pages[k].text|] == pages[k].text
  {
    assert pages == pages[..k] + ([pages[k]] + pages[k + 1..]);
    ConcatAppend(pages[..k], [pages[k]] + pages[k + 1..]);
    ConcatAppend([pages[k]], pages[k + 1..]);
    assert Concat([pages[k]]) == pages[k].text;
  }

  /**
   * The error marker is plain text: a one-page document whose text is the marker
   * extracts to the same string as a stream that cannot be opened.
   */
  lemma MarkerIsAmbiguous(e: string)
    ensures ExtractedText(Parsed([Page(ErrorPrefix + e)], None)) == ExtractedText(Unparsable(e))
  {
    var pages := [Page(ErrorPrefix + e)];
    assert pages[1..] == [];
    assert FirstPageError(pages) == FirstPageError([]) == None;
    assert Concat(pages) == ErrorPrefix + e + [];
  }

  // ---------------------------------------------------------------------------
  // Match score
  // ---------------------------------------------------------------------------

  /**
   * The embedding model's verdict on two non-empty texts: cosine similarity of
   * their sentence embeddings, times 100, rounded to two decimals.
   */
  type Similarity = (string, string) -> real

  /** `calculate_match_score`: exactly 0.0 when either text is empty, else the model's score. */
  function MatchScore(resume: string, jd: string, similarity: Similarity): (r: real)
    ensures resume == [] || jd == [] ==> r == 0.0
    ensures resume != [] && jd != [] ==> r == similarity(resume, jd)
  {
    if resume == [] || jd == [] then 0.0 else similarity(resume, jd)
  }

  // ---------------------------------------------------------------------------
  // Keyword gap analysis
  // ---------------------------------------------------------------------------

  const MaxSkills: nat := 10

  /**
   * `set(jd.lower().split()) - set(resume.lower().split())`: lower-case words of the
   * job description that the resume lacks; none exactly when the resume covers them all.
   */
  function MissingTokens(resume: string, jd: string): (r: set<string>)
    ensures forall t :: t in r <==> t in TokenSet(jd) && t !in TokenSet(resume)
    ensures forall t :: t in r ==> IsWord(t) && IsLower(t)
    ensures r == {} <==> TokenSet(jd) <= TokenSet(resume)
  {
    DifferenceEmpty(TokenSet(jd), TokenSet(resume));
    TokenSet(jd) - TokenSet(resume)
  }

  lemma DifferenceEmpty(a: set<string>, b: set<string>)
    ensures a - b == {} <==> a <= b
  {
    if a - b == {} {
      forall t | t in a
        ensures t in b
      {
        assert t !in a - b;
      }
    }
  }

  predicate Distinct(s: seq<string>)
  {
    forall i, j :: 0 <= i < j < |s| ==> s[i] != s[j]
  }

  /** `list(s)`: the elements of a set, each once, in an order the model leaves open. */
  method SetToSeq(s: set<string>) returns (r: seq<string>)
    ensures forall t :: t in r <==> t in s
    ensures Distinct(r)
    ensures |r| == |s|
  {
    r := [];
    var rest := s;
    while rest != {}
      invariant rest <= s
      invariant forall t :: t in r <==> t in s && t !in rest
      invariant Distinct(r)
      invariant |r| + |rest| == |s|
      decreases |rest|
    {
      var t :| t in rest;
      r := r + [t];
      rest := rest - {t};
    }
  }

  /**
   * `find_missing_skills`: at most ten distinct lower-case tokens that occur in the
   * job description but not in the resume, as many as there are up to ten.
   */
  method FindMissingSkills(resume: string, jd: string) returns (r: seq<string>)
    ensures forall t :: t in r ==> t in TokenSet(jd) && t !in TokenSet(resume)
    ensures forall t :: t in r ==> IsWord(t) && IsLower(t)
    ensures Distinct(r)
    ensures |r| == if |MissingTokens(resume, jd)| < MaxSkills then |MissingTokens(resume, jd)| else MaxSkills
    ensures |MissingTokens(resume, jd)| <= MaxSkills ==> forall t :: t in MissingTokens(resume, jd) ==> t in r
    ensures r == [] <==> TokenSet(jd) <= TokenSet(resume)
  {
    var missing := MissingTokens(resume, jd);
    var all := SetToSeq(missing);
    r := if |all| < MaxSkills then all else all[..MaxSkills];
    assert forall t :: t in r ==> t in all;
  }

  /**
   * A resume that contains the whole job description, followed by whitespace and
   * anything else, leaves no gaps.
   */
  lemma ResumeContainingJdHasNoGaps(jd: string, sp: char, more: string)
    requires IsSpace(sp)
    ensures MissingTokens(jd + [sp] + more, jd) == {}
  {
    var resume := jd + [sp] + more;
    LowerAppend(jd + [sp], more);
    LowerAppend(jd, [sp]);
    assert Lower([sp]) == [LowerChar(sp)];
    assert Lower(resume) == Lower(jd) + [LowerChar(sp)] + Lower(more);
    SplitAtSpace(Lower(jd), LowerChar(sp), Lower(more));
    assert forall t :: t in Split(Lower(jd)) ==> t in Split(Lower(resume));
    assert TokenSet(jd) <= TokenSet(resume);
  }
}
