/**
 * The application's decision logic: which screen a session sees, the job
 * seeker's single analysis and the recruiter's bulk ranking.
 */
module MainApp {
  import opened Wrappers
  import opened Processor
  import opened Ranking

  // ---------------------------------------------------------------------------
  // Screen dispatch
  // ---------------------------------------------------------------------------

  /**
   * The session values the dispatch reads. `registerMode` is unset until the
   * "Register" button is pressed; `userRole` is unset until a login succeeds.
   */
  datatype Session = Session(loggedIn: bool, registerMode: Option<bool>, userRole: Option<string>)

  datatype Screen = LoginPage | RegisterPage | JobSeekerDashboard | RecruiterDashboard

  const JobSeekerRole: string := "Job Seeker"

  /** The session as the start of every run leaves it when nothing is set yet. */
  const InitialSession: Session := Session(false, None, None)

  /**
   * The top-level dispatch: a logged-out session sees the register page when
   * register mode is on and the login page otherwise; a logged-in session sees
   * the job-seeker dashboard for role "Job Seeker" and the recruiter dashboard
   * for any other role.
   */
  function Dispatch(s: Session): (r: Screen)
    ensures (r.LoginPage? || r.RegisterPage?) <==> !s.loggedIn
    ensures r.RegisterPage? <==> !s.loggedIn && s.registerMode == Some(true)
    ensures r.JobSeekerDashboard? <==> s.loggedIn && s.userRole == Some(JobSeekerRole)
    ensures r.RecruiterDashboard? <==> s.loggedIn && s.userRole != Some(JobSeekerRole)
  {
    if !s.loggedIn then
      if s.registerMode.GetOr(false) then RegisterPage else LoginPage
    else
      if s.userRole == Some(JobSeekerRole) then JobSeekerDashboard else RecruiterDashboard
  }

  /** A fresh session is shown the login page. */
  lemma InitialSessionSeesLogin()
    ensures Dispatch(InitialSession) == LoginPage
  {
  }

  // ---------------------------------------------------------------------------
  // Job seeker: single analysis
  // ---------------------------------------------------------------------------

  datatype Verdict = ExcellentMatch | ImprovementTip

  const ExcellentThreshold: real := 70.0

  /** A score of 70 or more is an excellent match; anything lower earns the improvement tip. */
  function Classify(score: real): (v: Verdict)
    ensures v.ExcellentMatch? <==> score >= ExcellentThreshold
    ensures v.ImprovementTip? <==> score < ExcellentThreshold
  {
    if score >= ExcellentThreshold then ExcellentMatch else ImprovementTip
  }

  datatype Analysis = AnalysisWarning | Analysed(score: real, verdict: Verdict)

  /**
   * The "Analyze Resume" action: without an uploaded file or with an empty job
   * description it only warns; otherwise it extracts the resume's text, scores
   * it against the job description and classifies the score.
   */
  method AnalyzeResume(upload: Option<PdfStream>, jd: string, similarity: Similarity) returns (a: Analysis)
    ensures a.AnalysisWarning? <==> upload.None? || jd == []
    ensures a.Analysed? ==> a.score == MatchScore(ExtractedText(upload.value), jd, similarity)
    ensures a.Analysed? ==> a.verdict == Classify(a.score)
  {
    if upload.Some? && jd != [] {
      var text := ExtractTextFromPdf(upload.value);
      var score := MatchScore(text, jd, similarity);
      a := Analysed(score, Classify(score));
    } else {
      a := AnalysisWarning;
    }
  }

  /** A PDF without text gives an empty resume text, which scores 0.0 and gets the tip. */
  lemma TextlessResumeGetsTip(pages: seq<Page>, jd: string, similarity: Similarity)
    requires forall i :: 0 <= i < |pages| ==> pages[i] == Page([])
    ensures ExtractedText(Parsed(pages, None)) == []
    ensures MatchScore(ExtractedText(Parsed(pages, None)), jd, similarity) == 0.0
    ensures Classify(MatchScore(ExtractedText(Parsed(pages, None)), jd, similarity)) == ImprovementTip
  {
    EmptyPagesExtractNothing(pages);
  }

  lemma {:induction false} EmptyPagesExtractNothing(pages: seq<Page>)
    requires forall i :: 0 <= i < |pages| ==> pages[i] == Page([])
    ensures FirstPageError(pages).None? && Concat(pages) == []
  {
    if pages != [] {
      EmptyPagesExtractNothing(pages[1..]);
    }
  }

  // ---------------------------------------------------------------------------
  // Recruiter: bulk ranking
  // ---------------------------------------------------------------------------

  /** An uploaded file: its display name and its content. */
  datatype Upload = Upload(name: string, pdf: PdfStream)

  /**
   * The table row built for one uploaded file: its name and the match score of its
   * extracted text. A file whose extraction fails keeps its row and does not get the
   * guard's fixed 0.0: the embedding model scores the marker text like any other text.
   */
  function ScoreOf(file: Upload, jd: string, similarity: Similarity): (r: CandidateResult)
    ensures r.name == file.name
    ensures jd == [] ==> r.score == 0.0
    ensures Failure(file.pdf).Some? && jd != [] ==>
              r.score == similarity(ErrorPrefix + Failure(file.pdf).value, jd)
    ensures Failure(file.pdf).None? ==> r.score == MatchScore(Concat(file.pdf.pages), jd, similarity)
  {
    CandidateResult(file.name, MatchScore(ExtractedText(file.pdf), jd, similarity))
  }

  /** `results` in upload order, `ranking` the table shown. */
  datatype RankingRun = RankingWarning | Ranked(results: seq<CandidateResult>, ranking: seq<CandidateResult>)

  /**
   * The "Rank Candidates" action: without files or without a job description it
   * only warns. Otherwise it scores every file in upload order, one row per file,
   * and sorts the rows by descending score, keeping upload order among equal scores.
   */
  method RankCandidates(files: seq<Upload>, jd: string, similarity: Similarity) returns (run: RankingRun)
    ensures run.RankingWarning? <==> files == [] || jd == []
    ensures run.Ranked? ==> |run.results| == |files|
    ensures run.Ranked? ==> forall i :: 0 <= i < |files| ==> run.results[i] == ScoreOf(files[i], jd, similarity)
    ensures run.Ranked? ==> |run.ranking| == |files| && multiset(run.ranking) == multiset(run.results)
    ensures run.Ranked? ==> SortedDesc(run.ranking) && SameTies(run.ranking, run.results)
    ensures run.Ranked? ==> run.ranking == SortByScoreDesc(run.results)
  {
    if files == [] || jd == [] {
      return RankingWarning;
    }
    var results: seq<CandidateResult> := [];
    for i := 0 to |files|
      invariant |results| == i
      invariant forall j :: 0 <= j < i ==> results[j] == ScoreOf(files[j], jd, similarity)
    {
      var text := ExtractTextFromPdf(files[i].pdf);
      var score := MatchScore(text, jd, similarity);
      results := results + [CandidateResult(files[i].name, score)];
    }
    var ranking := SortByScoreDesc(results);
    SortSorted(results);
    SortStable(results);
    run := Ranked(results, ranking);
  }

  /** Three files scoring 90, 90 and 70 in upload order A, B, C are ranked A, B, C. */
  lemma TiedCandidatesKeepUploadOrder(a: string, b: string, c: string)
    ensures SortByScoreDesc([CandidateResult(a, 90.0), CandidateResult(b, 90.0), CandidateResult(c, 70.0)])
         == [CandidateResult(a, 90.0), CandidateResult(b, 90.0), CandidateResult(c, 70.0)]
  {
    var ranked := [CandidateResult(a, 90.0), CandidateResult(b, 90.0), CandidateResult(c, 70.0)];
    assert SortedDesc(ranked);
    StableSortIsUnique(ranked, ranked);
  }
}
