/**
 * One run of the DocuGuard review action (`run_review`): the event payload names a
 * pull request, its changed files are listed, and every changed source file with a
 * textual diff is compared with its nearest README by an external verdict function;
 * every verdict that is not "OK" is posted back to the pull request as a comment.
 *
 * GitHub and the language model are parameters: `listFiles`, `fetchDoc` and `post`
 * stand for `pulls.list_files`, `repos.get_content` followed by decoding, and
 * `issues.create_comment`; `verdict` stands for `analyze_code_vs_docs`, which turns
 * its own failures into an error string and so always returns text.
 */
module Action {
  import opened Wrappers
  import PyStr
  import Utils

  // ---------------------------------------------------------------------------
  // The event payload and the pull request it names
  // ---------------------------------------------------------------------------

  /** The parts of the event JSON that are read; `None` is a key that is absent. */
  datatype PullRequest = PullRequest(number: Option<int>)
  datatype Repository = Repository(fullName: Option<string>)
  datatype Payload = Payload(pullRequest: Option<PullRequest>, repository: Option<Repository>)

  /** The pull request under review: owner, repository name and number. */
  datatype Target = Target(owner: string, repo: string, prNumber: int)

  /** Either the run goes on to review `target`, or the process exits with `code`. */
  datatype Start = Review(target: Target) | Exit(code: int)

  /** Step 4 of `run_review`: no `pull_request` key ends the run successfully; a missing
      number, repository or full name, or a full name that is not `owner/name`, is an error. */
  function ParseEvent(payload: Payload): (s: Start)
    ensures payload.pullRequest.None? ==> s == Exit(0)
    ensures s.Exit? ==> s.code == 0 || s.code == 1
    ensures s.Review? ==>
      && payload.pullRequest.Some? && payload.pullRequest.value.number == Some(s.target.prNumber)
      && payload.repository.Some?
      && payload.repository.value.fullName == Some(s.target.owner + "/" + s.target.repo)
      && '/' !in s.target.owner && '/' !in s.target.repo
  {
    if payload.pullRequest.None? then Exit(0)
    else if payload.pullRequest.value.number.None? then Exit(1)
    else if payload.repository.None? || payload.repository.value.fullName.None? then Exit(1)
    else
      var fullName := payload.repository.value.fullName.value;
      var parts := PyStr.Split(fullName, '/');
      if |parts| == 2 then
        PyStr.SplitJoin(fullName, '/');
        assert parts[1..] == [parts[1]];
        Review(Target(parts[0], parts[1], payload.pullRequest.value.number.value))
      else Exit(1)
  }

  /** The run reviews a pull request exactly when the payload has a pull request with a number
      and a repository whose full name holds exactly one `/`; the exit status is 1 exactly when a
      pull request is present but one of those fails. */
  lemma ParseEventCases(payload: Payload)
    ensures ParseEvent(payload).Review? <==>
      && payload.pullRequest.Some? && payload.pullRequest.value.number.Some?
      && payload.repository.Some? && payload.repository.value.fullName.Some?
      && PyStr.Count(payload.repository.value.fullName.value, '/') == 1
    ensures ParseEvent(payload) == Exit(1) <==> payload.pullRequest.Some? && !ParseEvent(payload).Review?
  {
    if payload.repository.Some? && payload.repository.value.fullName.Some? {
      PyStr.SplitLength(payload.repository.value.fullName.value, '/');
    }
  }

  // ---------------------------------------------------------------------------
  // Changed files
  // ---------------------------------------------------------------------------

  /** A file of the pull request; `patch` is `None` when GitHub gives no textual diff. */
  datatype ChangedFile = ChangedFile(filename: string, patch: Option<string>)

  const SourceExtensions: seq<string> := [".py", ".js", ".ts", ".go", ".java", ".cpp"]

  /** The extension filter of the loop. */
  predicate IsSourceFile(filename: string) {
    PyStr.EndsWithAny(filename, SourceExtensions)
  }

  /** `file.patch if hasattr(file, 'patch') else ""` */
  function Diff(f: ChangedFile): string {
    if f.patch.Some? then f.patch.value else ""
  }

  /** The files the loop does not skip: source files with a non-empty diff. */
  predicate Reviewable(f: ChangedFile) {
    IsSourceFile(f.filename) && Diff(f) != ""
  }

  function Filenames(files: seq<ChangedFile>): (names: seq<string>)
    ensures |names| == |files|
    ensures forall i :: 0 <= i < |files| ==> names[i] == files[i].filename
  {
    if files == [] then [] else [files[0].filename] + Filenames(files[1..])
  }

  /** `repo_files`: every changed filename and then the root README. */
  function KnownPaths(files: seq<ChangedFile>): (known: seq<string>)
    ensures |known| == |files| + 1 && known[|files|] == Utils.Readme
    ensures forall i :: 0 <= i < |files| ==> known[i] == files[i].filename
  {
    Filenames(files) + [Utils.Readme]
  }

  /** Because the root README is always among the known paths, README resolution inside the
      loop never comes back empty, and it lands on a changed file or on the root README. */
  lemma ReadmeAlwaysResolved(files: seq<ChangedFile>, filename: string)
    ensures Utils.FindNearestReadme(filename, KnownPaths(files)).Some?
    ensures var p := Utils.FindNearestReadme(filename, KnownPaths(files)).value;
      p == Utils.Readme || exists i :: 0 <= i < |files| && files[i].filename == p
  {
    var known := KnownPaths(files);
    assert known[|files|] == Utils.Readme;
    var p := Utils.FindNearestReadme(filename, known).value;
    var j :| 0 <= j < |known| && known[j] == p;
    if j < |files| {
      assert files[j].filename == p;
    }
  }

  // ---------------------------------------------------------------------------
  // Verdicts and comments
  // ---------------------------------------------------------------------------

  /** `suggestion.strip().upper() == "OK"`: the verdict says the file agrees with its docs. */
  predicate IsConsistent(suggestion: string) {
    PyStr.Upper(PyStr.Strip(suggestion)) == "OK"
  }

  /** `s` is `ok`, in either case per letter, at index `i`, with only whitespace around it. */
  predicate PaddedOk(s: string, i: int) {
    && 0 <= i && i + 2 <= |s|
    && PyStr.AllSpace(s[..i])
    && (s[i] == 'o' || s[i] == 'O') && (s[i + 1] == 'k' || s[i + 1] == 'K')
    && PyStr.AllSpace(s[i + 2..])
  }

  /** A verdict is consistent exactly when it is the two letters `ok` in any case, padded on
      either side by whitespace only. */
  lemma ConsistentIff(s: string)
    ensures IsConsistent(s) <==> exists i :: PaddedOk(s, i)
  {
    if IsConsistent(s) {
      ConsistentIsPadded(s);
    }
    if k :| PaddedOk(s, k) {
      PaddedIsConsistent(s, k);
    }
  }

  lemma ConsistentIsPadded(s: string)
    requires IsConsistent(s)
    ensures PaddedOk(s, |s| - |PyStr.TrimStart(s)|)
  {
    var u := PyStr.TrimStart(s);
    var i := |s| - |u|;
    var t := PyStr.TrimEnd(u);
    PyStr.TrimStartSpec(s);
    PyStr.TrimEndSpec(u);
    PyStr.UpperSpec(t);
    var up := PyStr.Upper(t);
    assert up == "OK";
    assert |t| == 2;
    assert PyStr.UpperChar(t[0]) == up[0] == 'O';
    assert PyStr.UpperChar(t[1]) == up[1] == 'K';
    assert s[i] == t[0] && s[i + 1] == t[1];
    assert s[i + 2..] == u[2..];
  }

  lemma PaddedIsConsistent(s: string, k: int)
    requires PaddedOk(s, k)
    ensures IsConsistent(s)
  {
    var u := PyStr.TrimStart(s);
    PyStr.TrimStartSpec(s);
    assert u == s[k..];
    var t := PyStr.TrimEnd(u);
    PyStr.TrimEndSpec(u);
    assert |t| == 2;
    assert t == [s[k], s[k + 1]];
    PyStr.UpperSpec(t);
    var up := PyStr.Upper(t);
    assert up == [PyStr.UpperChar(s[k]), PyStr.UpperChar(s[k + 1])];
  }

  /** `" ok\n"` counts as consistent and posts nothing; `"Looks OK to me"` is flagged, although a
      substring test for `OK` would pass it. */
  lemma ExampleVerdicts()
    ensures IsConsistent(" ok\n")
    ensures !IsConsistent("Looks OK to me")
  {
    ConsistentIff(" ok\n");
    assert PaddedOk(" ok\n", 1);
    var s := "Looks OK to me";
    ConsistentIff(s);
    forall i | 0 <= i ensures !PaddedOk(s, i) {
      if 0 < i < |s| {
        assert s[..i][0] == 'L';
      }
    }
  }

  const CommentHeader: string := "### \U{1F6E1}\U{FE0F} DocuGuard Review\n"

  /** The body posted for a flagged verdict. */
  function CommentBody(suggestion: string): string {
    CommentHeader + suggestion
  }

  /** The verdict text can be read back from the body: the header is a fixed prefix. */
  lemma CommentBodyRoundTrip(suggestion: string)
    ensures |CommentBody(suggestion)| == |CommentHeader| + |suggestion|
    ensures CommentBody(suggestion)[..|CommentHeader|] == CommentHeader
    ensures CommentBody(suggestion)[|CommentHeader|..] == suggestion
  {
  }

  /** Different verdicts give different bodies. */
  lemma CommentBodyInjective(s1: string, s2: string)
    requires CommentBody(s1) == CommentBody(s2)
    ensures s1 == s2
  {
    CommentBodyRoundTrip(s1);
    CommentBodyRoundTrip(s2);
  }

  // ---------------------------------------------------------------------------
  // The review loop, specified file by file
  // ---------------------------------------------------------------------------

  /** What happened to one reviewed file: the README chosen, the text it was fetched as
      (empty when fetching or decoding failed) and the verdict on the diff. */
  datatype Analysis = Analysis(filename: string, readmePath: string, readmeText: string, suggestion: string)

  /** `readme_text`: the fetched text, or "" when the fetch failed. */
  function DocText(fetched: Option<string>): string {
    if fetched.Some? then fetched.value else ""
  }

  /** The loop body for a file that passed both filters. */
  function Analyze(t: Target, f: ChangedFile, known: seq<string>,
                   fetchDoc: (Target, string) -> Option<string>,
                   verdict: (string, string, string) -> string): (a: Analysis)
    requires Utils.Readme in known
    ensures a.filename == f.filename
    ensures Utils.FindNearestReadme(f.filename, known) == Some(a.readmePath)
    ensures a.readmePath in known
    ensures fetchDoc(t, a.readmePath).None? ==> a.readmeText == ""
    ensures fetchDoc(t, a.readmePath).Some? ==> a.readmeText == fetchDoc(t, a.readmePath).value
    ensures a.suggestion == verdict(Diff(f), a.readmeText, f.filename)
  {
    var path := Utils.FindNearestReadme(f.filename, known).value;
    var text := DocText(fetchDoc(t, path));
    Analysis(f.filename, path, text, verdict(Diff(f), text, f.filename))
  }

  /** The analyses of the loop over `files`, in file order; skipped files leave none. */
  function Analyses(t: Target, files: seq<ChangedFile>, known: seq<string>,
                    fetchDoc: (Target, string) -> Option<string>,
                    verdict: (string, string, string) -> string): seq<Analysis>
    requires Utils.Readme in known
  {
    if files == [] then []
    else
      var last := files[|files| - 1];
      Analyses(t, files[..|files| - 1], known, fetchDoc, verdict)
        + (if Reviewable(last) then [Analyze(t, last, known, fetchDoc, verdict)] else [])
  }

  /** The comment bodies for a sequence of analyses: one per verdict that is not consistent. */
  function Comments(analyses: seq<Analysis>): seq<string> {
    if analyses == [] then []
    else
      var last := analyses[|analyses| - 1];
      Comments(analyses[..|analyses| - 1])
        + (if IsConsistent(last.suggestion) then [] else [CommentBody(last.suggestion)])
  }

  /** The comments that `post` accepted; a refused one is dropped and the rest go on. */
  function Delivered(t: Target, comments: seq<string>, post: (Target, string) -> bool): seq<string> {
    if comments == [] then []
    else
      var last := comments[|comments| - 1];
      Delivered(t, comments[..|comments| - 1], post) + (if post(t, last) then [last] else [])
  }

  /** The source files with a diff, in order: a filter over `files`. */
  function ReviewableFiles(files: seq<ChangedFile>): (r: seq<ChangedFile>)
    ensures |r| <= |files|
    ensures forall f :: f in r <==> f in files && Reviewable(f)
  {
    if files == [] then []
    else
      var init := files[..|files| - 1];
      assert files == init + [files[|files| - 1]];
      ReviewableFiles(init) + (if Reviewable(files[|files| - 1]) then [files[|files| - 1]] else [])
  }

  /** The filter keeps order and multiplicity: filtering two batches gives the kept files of the
      first, then those of the second. */
  lemma {:induction false} ReviewableFilesAppend(a: seq<ChangedFile>, b: seq<ChangedFile>)
    ensures ReviewableFiles(a + b) == ReviewableFiles(a) + ReviewableFiles(b)
  {
    if b == [] {
      assert a + b == a;
    } else {
      assert (a + b)[..|a + b| - 1] == a + b[..|b| - 1];
      ReviewableFilesAppend(a, b[..|b| - 1]);
    }
  }

  /** A single file is kept exactly when it is reviewable. */
  lemma ReviewableFilesOne(f: ChangedFile)
    ensures ReviewableFiles([f]) == if Reviewable(f) then [f] else []
  {
    assert [f][..0] == [];
  }

  /** The loop analyses exactly the reviewable files, one each and in their order: so only source
      files with a diff reach README lookup, fetch and verdict. */
  lemma {:induction false} AnalysesOfReviewableFiles(t: Target, files: seq<ChangedFile>, known: seq<string>,
                                                     fetchDoc: (Target, string) -> Option<string>,
                                                     verdict: (string, string, string) -> string)
    requires Utils.Readme in known
    ensures var rf := ReviewableFiles(files);
      var an := Analyses(t, files, known, fetchDoc, verdict);
      |an| == |rf| && forall k :: 0 <= k < |rf| ==> an[k] == Analyze(t, rf[k], known, fetchDoc, verdict)
  {
    if files != [] {
      AnalysesOfReviewableFiles(t, files[..|files| - 1], known, fetchDoc, verdict);
    }
  }

  /** Order is kept: the analyses of two batches of files are those of the first, then those
      of the second. */
  lemma {:induction false} AnalysesAppend(t: Target, a: seq<ChangedFile>, b: seq<ChangedFile>, known: seq<string>,
                                          fetchDoc: (Target, string) -> Option<string>,
                                          verdict: (string, string, string) -> string)
    requires Utils.Readme in known
    ensures Analyses(t, a + b, known, fetchDoc, verdict)
         == Analyses(t, a, known, fetchDoc, verdict) + Analyses(t, b, known, fetchDoc, verdict)
  {
    if b == [] {
      assert a + b == a;
    } else {
      assert (a + b)[..|a + b| - 1] == a + b[..|b| - 1];
      AnalysesAppend(t, a, b[..|b| - 1], known, fetchDoc, verdict);
    }
  }

  /** `body` is the comment posted for analysis `a`. */
  predicate Flags(a: Analysis, body: string) {
    !IsConsistent(a.suggestion) && body == CommentBody(a.suggestion)
  }

  /** Every flagged analysis has its comment posted. */
  lemma {:induction false} FlaggedIsCommented(analyses: seq<Analysis>, k: int)
    requires 0 <= k < |analyses| && !IsConsistent(analyses[k].suggestion)
    ensures CommentBody(analyses[k].suggestion) in Comments(analyses)
  {
    var init, last := analyses[..|analyses| - 1], analyses[|analyses| - 1];
    var tail := if IsConsistent(last.suggestion) then [] else [CommentBody(last.suggestion)];
    assert Comments(analyses) == Comments(init) + tail;
    if k < |init| {
      assert init[k] == analyses[k];
      FlaggedIsCommented(init, k);
    } else {
      assert tail == [CommentBody(analyses[k].suggestion)];
    }
  }

  /** Every posted comment is the body of some flagged analysis. */
  lemma {:induction false} CommentIsOfFlagged(analyses: seq<Analysis>, body: string)
    requires body in Comments(analyses)
    ensures exists k :: 0 <= k < |analyses| && Flags(analyses[k], body)
  {
    var init, last := analyses[..|analyses| - 1], analyses[|analyses| - 1];
    if body in Comments(init) {
      CommentIsOfFlagged(init, body);
      var k :| 0 <= k < |init| && Flags(init[k], body);
      assert analyses[k] == init[k];
    } else {
      assert Flags(analyses[|analyses| - 1], body);
    }
  }

  /** At most one comment per analysis. */
  lemma {:induction false} CommentsAtMostOneEach(analyses: seq<Analysis>)
    ensures |Comments(analyses)| <= |analyses|
  {
    if analyses != [] {
      CommentsAtMostOneEach(analyses[..|analyses| - 1]);
    }
  }

  /** Order is kept: comments of two batches of analyses are those of the first, then the second. */
  lemma {:induction false} CommentsAppend(a: seq<Analysis>, b: seq<Analysis>)
    ensures Comments(a + b) == Comments(a) + Comments(b)
  {
    if b == [] {
      assert a + b == a;
    } else {
      assert (a + b)[..|a + b| - 1] == a + b[..|b| - 1];
      CommentsAppend(a, b[..|b| - 1]);
    }
  }

  lemma {:induction false} DeliveredAppend(t: Target, a: seq<string>, b: seq<string>, post: (Target, string) -> bool)
    ensures Delivered(t, a + b, post) == Delivered(t, a, post) + Delivered(t, b, post)
  {
    if b == [] {
      assert a + b == a;
    } else {
      assert (a + b)[..|a + b| - 1] == a + b[..|b| - 1];
      DeliveredAppend(t, a, b[..|b| - 1], post);
    }
  }

  /** A comment that fails to post does not stop the later ones. */
  lemma FailedPostDoesNotStop(t: Target, before: seq<string>, body: string, after: seq<string>,
                              post: (Target, string) -> bool)
    requires !post(t, body)
    ensures Delivered(t, before + [body] + after, post) == Delivered(t, before, post) + Delivered(t, after, post)
  {
    DeliveredAppend(t, before + [body], after, post);
    DeliveredAppend(t, before, [body], post);
  }

  // ---------------------------------------------------------------------------
  // The methods
  // ---------------------------------------------------------------------------

  /** Step 6 of `run_review`: the loop over the changed files. `analyses` records every file that
      reached the verdict call, `comments` every body handed to `post`, and `delivered` those that
      `post` accepted. */
  method ReviewFiles(t: Target, files: seq<ChangedFile>,
                     fetchDoc: (Target, string) -> Option<string>,
                     verdict: (string, string, string) -> string,
                     post: (Target, string) -> bool)
    returns (analyses: seq<Analysis>, comments: seq<string>, delivered: seq<string>)
    ensures analyses == Analyses(t, files, KnownPaths(files), fetchDoc, verdict)
    ensures comments == Comments(analyses)
    ensures delivered == Delivered(t, comments, post)
  {
    var repoFiles := KnownPaths(files);
    assert repoFiles[|files|] == Utils.Readme;
    analyses, comments, delivered := [], [], [];
    for i := 0 to |files|
      invariant analyses == Analyses(t, files[..i], repoFiles, fetchDoc, verdict)
      invariant comments == Comments(analyses)
      invariant delivered == Delivered(t, comments, post)
    {
      assert files[..i + 1][..i] == files[..i];
      var file := files[i];
      if IsSourceFile(file.filename) {
        var diff := Diff(file);
        if diff == "" {
          continue;
        }
        var readmePath := Utils.FindNearestReadme(file.filename, repoFiles);
        var readmeText := DocText(fetchDoc(t, readmePath.value));
        var suggestion := verdict(diff, readmeText, file.filename);
        var analysis := Analysis(file.filename, readmePath.value, readmeText, suggestion);
        assert (analyses + [analysis])[..|analyses|] == analyses;
        analyses := analyses + [analysis];
        if !IsConsistent(suggestion) {
          var body := CommentBody(suggestion);
          assert (comments + [body])[..|comments|] == comments;
          comments := comments + [body];
          var ok := post(t, body);
          if ok {
            delivered := delivered + [body];
          }
        }
      }
    }
    assert files[..|files|] == files;
  }

  /** Steps 4 to 6 of `run_review`: parse the event, list the files (a failure exits with 1) and
      review them; a run that reaches the end exits with 0. */
  method RunReview(payload: Payload,
                   listFiles: Target -> Option<seq<ChangedFile>>,
                   fetchDoc: (Target, string) -> Option<string>,
                   verdict: (string, string, string) -> string,
                   post: (Target, string) -> bool)
    returns (exitCode: int, analyses: seq<Analysis>, comments: seq<string>, delivered: seq<string>)
    ensures ParseEvent(payload).Exit? ==>
      exitCode == ParseEvent(payload).code && analyses == [] && comments == [] && delivered == []
    ensures ParseEvent(payload).Review? && listFiles(ParseEvent(payload).target).None? ==>
      exitCode == 1 && analyses == [] && comments == [] && delivered == []
    ensures ParseEvent(payload).Review? && listFiles(ParseEvent(payload).target).Some? ==>
      var t := ParseEvent(payload).target;
      var files := listFiles(t).value;
      && exitCode == 0
      && analyses == Analyses(t, files, KnownPaths(files), fetchDoc, verdict)
      && comments == Comments(analyses)
      && delivered == Delivered(t, comments, post)
  {
    analyses, comments, delivered := [], [], [];
    var start := ParseEvent(payload);
    if start.Exit? {
      exitCode := start.code;
      return;
    }
    var files := listFiles(start.target);
    if files.None? {
      exitCode := 1;
      return;
    }
    analyses, comments, delivered := ReviewFiles(start.target, files.value, fetchDoc, verdict, post);
    exitCode := 0;
  }
}
