/**
 * README resolution (`find_nearest_readme`): a changed file is documented by the
 * `README.md` of its own directory when that path is known, otherwise by the
 * repository's root `README.md` when that is known, and otherwise by nothing.
 *
 * Paths are POSIX paths relative to the repository root, with no leading `/`
 * and no doubled `/`, as GitHub reports the files of a pull request. On such
 * paths `Dirname` agrees with Python's `posixpath.dirname`.
 */
module Utils {
  import opened Wrappers
  import PyStr

  const Readme: string := "README.md"

  /** `os.path.dirname` on a relative path: the text before the last `/`, or "" when there is none. */
  function Dirname(p: string): (d: string)
    ensures '/' !in p ==> d == ""
    ensures '/' in p ==> |d| < |p| && d == p[..|d|] && p[|d|] == '/' && '/' !in p[|d| + 1..]
  {
    if p == [] then []
    else if p[|p| - 1] == '/' then p[..|p| - 1]
    else
      var q := p[..|p| - 1];
      assert '/' in p ==> '/' in q by {
        if '/' in p {
          var i :| 0 <= i < |p| && p[i] == '/';
          assert q[i] == '/';
        }
      }
      var d := Dirname(q);
      assert '/' in p ==> p[|d| + 1..] == q[|d| + 1..] + [p[|p| - 1]];
      d
  }

  /** `os.path.join(dir, name)` as `posixpath.join` computes it for two components. */
  function JoinPath(dir: string, name: string): string {
    if name != [] && name[0] == '/' then name
    else if dir == [] || dir[|dir| - 1] == '/' then dir + name
    else dir + "/" + name
  }

  /** The same-directory README path that is looked up first, with backslashes turned into `/`. */
  function Candidate(filePath: string): string {
    PyStr.ReplaceChar(JoinPath(Dirname(filePath), Readme), '\\', '/')
  }

  /** `find_nearest_readme(file_path, all_files)` */
  function FindNearestReadme(filePath: string, allFiles: seq<string>): (r: Option<string>)
    ensures Candidate(filePath) in allFiles ==> r == Some(Candidate(filePath))
    ensures Candidate(filePath) !in allFiles && Readme in allFiles ==> r == Some(Readme)
    ensures r.Some? ==> r.value in allFiles
    ensures r.Some? ==> '\\' !in r.value
    ensures r.Some? ==> r.value == Candidate(filePath) || r.value == Readme
    ensures Readme in allFiles ==> r.Some?
    ensures r.None? <==> Candidate(filePath) !in allFiles && Readme !in allFiles
  {
    var expected := Candidate(filePath);
    if expected in allFiles then Some(expected)
    else if Readme in allFiles then Some(Readme)
    else None
  }

  /** The directory part of `dir/name` is `dir` when `name` holds no `/`. */
  lemma {:induction false} DirnameOfChild(dir: string, name: string)
    requires '/' !in name
    ensures Dirname(dir + "/" + name) == dir
  {
    var p := dir + "/" + name;
    if name == [] {
      assert p[..|p| - 1] == dir;
    } else {
      assert p[|p| - 1] == name[|name| - 1];
      var init := name[..|name| - 1];
      assert '/' !in init by {
        forall i | 0 <= i < |init| ensures init[i] != '/' {
          assert init[i] == name[i] && name[i] in name;
        }
      }
      assert p[|p| - 1] in name;
      assert p[..|p| - 1] == dir + "/" + name[..|name| - 1];
      DirnameOfChild(dir, name[..|name| - 1]);
    }
  }

  lemma JoinReadmeIn(dir: string)
    requires dir != [] && dir[|dir| - 1] != '/'
    ensures JoinPath(dir, Readme) == dir + "/README.md"
  {
  }

  lemma NormalizeReadmeTail(dir: string)
    ensures PyStr.ReplaceChar(dir + "/README.md", '\\', '/') == PyStr.ReplaceChar(dir, '\\', '/') + "/README.md"
  {
    PyStr.ReplaceCharAppend(dir, "/README.md", '\\', '/');
    PyStr.ReplaceCharAbsent("/README.md", '\\', '/');
  }

  /** A file directly under a non-empty directory looks for that directory's README, normalised. */
  lemma CandidateOfNestedFile(dir: string, name: string)
    requires '/' !in name
    requires dir != [] && dir[|dir| - 1] != '/'
    ensures Candidate(dir + "/" + name) == PyStr.ReplaceChar(dir, '\\', '/') + "/README.md"
  {
    DirnameOfChild(dir, name);
    JoinReadmeIn(dir);
    NormalizeReadmeTail(dir);
  }

  /** A file with no directory component, such as `main.py`, looks for the root README. */
  lemma CandidateOfRootFile(name: string)
    requires '/' !in name
    ensures Candidate(name) == Readme
  {
    PyStr.ReplaceCharAbsent(Readme, '\\', '/');
  }

  /** A file at the root is documented by the root README when it is known, and by nothing otherwise. */
  lemma RootFileResolution(name: string, allFiles: seq<string>)
    requires '/' !in name
    ensures FindNearestReadme(name, allFiles) == if Readme in allFiles then Some(Readme) else None
  {
    CandidateOfRootFile(name);
  }

  /** Only the two paths `Candidate(filePath)` and `README.md` are ever looked up: lists that agree
      on those two memberships give the same answer, whatever else they hold. */
  lemma OnlyTwoPathsConsulted(filePath: string, known1: seq<string>, known2: seq<string>)
    requires Candidate(filePath) in known1 <==> Candidate(filePath) in known2
    requires Readme in known1 <==> Readme in known2
    ensures FindNearestReadme(filePath, known1) == FindNearestReadme(filePath, known2)
  {
  }

  /** Intermediate ancestors are not consulted: for `dir/sub/name`, knowing only `dir/README.md`
      resolves to nothing (for example `a/b/c.py` with only `a/README.md`). */
  lemma AncestorNotConsulted(dir: string, sub: string, name: string)
    requires dir != [] && dir[|dir| - 1] != '/'
    requires sub != [] && '/' !in sub && '/' !in name
    ensures FindNearestReadme(dir + "/" + sub + "/" + name, [dir + "/README.md"]) == None
  {
    var parent := dir + "/" + sub;
    assert parent[|parent| - 1] == sub[|sub| - 1];
    assert sub[|sub| - 1] in sub;
    CandidateOfNestedFile(parent, name);
    var c := Candidate(parent + "/" + name);
    assert |c| == |dir| + |sub| + 11;
    assert c != dir + "/README.md" && c != Readme by {
      assert |dir + "/README.md"| == |dir| + 10;
    }
  }

  /** Backslashes are not separators to `dirname`: `a\b\c.py` sits at the root and so does not find
      `a/b/README.md`, although it does find a root README. */
  lemma BackslashesAreNotSeparators()
    ensures FindNearestReadme("a\\b\\c.py", ["a/b/README.md"]) == None
    ensures FindNearestReadme("a\\b\\c.py", ["README.md"]) == Some("README.md")
  {
    RootFileResolution("a\\b\\c.py", ["a/b/README.md"]);
    RootFileResolution("a\\b\\c.py", ["README.md"]);
  }

  /** A backslash before the last `/` is normalised: `a\b/c.py` finds `a/b/README.md`. */
  lemma BackslashInDirectoryNormalised()
    ensures FindNearestReadme("a\\b/c.py", ["a/b/README.md"]) == Some("a/b/README.md")
  {
    assert "a\\b" + "/" + "c.py" == "a\\b/c.py";
    assert PyStr.ReplaceChar("a\\b", '\\', '/') + "/README.md" == "a/b/README.md";
    CandidateOfNestedFile("a\\b", "c.py");
  }
}
