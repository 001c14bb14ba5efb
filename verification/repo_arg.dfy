/**
  The parsing prefix of git_repo.py's `clone_and_checkout`: validate the
  single `<repo_url>` or `<repo_url>@<branch>` argument, split it, derive
  the directory name `git clone` creates, and decide whether a checkout
  follows. Cloning, `chdir` and the git calls themselves are not modelled.
 */
module RepoArg {
  import opened Wrappers
  import Names

  /** ASCII characters Python's `str.strip()` removes. */
  predicate IsSpace(c: char) {
    c == ' ' || c == '\t' || c == '\n' || c == '\r' || c == '\U{0B}' || c == '\U{0C}'
    || ('\U{1C}' <= c <= '\U{1F}')
  }

  /** `not s.strip()`: nothing but whitespace. */
  predicate Blank(s: string) {
    forall i :: 0 <= i < |s| ==> IsSpace(s[i])
  }

  /** Position of the first `c` in `s`, or -1. */
  function IndexOf(s: string, c: char): (i: int)
    ensures -1 <= i < |s|
    ensures 0 <= i ==> s[i] == c && c !in s[..i]
    ensures i < 0 <==> c !in s
  {
    if |s| == 0 then -1
    else if s[0] == c then 0
    else
      var j := IndexOf(s[1..], c);
      assert s[1..][..if j < 0 then 0 else j] == s[1..if j < 0 then 1 else j + 1];
      if j < 0 then -1 else j + 1
  }

  /** Position of the last `c` in `s`, or -1 (`str.rfind`). */
  function LastIndexOf(s: string, c: char): (i: int)
    ensures -1 <= i < |s|
    ensures 0 <= i ==> s[i] == c && c !in s[i + 1..]
    ensures i < 0 <==> c !in s
    decreases |s|
  {
    if |s| == 0 then -1
    else if s[|s| - 1] == c then |s| - 1
    else
      var j := LastIndexOf(s[..|s| - 1], c);
      DropLastOther(s, c, j);
      j
  }

  /** Dropping a last character other than `c` changes no search for `c`. */
  lemma DropLastOther(s: string, c: char, j: int)
    requires |s| > 0 && s[|s| - 1] != c && -1 <= j < |s|
    ensures c in s <==> c in s[..|s| - 1]
    ensures 0 <= j < |s| - 1 ==> (c in s[j + 1..] <==> c in s[..|s| - 1][j + 1..])
  {
    var t := s[..|s| - 1];
    assert s == t + [s[|s| - 1]];
    if 0 <= j < |s| - 1 {
      assert s[j + 1..] == t[j + 1..] + [s[|s| - 1]];
    }
  }

  /** `repo.split("@", 1)` if the argument holds '@', else the whole argument and "main". */
  function SplitRepo(arg: string): (r: (string, string))
    ensures '@' in arg ==> r.0 + "@" + r.1 == arg && '@' !in r.0
    ensures '@' !in arg ==> r == (arg, "main")
  {
    var i := IndexOf(arg, '@');
    if i < 0 then (arg, "main")
    else
      assert arg[..i] + "@" + arg[i + 1..] == arg;
      (arg[..i], arg[i + 1..])
  }

  /** The split is at the FIRST '@': the branch may hold further '@'. */
  lemma SplitRepoUnique(arg: string, url: string, branch: string)
    requires url + "@" + branch == arg && '@' !in url
    ensures SplitRepo(arg) == (url, branch)
  {
    assert arg[|url|] == '@';
    assert forall j :: 0 <= j < |url| ==> arg[j] == url[j];
    var i := IndexOf(arg, '@');
    assert arg[..|url|] == url;
    assert i == |url|;
    assert arg[i + 1..] == branch;
  }

  /** POSIX `os.path.basename`: what follows the last '/'. */
  function Basename(p: string): (r: string)
    ensures '/' !in r
    ensures |r| <= |p| && r == p[|p| - |r|..]
    ensures '/' !in p ==> r == p
  {
    var i := LastIndexOf(p, '/');
    p[i + 1..]
  }

  /** The basename is the part after the last separator, whatever comes before. */
  lemma BasenameAfterSlash(dir: string, name: string)
    requires '/' !in name
    ensures Basename(dir + "/" + name) == name
  {
    var p := dir + "/" + name;
    assert p[|dir|] == '/';
    assert p[|dir| + 1..] == name;
    var i := LastIndexOf(p, '/');
    assert i >= |dir| by {
      assert p[|dir|] in p[i + 1..] || i >= |dir|;
    }
    assert forall j :: |dir| < j < |p| ==> p[j] == name[j - |dir| - 1];
    assert i == |dir|;
  }

  /** Whether the part of `p` before position `d` holds a character other than '.'. */
  predicate HasNonDotBefore(p: string, d: int)
    requires 0 <= d <= |p|
  {
    exists k :: 0 <= k < d && p[k] != '.'
  }

  /**
    `os.path.splitext(p)` for a `p` without '/': the extension starts at the
    last '.', unless only dots come before it (".git" has no extension).
   */
  function SplitExt(p: string): (r: (string, string))
    ensures r.0 + r.1 == p
    ensures r.1 == "" || (r.1[0] == '.' && '.' !in r.1[1..])
    ensures r.1 != "" ==> exists k :: 0 <= k < |r.0| && r.0[k] != '.'
  {
    var d := LastIndexOf(p, '.');
    if d > 0 && HasNonDotBefore(p, d) then
      assert p[..d] + p[d..] == p;
      assert p[d..][1..] == p[d + 1..];
      (p[..d], p[d..])
    else (p, "")
  }

  /** `os.path.splitext(os.path.basename(repo_url))[0]`. */
  function RepoName(url: string): string {
    SplitExt(Basename(url)).0
  }

  /** `branch.lower() not in ["main", "master"]`. */
  predicate NeedsCheckout(branch: string) {
    Names.Lower(branch) != "main" && Names.Lower(branch) != "master"
  }

  datatype ArgError = EmptyArgument   // the ValueError of the validation

  datatype Plan = Plan(url: string, branch: string, dir: string, checkout: bool)

  /** Everything `clone_and_checkout` decides before it touches the file system. */
  function ParseRepoArg(arg: string): (r: Result<Plan, ArgError>)
    ensures r.Err? <==> Blank(arg)
    ensures r.Ok? ==> ('@' in arg ==> r.value.url + "@" + r.value.branch == arg && '@' !in r.value.url)
    ensures r.Ok? ==> ('@' !in arg ==> r.value.url == arg && r.value.branch == "main")
    ensures r.Ok? ==> r.value.dir == RepoName(r.value.url)
    ensures r.Ok? ==> (r.value.checkout <==> NeedsCheckout(r.value.branch))
  {
    if Blank(arg) then Err(EmptyArgument)
    else
      var (url, branch) := SplitRepo(arg);
      Ok(Plan(url, branch, RepoName(url), NeedsCheckout(branch)))
  }

  /** A stem with a non-dot character, then one extension without dots. */
  lemma SplitExtDotted(stem: string, ext: string)
    requires '.' !in ext
    requires exists k :: 0 <= k < |stem| && stem[k] != '.'
    ensures SplitExt(stem + "." + ext) == (stem, "." + ext)
  {
    var p := stem + "." + ext;
    assert p[|stem|] == '.';
    var d := LastIndexOf(p, '.');
    assert d >= |stem| by {
      assert p[|stem|] in p[d + 1..] || d >= |stem|;
    }
    assert forall j :: |stem| < j < |p| ==> p[j] == ext[j - |stem| - 1];
    assert d == |stem|;
    var k :| 0 <= k < |stem| && stem[k] != '.';
    assert p[k] == stem[k];
    assert HasNonDotBefore(p, d);
    assert p[..d] == stem;
    assert p[d..] == "." + ext;
  }

  /** A name whose only dot leads it (".git") has no extension. */
  lemma SplitExtHidden(name: string)
    requires '.' !in name
    ensures SplitExt("." + name) == ("." + name, "")
  {
    var p := "." + name;
    var d := LastIndexOf(p, '.');
    assert forall j :: 0 < j < |p| ==> p[j] == name[j - 1];
    assert d == 0;
  }

  /** A name without dots has no extension. */
  lemma SplitExtNone(name: string)
    requires '.' !in name
    ensures SplitExt(name) == (name, "")
  {
  }

  /** The directory `git clone` makes: the last path segment without its last extension. */
  lemma RepoNameStripsExtension(dir: string, stem: string, ext: string)
    requires '/' !in stem && '/' !in ext && '.' !in ext
    requires exists k :: 0 <= k < |stem| && stem[k] != '.'
    ensures RepoName(dir + "/" + (stem + "." + ext)) == stem
  {
    var name := stem + "." + ext;
    assert '/' !in name by {
      assert forall i :: 0 <= i < |name| ==> name[i] == if i < |stem| then stem[i] else if i == |stem| then '.' else ext[i - |stem| - 1];
    }
    assert Basename(dir + "/" + name) == name by {
      BasenameAfterSlash(dir, name);
    }
    SplitExtDotted(stem, ext);
  }

  /** A last segment whose only dot leads it (".git") is kept whole. */
  lemma RepoNameKeepsLeadingDot(dir: string, name: string)
    requires '/' !in name && '.' !in name
    ensures RepoName(dir + "/" + ("." + name)) == "." + name
  {
    assert '/' !in "." + name by {
      assert forall i :: 0 < i < |"." + name| ==> ("." + name)[i] == name[i - 1];
    }
    BasenameAfterSlash(dir, "." + name);
    SplitExtHidden(name);
  }

  // ---------------------------------------------------------------------
  // Examples

  /** The default branches need no checkout, whatever their letter case. */
  lemma NoCheckoutForMain()
    ensures !NeedsCheckout("main")
  {
    assert Names.Lower("main") == "main";
  }

  lemma NoCheckoutForMaster()
    ensures !NeedsCheckout("Master")
  {
    assert Names.Lower("Master") == "master";
  }

  lemma CheckoutForOtherBranch()
    ensures NeedsCheckout("dev")
  {
    assert Names.Lower("dev") == "dev";
  }

  /** The decision ignores letter case: a branch is checked out iff its lower-cased name is. */
  lemma CheckoutIgnoresCase(branch: string)
    ensures NeedsCheckout(branch) <==> NeedsCheckout(Names.Lower(branch))
  {
    var l := Names.Lower(branch);
    assert Names.Lower(l) == l;
  }

  lemma ParseExamples()
    ensures ParseRepoArg("   ") == Err(EmptyArgument)
    ensures ParseRepoArg("") == Err(EmptyArgument)
  {
    assert Blank("   ") by {
      assert forall i :: 0 <= i < 3 ==> "   "[i] == ' ';
    }
  }
}
