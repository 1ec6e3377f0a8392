/**
 * The pure naming helpers of app/utils.py: the repository name guessed from
 * a git URL and the sanitised upload file name.
 */
module Names {
  import opened Strings

  const DefaultRepoName: string := "repository"
  const DefaultUploadName: string := "upload.zip"

  /** The last slash-separated part of the stripped URL, trailing slashes removed. */
  function UrlBase(url: string): (base: string)
    ensures '/' !in base
  {
    LastSegment(TrimEnd(Trim(url, IsSpace), IsSlash))
  }

  /** Removes one trailing ".git", if there is one. */
  function DropGitSuffix(base: string): (stem: string)
    ensures |stem| <= |base| && stem == base[..|stem|]
    ensures EndsWith(base, ".git") <==> |stem| == |base| - 4
    ensures !EndsWith(base, ".git") ==> stem == base
  {
    if EndsWith(base, ".git") then base[..|base| - 4] else base
  }

  /**
   * `guess_repo_name_from_git_url`: the last slash-separated part of the
   * stripped URL without its trailing slashes, minus one trailing ".git",
   * or "repository" when that leaves nothing.
   */
  function GuessRepoName(url: string): (name: string)
    ensures name != ""
    ensures '/' !in name
  {
    var base := UrlBase(url);
    var stem := DropGitSuffix(base);
    assert forall i :: 0 <= i < |stem| ==> stem[i] == base[i];
    NoSlashInDefault();
    if stem == "" then DefaultRepoName else stem
  }

  /** Surrounding whitespace in the URL does not change the name. */
  lemma GuessIgnoresWhitespace(pre: string, url: string, post: string)
    requires AllChars(pre, IsSpace) && AllChars(post, IsSpace)
    ensures GuessRepoName(pre + url + post) == GuessRepoName(url)
  {
    TrimSurrounding(pre, url, post, IsSpace);
  }

  lemma TrimEndKeeps(s: string, p: char -> bool)
    requires s != [] && !p(s[|s| - 1])
    ensures TrimEnd(s, p) == s
  {
  }

  lemma TrimAppendSlash(url: string)
    requires url == [] || !IsSpace(url[|url| - 1])
    ensures Trim(url + "/", IsSpace) == Trim(url, IsSpace) + "/"
  {
    var t := TrimStart(url, IsSpace);
    if t == [] {
      TrimStartEmpty(url, IsSpace);
      TrimStartPrefix(url, "/", IsSpace);
      TrimEndKeeps("/", IsSpace);
    } else {
      TrimStartAppendGeneral(url, "/", IsSpace);
      TrimEndKeeps(t, IsSpace);
      TrimEndKeeps(t + "/", IsSpace);
    }
  }

  lemma UrlBaseIgnoresTrailingSlash(url: string)
    requires url == [] || !IsSpace(url[|url| - 1])
    ensures UrlBase(url + "/") == UrlBase(url)
  {
    TrimAppendSlash(url);
    TrimEndSlash(Trim(url, IsSpace));
  }

  lemma TrimEndSlash(t: string)
    ensures TrimEnd(t + "/", IsSlash) == TrimEnd(t, IsSlash)
  {
    assert AllChars("/", IsSlash);
    TrimEndSuffix(t, "/", IsSlash);
  }

  /** A trailing slash does not change the name. */
  lemma GuessIgnoresTrailingSlash(url: string)
    requires url == [] || !IsSpace(url[|url| - 1])
    ensures GuessRepoName(url + "/") == GuessRepoName(url)
  {
    UrlBaseIgnoresTrailingSlash(url);
  }

  lemma TrimStartBeforeSlash(prefix: string, rest: string)
    ensures TrimStart(prefix + ("/" + rest), IsSpace) == TrimStart(prefix, IsSpace) + ("/" + rest)
  {
    assert !IsSpace('/');
    TrimStartAppend(prefix, "/" + rest, IsSpace);
  }

  lemma TrimEndBeforeKept(s: string)
    requires s != [] && !IsSpace(s[|s| - 1]) && !IsSlash(s[|s| - 1])
    ensures TrimEnd(s, IsSpace) == s && TrimEnd(s, IsSlash) == s
  {
    TrimEndKeeps(s, IsSpace);
    TrimEndKeeps(s, IsSlash);
  }

  /** The last part of ".../full" is `full` when `full` ends in neither whitespace nor a slash. */
  lemma UrlBaseOfName(prefix: string, full: string)
    requires full != [] && '/' !in full && !IsSpace(full[|full| - 1])
    ensures UrlBase(prefix + "/" + full) == full
  {
    AppendAssoc(prefix, "/", full);
    TrimStartBeforeSlash(prefix, full);
    var pre' := TrimStart(prefix, IsSpace);
    var stripped := pre' + ("/" + full);
    assert stripped[|stripped| - 1] == full[|full| - 1];
    TrimEndBeforeKept(stripped);
    AppendAssoc(pre', "/", full);
    LastSegmentAfterSlash(pre', full);
  }

  /**
   * For a URL ending in `/<name>.git` the name is `<name>`: exactly one
   * ".git" is removed, so "x.git.git" gives "x.git".
   */
  lemma GuessOfGitUrl(prefix: string, name: string)
    requires name != [] && '/' !in name
    ensures GuessRepoName(prefix + "/" + name + ".git") == name
  {
    var full := name + ".git";
    assert '/' !in full by {
      forall i | 0 <= i < |full| ensures full[i] != '/' {
        if i < |name| { assert full[i] == name[i]; }
      }
    }
    assert full[|full| - 1] == 't' && !IsSpace('t');
    UrlBaseOfName(prefix, full);
    AppendAssoc(prefix + "/", name, ".git");
    DropGitSuffixOf(name);
  }

  /** For a URL ending in `/<name>` without ".git" the name is `<name>` itself. */
  lemma GuessOfPlainUrl(prefix: string, name: string)
    requires name != [] && '/' !in name && !IsSpace(name[|name| - 1])
    requires !EndsWith(name, ".git")
    ensures GuessRepoName(prefix + "/" + name) == name
  {
    UrlBaseOfName(prefix, name);
  }

  /** A URL whose last part is ".git" alone leaves an empty stem, which falls back to "repository". */
  lemma GuessOfBareGitSuffix(prefix: string)
    ensures GuessRepoName(prefix + "/" + ".git") == DefaultRepoName
  {
    assert !IsSpace('t');
    UrlBaseOfName(prefix, ".git");
    assert DropGitSuffix(".git") == "";
  }

  /** A URL made of whitespace only falls back to "repository". */
  lemma GuessOfBlankUrl(url: string)
    requires AllChars(url, IsSpace)
    ensures GuessRepoName(url) == DefaultRepoName
  {
    TrimStartAll(url, IsSpace);
  }

  lemma DropGitSuffixOf(name: string)
    ensures DropGitSuffix(name + ".git") == name
  {
    var full := name + ".git";
    assert full[|full| - 4..] == ".git";
    assert full[..|full| - 4] == name;
  }

  lemma NoSlashInDefault()
    ensures '/' !in DefaultRepoName
  {
  }

  /**
   * The directory name a clone is written to: the guessed name, except that
   * the path components "." and ".." (which `guess_repo_name_from_git_url`
   * lets through) fall back to "repository".
   */
  function CheckoutName(url: string): (name: string)
    ensures name != "" && name != "." && name != ".."
    ensures '/' !in name
    ensures GuessRepoName(url) !in {".", ".."} ==> name == GuessRepoName(url)
  {
    var guess := GuessRepoName(url);
    NoSlashInDefault();
    if guess == "." || guess == ".." then DefaultRepoName else guess
  }

  /** Characters matched by the class `[\w.\-]` (with `\w` taken as ASCII). */
  predicate IsFilenameChar(c: char) {
    ('a' <= c <= 'z') || ('A' <= c <= 'Z') || ('0' <= c <= '9') || c == '_' || c == '.' || c == '-'
  }

  predicate IsUnsafe(c: char) { !IsFilenameChar(c) }

  /**
   * `re.sub(r"[^\w.\-]+", "_", s)`: every maximal run of characters outside
   * the class becomes a single underscore.
   */
  function CollapseRuns(s: string): (r: string)
    ensures AllChars(r, IsFilenameChar)
    ensures |r| <= |s|
    ensures s == [] <==> r == []
    decreases |s|
  {
    if s == [] then []
    else if IsFilenameChar(s[0]) then [s[0]] + CollapseRuns(s[1..])
    else "_" + CollapseRuns(TrimStart(s[1..], IsUnsafe))
  }

  /** A string made only of allowed characters is left as it is. */
  lemma {:induction false} CollapseRunsKeepsSafe(s: string)
    requires AllChars(s, IsFilenameChar)
    ensures CollapseRuns(s) == s
    decreases |s|
  {
    if s != [] {
      CollapseRunsKeepsSafe(s[1..]);
    }
  }

  /**
   * A run of disallowed characters between an allowed prefix and a
   * remainder that starts with an allowed character becomes one underscore.
   */
  lemma {:induction false} CollapseOneRun(safe: string, run: string, rest: string)
    requires AllChars(safe, IsFilenameChar)
    requires run != [] && AllChars(run, IsUnsafe)
    requires rest == [] || IsFilenameChar(rest[0])
    ensures CollapseRuns(safe + run + rest) == safe + "_" + CollapseRuns(rest)
    decreases |safe|
  {
    if safe == [] {
      CollapseRunStart(run, rest);
      assert safe + run + rest == run + rest;
    } else {
      var tail := safe[1..];
      assert AllChars(tail, IsFilenameChar) by {
        forall i | 0 <= i < |tail| ensures IsFilenameChar(tail[i]) { assert tail[i] == safe[i + 1]; }
      }
      CollapseOneRun(tail, run, rest);
      CollapseKeepsHead(safe[0], tail + run + rest);
      ConsSplit(safe, run, rest);
      ConsSplit(safe, "_", CollapseRuns(rest));
    }
  }

  lemma ConsSplit<T>(s: seq<T>, a: seq<T>, b: seq<T>)
    requires s != []
    ensures s + a + b == [s[0]] + (s[1..] + a + b)
  {
  }

  lemma CollapseKeepsHead(c: char, s: string)
    requires IsFilenameChar(c)
    ensures CollapseRuns([c] + s) == [c] + CollapseRuns(s)
  {
    assert ([c] + s)[1..] == s;
  }

  lemma CollapseRunStart(run: string, rest: string)
    requires run != [] && AllChars(run, IsUnsafe)
    requires rest == [] || IsFilenameChar(rest[0])
    ensures CollapseRuns(run + rest) == "_" + CollapseRuns(rest)
  {
    var s := run + rest;
    assert !IsFilenameChar(s[0]);
    var tail := run[1..];
    assert AllChars(tail, IsUnsafe) by {
      forall i | 0 <= i < |tail| ensures IsUnsafe(tail[i]) { assert tail[i] == run[i + 1]; }
    }
    assert s[1..] == tail + rest;
    TrimStartPrefix(tail, rest, IsUnsafe);
    if rest != [] {
      TrimStartNone(rest[..1], IsUnsafe);
      assert TrimStart(rest, IsUnsafe) == rest;
    }
  }

  /** `safe_filename`: strip, collapse disallowed runs, fall back to "upload.zip". */
  function SafeFilename(name: string): (r: string)
    ensures r != ""
    ensures AllChars(r, IsFilenameChar)
  {
    var cleaned := CollapseRuns(Trim(name, IsSpace));
    DefaultUploadNameIsSafe();
    if cleaned == "" then DefaultUploadName else cleaned
  }

  lemma DefaultUploadNameIsSafe()
    ensures AllChars(DefaultUploadName, IsFilenameChar)
  {
    forall i | 0 <= i < |DefaultUploadName| ensures IsFilenameChar(DefaultUploadName[i]) {
      assert DefaultUploadName[i] in "upload.zip";
    }
  }

  /** Applying `safe_filename` twice gives the same name as applying it once. */
  lemma SafeFilenameIdempotent(name: string)
    ensures SafeFilename(SafeFilename(name)) == SafeFilename(name)
  {
    var once := SafeFilename(name);
    assert forall c :: IsFilenameChar(c) ==> !IsSpace(c);
    TrimStartNone(once, IsSpace);
    TrimEndNone(once, IsSpace);
    CollapseRunsKeepsSafe(once);
  }

  lemma TrimStartNone(s: string, p: char -> bool)
    requires forall i :: 0 <= i < |s| ==> !p(s[i])
    ensures TrimStart(s, p) == s
  {
  }

  lemma TrimEndNone(s: string, p: char -> bool)
    requires forall i :: 0 <= i < |s| ==> !p(s[i])
    ensures TrimEnd(s, p) == s
  {
  }
}
