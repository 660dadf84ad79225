/**
 `GitHubAPI.extract_owner_repo` and `GitHubAPI.get_repo_details`: the owner and
 repository names are read from the path of a GitHub URL, the REST endpoint is
 fetched with the API retry policy, and the decoded JSON object is returned
 unless the response was empty, undecodable or GitHub's "Not Found" reply.
 The URL's path (what urllib3's parse_url yields) and the JSON decoder are inputs.
 */
module GitHub {
  import opened Optional
  import opened Text
  import opened Fetch

  /** A JSON value as the scraper sees it; arrays, objects and fractions are not looked into. */
  datatype JValue = JNull | JBool(b: bool) | JNumber(n: int) | JString(s: string) | JComposite

  /** A decoded JSON object: key to value. */
  type RepoObject = map<string, JValue>

  datatype OwnerRepo = OwnerRepo(owner: string, repo: string)

  /**
   `extract_owner_repo` on a URL path. The path is stripped of every leading
   and trailing `/`; when what is left has no `/` (fewer than two segments)
   there is no result. Otherwise the owner is the text before the first `/`,
   the repository name follows it, contains neither `/` nor `.git`, and is
   followed by the end, a `/`, or `.git` (later segments are ignored).
   */
  function ExtractOwnerRepo(path: string): (r: Option<OwnerRepo>)
    ensures r.None? <==> '/' !in Strip(path, {'/'})
    ensures r.Some? ==> OwnerRepoShape(Strip(path, {'/'}), r.value.owner, r.value.repo)
  {
    var s := Strip(path, {'/'});
    var parts := Split(s, '/');
    if |parts| >= 2 then
      OwnerRepoOfStripped(s);
      Some(OwnerRepo(parts[0], BeforeFirst(parts[1], ".git")))
    else
      None
  }

  /** The shape promised by ExtractOwnerRepo, for the stripped path `s`. */
  ghost predicate OwnerRepoShape(s: string, o: string, n: string) {
    '/' !in o && '/' !in n && !Occurs(n, ".git") &&
    o + "/" + n <= s &&
    var rest := s[|o| + 1 + |n|..];
    rest == "" || rest[0] == '/' || ".git" <= rest
  }

  lemma OwnerRepoOfStripped(s: string)
    requires '/' in s
    ensures |Split(s, '/')| >= 2
    ensures OwnerRepoShape(s, Split(s, '/')[0], BeforeFirst(Split(s, '/')[1], ".git"))
  {
    var parts := Split(s, '/');
    SecondSegment(s);
    var o := parts[0];
    var tail := s[|o| + 1..];
    var n := BeforeFirst(parts[1], ".git");
    CutSegment(parts[1], tail);
    DropDrop(s, |o| + 1, |n|);
  }

  /** With a `/` in `s`, the second part of the split follows the first part and a `/`, up to the next `/`. */
  lemma SecondSegment(s: string)
    requires '/' in s
    ensures |Split(s, '/')| >= 2
    ensures var parts := Split(s, '/');
      var tail := s[|parts[0]| + 1..];
      parts[0] + "/" <= s && parts[1] <= tail && (|parts[1]| == |tail| || tail[|parts[1]|] == '/')
  {
  }

  /** Cutting a segment at `.git` leaves a prefix of the text, followed by its end, a `/` or `.git`. */
  lemma CutSegment(seg: string, tail: string)
    requires seg <= tail && (|seg| == |tail| || tail[|seg|] == '/')
    ensures var n := BeforeFirst(seg, ".git");
      var rest := tail[|n|..];
      n <= tail && (rest == "" || rest[0] == '/' || ".git" <= rest)
  {
  }

  const ApiRoot := "https://api.github.com/repos/"

  /** The REST endpoint of one repository. */
  function ApiUrl(o: OwnerRepo): string {
    ApiRoot + o.owner + "/" + o.repo
  }

  /** One call of fetch_github_api: the URL requested, the headers sent, and what the retry loop did. */
  datatype ApiCall = ApiCall(url: string, headers: map<string, string>, fetch: FetchResult)

  /** What get_repo_details did: the API call, if one was made, and the object it returns (None for None). */
  datatype RepoLookup = RepoLookup(call: Option<ApiCall>, data: Option<RepoObject>)

  /** GitHub's reply for an unknown repository: `{"message": "Not Found", ...}`. */
  predicate IsNotFound(obj: RepoObject) {
    "message" in obj && obj["message"] == JString("Not Found")
  }

  /** The owner and name are both present and non-empty, so the API is called. */
  predicate Callable(o: Option<OwnerRepo>) {
    o.Some? && |o.value.owner| > 0 && |o.value.repo| > 0
  }

  /**
   `get_repo_details` for a URL whose path is `path`. No request is made when
   the owner or repository name is missing or empty; otherwise exactly the
   repository's endpoint is fetched with the API headers. An object is
   returned exactly when the response had a body, decoded, and was not the
   "Not Found" reply, and it is the decoded object itself.
   */
  function GetRepoDetails(path: string, token: Option<string>, net: nat -> Attempt,
                          decode: string -> Option<RepoObject>): (r: RepoLookup)
    ensures r.call.None? <==> !Callable(ExtractOwnerRepo(path))
    ensures r.call.Some? ==>
      r.call.value == ApiCall(ApiUrl(ExtractOwnerRepo(path).value), GitHubHeaders(token), FetchGitHubApi(net, ApiPolicy))
    ensures r.data.Some? ==>
      r.call.Some? && HasContent(r.call.value.fetch) &&
      decode(r.call.value.fetch.content.value) == r.data && !IsNotFound(r.data.value)
    ensures r.call.Some? && HasContent(r.call.value.fetch) ==>
      var d := decode(r.call.value.fetch.content.value);
      (d.Some? && !IsNotFound(d.value) ==> r.data == d)
  {
    var o := ExtractOwnerRepo(path);
    if !Callable(o) then RepoLookup(None, None)
    else
      var call := ApiCall(ApiUrl(o.value), GitHubHeaders(token), FetchGitHubApi(net, ApiPolicy));
      if !HasContent(call.fetch) then RepoLookup(Some(call), None)
      else
        match decode(call.fetch.content.value)
        case None => RepoLookup(Some(call), None)
        case Some(obj) =>
          if IsNotFound(obj) then RepoLookup(Some(call), None) else RepoLookup(Some(call), Some(obj))
  }

  /** An empty segment between owner and name (`/x//y`) leaves the name empty, so nothing is fetched. */
  lemma EmptyNameIsNotFetched(token: Option<string>, net: nat -> Attempt, decode: string -> Option<RepoObject>)
    ensures GetRepoDetails("/x//y", token, net, decode) == RepoLookup(None, None)
  {
    StripOneLeadingSlash("x//y");
    assert "/" + "x//y" == "/x//y";
    SplitAfterPart("x", "/y", '/');
    assert "x" + ['/'] + "/y" == "x//y";
    SplitAfterPart("", "y", '/');
    assert "" + ['/'] + "y" == "/y";
    CutAfterName("", false);
    assert "" + "" == "";
    ExtractViaStripped("/x//y", "x//y");
  }

  /** A name that is only `.git` (`/x/.git`) is cut to the empty name, so nothing is fetched. */
  lemma BareGitSuffixIsNotFetched(token: Option<string>, net: nat -> Attempt, decode: string -> Option<RepoObject>)
    ensures GetRepoDetails("/x/.git", token, net, decode) == RepoLookup(None, None)
  {
    StripOneLeadingSlash("x/.git");
    assert "/" + "x/.git" == "/x/.git";
    SplitRepoPath("x", ".git");
    assert "x" + "/" + ".git" == "x/.git";
    CutAfterName("", true);
    assert "" + ".git" == ".git";
    ExtractViaStripped("/x/.git", "x/.git");
  }

  /**
   Building a repository path and parsing it back: for a non-empty owner and
   name without `/` (the name without `.git`), `/owner/name` and
   `/owner/name.git` both give back the owner and the name.
   */
  lemma ExtractInvertsRepoPath(o: string, n: string, withGit: bool)
    requires |o| > 0 && |n| > 0 && '/' !in o && '/' !in n && !Occurs(n, ".git")
    ensures ExtractOwnerRepo("/" + o + "/" + n + (if withGit then ".git" else "")) == Some(OwnerRepo(o, n))
  {
    var git := if withGit then ".git" else "";
    var seg := n + git;
    assert '/' !in seg by {
      assert '/' !in git;
    }
    assert "/" + o + "/" + n + git == "/" + (o + "/" + seg);
    StripRepoPath(o, seg);
    SplitRepoPath(o, seg);
    CutAfterName(n, withGit);
    ExtractViaStripped("/" + (o + "/" + seg), o + "/" + seg);
  }

  lemma StripRepoPath(o: string, seg: string)
    requires |o| > 0 && |seg| > 0 && '/' !in o && '/' !in seg
    ensures Strip("/" + (o + "/" + seg), {'/'}) == o + "/" + seg
  {
    var t := o + "/" + seg;
    assert t[|t| - 1] == seg[|seg| - 1];
    StripOneLeadingSlash(t);
  }

  lemma SplitRepoPath(o: string, seg: string)
    requires '/' !in o && '/' !in seg
    ensures Split(o + "/" + seg, '/') == [o, seg]
  {
    SplitAfterPart(o, seg, '/');
  }

  /** ExtractOwnerRepo depends on the path only through its stripped form. */
  lemma ExtractViaStripped(path: string, t: string)
    requires Strip(path, {'/'}) == t && '/' in t
    ensures |Split(t, '/')| >= 2
    ensures ExtractOwnerRepo(path) == Some(OwnerRepo(Split(t, '/')[0], BeforeFirst(Split(t, '/')[1], ".git")))
  {
  }

  /** `/t`, where `t` starts and ends with a character other than `/`, strips to `t`. */
  lemma StripOneLeadingSlash(t: string)
    requires |t| > 0 && t[0] != '/' && t[|t| - 1] != '/'
    ensures Strip("/" + t, {'/'}) == t
  {
  }

  /** In `name.git`, where the name has no `.git`, no `.git` starts inside the name. */
  lemma NoOccurrenceInsideName(n: string, j: nat)
    requires !Occurs(n, ".git") && j < |n|
    ensures !OccursAt(n + ".git", ".git", j)
  {
    var seg := n + ".git";
    if j + 4 <= |n| {
      assert seg[j..j + 4] == n[j..j + 4];
      assert !OccursAt(n, ".git", j);
    } else if j + 4 <= |seg| {
      assert seg[j..j + 4][|n| - j] == seg[|n|] == '.';
      assert ".git"[|n| - j] != '.';
    }
  }

  /** Cutting `name.git` (or just `name`) at its first `.git` leaves the name. */
  lemma CutAfterName(n: string, withGit: bool)
    requires !Occurs(n, ".git")
    ensures BeforeFirst(n + (if withGit then ".git" else ""), ".git") == n
  {
    var seg := n + (if withGit then ".git" else "");
    if !withGit {
      assert seg == n;
    } else {
      assert OccursAt(seg, ".git", |n|) by {
        assert seg[|n|..|n| + 4] == ".git";
      }
      forall j | 0 <= j < |n|
        ensures !OccursAt(seg, ".git", j)
      {
        NoOccurrenceInsideName(n, j);
      }
      var r := BeforeFirst(seg, ".git");
      assert |r| == |n|;
      assert r == seg[..|n|];
    }
  }
}
