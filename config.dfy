/** Target-list construction and token selection from config/config.go:
    the comma-space separated repository, organisation and user lists become
    API URLs in a fixed order, and the API token is taken from the
    environment or, failing that, from a token file whose contents (or read
    error) are an input here. */
module Config {
  import opened Wrappers
  import opened Seqs
  import opened GoStrings

  /** Query suffix asking the API for 100 results per page. */
  const PerPage := "?&per_page=100"
  /** Separator of the names in each list. */
  const ListSep := ", "
  const NoTargetsMessage := "No targets specified"

  /** The three kinds of target, in the order their URLs are emitted. */
  datatype Category = Repos | Orgs | Users

  /** What comes before a target's name in its URL. */
  function UrlPrefix(apiUrl: string, c: Category): string {
    match c
    case Repos => apiUrl + "/repos/"
    case Orgs => apiUrl + "/orgs/"
    case Users => apiUrl + "/users/"
  }

  /** What comes after a target's name in its URL. */
  function UrlSuffix(c: Category): string {
    match c
    case Repos => PerPage
    case Orgs => "/repos" + PerPage
    case Users => "/repos" + PerPage
  }

  /** The URL for one name: `apiUrl/repos/x`, `apiUrl/orgs/x/repos` or
      `apiUrl/users/x/repos`, each followed by the per-page query. */
  function TargetUrl(apiUrl: string, c: Category, name: string): string {
    UrlPrefix(apiUrl, c) + name + UrlSuffix(c)
  }

  /** The name a target URL of category `c` was made from, if it is one. */
  function NameOf(apiUrl: string, c: Category, url: string): Option<string> {
    var p, q := UrlPrefix(apiUrl, c), UrlSuffix(c);
    if |p| + |q| <= |url| && url[..|p|] == p && url[|url| - |q|..] == q
    then Some(url[|p|..|url| - |q|])
    else None
  }

  /** The name can be read back from its URL, so distinct names give
      distinct URLs. */
  lemma NameOfTargetUrl(apiUrl: string, c: Category, name: string)
    ensures NameOf(apiUrl, c, TargetUrl(apiUrl, c, name)) == Some(name)
  {
    var p, q := UrlPrefix(apiUrl, c), UrlSuffix(c);
    var url := p + name + q;
    assert url[..|p|] == p;
    assert url[|url| - |q|..] == q;
    assert url[|p|..|url| - |q|] == name;
  }

  /** The URL for each name of category `c`. */
  function NameToUrl(apiUrl: string, c: Category): string -> string {
    name => TargetUrl(apiUrl, c, name)
  }

  /** The URLs for a list of names, in list order. */
  function TargetUrls(apiUrl: string, c: Category, names: seq<string>): seq<string> {
    MapSeq(NameToUrl(apiUrl, c), names)
  }

  /** The URL list getScrapeURLs returns when some list is non-empty. */
  function ScrapeUrlList(apiUrl: string, repos: string, orgs: string, users: string): seq<string> {
    TargetUrls(apiUrl, Repos, Split(repos, ListSep))
    + TargetUrls(apiUrl, Orgs, Split(orgs, ListSep))
    + TargetUrls(apiUrl, Users, Split(users, ListSep))
  }

  /** getScrapeURLs: an error with no URLs when all three lists are empty;
      otherwise one URL per piece of each split list, repositories first,
      then organisations, then users. */
  method GetScrapeUrls(apiUrl: string, repos: string, orgs: string, users: string)
    returns (urls: seq<string>, err: Option<string>)
    ensures err.Some? <==> repos == "" && orgs == "" && users == ""
    ensures err.Some? ==> err.value == NoTargetsMessage && urls == []
    ensures err.None? ==> urls == ScrapeUrlList(apiUrl, repos, orgs, users)
  {
    urls := [];
    if |repos| == 0 && |orgs| == 0 && |users| == 0 {
      return urls, Some(NoTargetsMessage);
    }

    var rs := Split(repos, ListSep);
    for i := 0 to |rs|
      invariant urls == TargetUrls(apiUrl, Repos, rs[..i])
    {
      urls := urls + [TargetUrl(apiUrl, Repos, rs[i])];
      MapSeqStep([], NameToUrl(apiUrl, Repos), rs, i);
    }
    assert rs[..|rs|] == rs;
    ghost var afterRepos := urls;

    var os := Split(orgs, ListSep);
    for i := 0 to |os|
      invariant urls == afterRepos + TargetUrls(apiUrl, Orgs, os[..i])
    {
      urls := urls + [TargetUrl(apiUrl, Orgs, os[i])];
      MapSeqStep(afterRepos, NameToUrl(apiUrl, Orgs), os, i);
    }
    assert os[..|os|] == os;
    ghost var afterOrgs := urls;

    var us := Split(users, ListSep);
    for i := 0 to |us|
      invariant urls == afterOrgs + TargetUrls(apiUrl, Users, us[..i])
    {
      urls := urls + [TargetUrl(apiUrl, Users, us[i])];
      MapSeqStep(afterOrgs, NameToUrl(apiUrl, Users), us, i);
    }
    assert us[..|us|] == us;
    err := None;
  }

  /** The list has one URL per piece of each split list, laid out as all
      repository URLs, then all organisation URLs, then all user URLs. Since
      even "" splits into one (empty) piece, there are always at least three,
      and an unset category still contributes a URL with an empty name. */
  lemma ScrapeUrlListLayout(apiUrl: string, repos: string, orgs: string, users: string)
    ensures var rs, os, us := Split(repos, ListSep), Split(orgs, ListSep), Split(users, ListSep);
      var urls := ScrapeUrlList(apiUrl, repos, orgs, users);
      && |urls| == |rs| + |os| + |us| >= 3
      && (forall k :: 0 <= k < |rs| ==> urls[k] == TargetUrl(apiUrl, Repos, rs[k]))
      && (forall k :: 0 <= k < |os| ==> urls[|rs| + k] == TargetUrl(apiUrl, Orgs, os[k]))
      && (forall k :: 0 <= k < |us| ==> urls[|rs| + |os| + k] == TargetUrl(apiUrl, Users, us[k]))
  {
    var rs, os, us := Split(repos, ListSep), Split(orgs, ListSep), Split(users, ListSep);
    var a, b, c := TargetUrls(apiUrl, Repos, rs), TargetUrls(apiUrl, Orgs, os), TargetUrls(apiUrl, Users, us);
    assert ScrapeUrlList(apiUrl, repos, orgs, users) == a + b + c;
    ThreeBlocks(a, b, c);
  }

  /** Where the elements of three sequences end up in their concatenation. */
  lemma ThreeBlocks<T>(a: seq<T>, b: seq<T>, c: seq<T>)
    ensures |a + b + c| == |a| + |b| + |c|
    ensures forall k :: 0 <= k < |a| ==> (a + b + c)[k] == a[k]
    ensures forall k :: 0 <= k < |b| ==> (a + b + c)[|a| + k] == b[k]
    ensures forall k :: 0 <= k < |c| ==> (a + b + c)[|a| + |b| + k] == c[k]
  {
  }

  /** An unset list yields exactly one URL, the one for the empty name. */
  lemma EmptyListGivesEmptyName(apiUrl: string, c: Category)
    ensures TargetUrls(apiUrl, c, Split("", ListSep)) == [TargetUrl(apiUrl, c, "")]
  {
    assert Split("", ListSep) == [""];
  }

  /** The names can be recovered from the URLs: reading each repository URL
      back and joining the names with ", " gives the original list. */
  lemma {:induction false} ReposRecoverable(apiUrl: string, repos: string, orgs: string, users: string)
    ensures var rs := Split(repos, ListSep);
      var urls := ScrapeUrlList(apiUrl, repos, orgs, users);
      && (forall k :: 0 <= k < |rs| ==> NameOf(apiUrl, Repos, urls[k]) == Some(rs[k]))
      && Join(rs, ListSep) == repos
  {
    var rs := Split(repos, ListSep);
    forall k | 0 <= k < |rs|
      ensures NameOf(apiUrl, Repos, ScrapeUrlList(apiUrl, repos, orgs, users)[k]) == Some(rs[k])
    {
      NameOfTargetUrl(apiUrl, Repos, rs[k]);
    }
    JoinSplit(repos, ListSep);
  }

  /** The token file as the program sees it: its contents, or the error
      message of the failed read. */
  datatype FileRead = Contents(text: string) | ReadError(message: string)

  /** getAuth: a non-empty environment token wins and the file is not
      consulted; otherwise a named file's contents, trimmed of surrounding
      white space; a failed read gives "" and the read error; with neither,
      "" and an error with an empty message. */
  function GetAuth(tokenEnv: string, tokenFile: string, file: FileRead): (auth: (string, Option<string>))
    ensures tokenEnv != "" ==> auth == (tokenEnv, None)
    ensures auth.1.Some? <==> tokenEnv == "" && (tokenFile == "" || file.ReadError?)
    ensures auth.1.Some? ==> auth.0 == ""
    ensures tokenEnv == "" && tokenFile == "" ==> auth.1 == Some("")
    ensures tokenEnv == "" && tokenFile != "" && file.ReadError? ==> auth.1 == Some(file.message)
    ensures tokenEnv == "" && tokenFile != "" && file.Contents? ==> auth.0 == TrimSpace(file.text)
    ensures tokenEnv == "" && auth.0 != "" ==> !IsSpace(auth.0[0]) && !IsSpace(auth.0[|auth.0| - 1])
  {
    if tokenEnv != "" then (tokenEnv, None)
    else if tokenFile != "" then
      match file
      case ReadError(msg) => ("", Some(msg))
      case Contents(text) => (TrimSpace(text), None)
    else ("", Some(""))
  }

  /** The environment token takes precedence: the result does not depend on
      the file at all. */
  lemma EnvTokenWins(tokenEnv: string, file1: string, read1: FileRead, file2: string, read2: FileRead)
    requires tokenEnv != ""
    ensures GetAuth(tokenEnv, file1, read1) == GetAuth(tokenEnv, file2, read2) == (tokenEnv, None)
  {
  }

  /** A token read from a file is already trimmed: trimming it again changes nothing. */
  lemma FileTokenIsTrimmed(tokenFile: string, text: string)
    requires tokenFile != ""
    ensures TrimSpace(GetAuth("", tokenFile, Contents(text)).0) == GetAuth("", tokenFile, Contents(text)).0
  {
    TrimSpaceIdempotent(text);
  }
}
