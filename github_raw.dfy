/** `getParamsFromGithubRaw` (extension.js:33-46) and the jsDelivr rewrites
    built from its fields (extension.js:87-92 and 272-276).

    The regular expression of extension.js:35 is the raw-content prefix
    followed by three slash-free groups and a final group that runs to the
    end of the text. It is searched anywhere in the text (it is not anchored
    at the start). At a given start each slash-free group is forced to run
    up to the next `/`, and the final group must take the whole remainder,
    which therefore may not contain a line terminator. The leftmost start
    that works wins. */
module GithubRaw {
  import opened Wrappers
  import opened Strings

  const RawHost := "raw.githubusercontent.com"
  const RawPrefix := "https://" + RawHost + "/"
  const CdnPrefix := "https://cdn.jsdelivr.net/gh/"

  /** `[^/]+` */
  predicate IsSegment(s: string)
  {
    |s| > 0 && forall k :: 0 <= k < |s| ==> s[k] != '/'
  }

  /** `.+$`: the rest of the text, non-empty, with no line terminator. */
  predicate IsPathTail(s: string)
  {
    |s| > 0 && NoLineTerminator(s)
  }

  datatype Fields = Fields(user: string, repo: string, branch: string, filePath: string)

  predicate WellFormed(f: Fields)
  {
    IsSegment(f.user) && IsSegment(f.repo) && IsSegment(f.branch) && IsPathTail(f.filePath)
  }

  /** The raw-content URL the four fields describe. */
  function RawUrl(f: Fields): string
  {
    RawPrefix + f.user + "/" + f.repo + "/" + f.branch + "/" + f.filePath
  }

  /** The regular expression matches `s` from index `i` with these groups. */
  predicate MatchesAt(s: string, i: nat, f: Fields)
  {
    i <= |s| && s[i..] == RawUrl(f) && WellFormed(f)
  }

  /** Split `t` at its first `/` when the part before it is a segment. */
  function TakeSegment(t: string): (r: Option<(string, string)>)
    ensures r.Some? ==> IsSegment(r.value.0) && t == r.value.0 + "/" + r.value.1
  {
    match IndexOf(t, "/")
    case None => None
    case Some(k) =>
      if k == 0 then None
      else
        assert forall j :: 0 <= j < k ==> t[j] != '/' by {
          forall j | 0 <= j < k ensures t[j] != '/' { assert !OccursAt(t, "/", j); }
        }
        assert t == t[..k] + "/" + t[k + 1..] by { assert t[k..k + 1] == "/"; }
        Some((t[..k], t[k + 1..]))
  }

  lemma {:induction false} TakeSegmentUnique(a: string, rest: string)
    requires IsSegment(a)
    ensures TakeSegment(a + "/" + rest) == Some((a, rest))
  {
    var t := a + "/" + rest;
    assert OccursAt(t, "/", |a|);
    forall j | 0 <= j < |a| ensures !OccursAt(t, "/", j) {
      assert t[j] == a[j];
    }
    assert IndexOf(t, "/") == Some(|a|);
    assert t[..|a|] == a && t[|a| + 1..] == rest;
  }

  /** RawUrl with its concatenations grouped from the right. */
  lemma RawUrlGrouped(f: Fields)
    ensures RawUrl(f) == RawPrefix + (f.user + "/" + (f.repo + "/" + (f.branch + "/" + f.filePath)))
  {
    var t2 := f.branch + "/" + f.filePath;
    var t1 := f.repo + "/" + t2;
    var t0 := f.user + "/" + t1;
    calc {
      RawUrl(f);
      RawPrefix + f.user + "/" + f.repo + "/" + f.branch + "/" + f.filePath;
      { assert RawPrefix + f.user + "/" + f.repo + "/" + f.branch + "/" + f.filePath
          == (RawPrefix + f.user + "/" + f.repo + "/") + t2; }
      (RawPrefix + f.user + "/" + f.repo + "/") + t2;
      { assert (RawPrefix + f.user + "/" + f.repo + "/") + t2 == (RawPrefix + f.user + "/") + t1; }
      (RawPrefix + f.user + "/") + t1;
      RawPrefix + t0;
    }
  }

  /** The attempt of the regular expression at start index `i`. */
  function ParseAt(s: string, i: nat): Option<Fields>
    requires i <= |s|
  {
    var t := s[i..];
    if !StartsWith(t, RawPrefix) then None
    else
      match TakeSegment(t[|RawPrefix|..])
      case None => None
      case Some((user, t1)) =>
        match TakeSegment(t1)
        case None => None
        case Some((repo, t2)) =>
          match TakeSegment(t2)
          case None => None
          case Some((branch, path)) =>
            if IsPathTail(path) then Some(Fields(user, repo, branch, path)) else None
  }

  /** What ParseAt finds is a match. */
  lemma ParseAtSound(s: string, i: nat)
    requires i <= |s| && ParseAt(s, i).Some?
    ensures MatchesAt(s, i, ParseAt(s, i).value)
  {
    var f := ParseAt(s, i).value;
    var t := s[i..];
    assert t == RawPrefix + t[|RawPrefix|..];
    var t1 := TakeSegment(t[|RawPrefix|..]).value.1;
    var t2 := TakeSegment(t1).value.1;
    assert t2 == f.branch + "/" + f.filePath;
    assert t1 == f.repo + "/" + t2;
    assert t[|RawPrefix|..] == f.user + "/" + t1;
    RawUrlGrouped(f);
  }

  /** Any match at `i` is the one ParseAt finds: the groups are determined. */
  lemma ParseAtComplete(s: string, i: nat, f: Fields)
    requires MatchesAt(s, i, f)
    ensures ParseAt(s, i) == Some(f)
  {
    var t := s[i..];
    var t2 := f.branch + "/" + f.filePath;
    var t1 := f.repo + "/" + t2;
    var t0 := f.user + "/" + t1;
    RawUrlGrouped(f);
    assert t == RawPrefix + t0;
    assert t[|RawPrefix|..] == t0;
    TakeSegmentUnique(f.user, t1);
    TakeSegmentUnique(f.repo, t2);
    TakeSegmentUnique(f.branch, f.filePath);
  }

  /** The regular expression's search: the first start index at or after `i`
      where the attempt succeeds. */
  function FirstMatch(s: string, i: nat): (r: Option<nat>)
    requires i <= |s|
    decreases |s| - i
    ensures r.Some? ==> i <= r.value <= |s| && ParseAt(s, r.value).Some?
    ensures r.Some? ==> forall j :: i <= j < r.value ==> ParseAt(s, j).None?
    ensures r.None? ==> forall j :: i <= j <= |s| ==> ParseAt(s, j).None?
  {
    if ParseAt(s, i).Some? then Some(i)
    else if i == |s| then None
    else FirstMatch(s, i + 1)
  }

  /** The object `getParamsFromGithubRaw` returns: four strings or four nulls. */
  datatype RawParams = RawParams(user: Option<string>, repo: Option<string>, branch: Option<string>, filePath: Option<string>)

  function GetParamsFromGithubRaw(url: string): (r: RawParams)
    ensures r.user.Some? == r.repo.Some? == r.branch.Some? == r.filePath.Some?
    ensures r.user.Some? ==>
      var f := Fields(r.user.value, r.repo.value, r.branch.value, r.filePath.value);
      WellFormed(f) && |RawUrl(f)| <= |url| && url[|url| - |RawUrl(f)|..] == RawUrl(f)
  {
    match FirstMatch(url, 0)
    case None => RawParams(None, None, None, None)
    case Some(i) =>
      var f := ParseAt(url, i).value;
      ParseAtSound(url, i);
      RawParams(Some(f.user), Some(f.repo), Some(f.branch), Some(f.filePath))
  }

  /** The fields of a match as four strings. */
  function FieldsOf(p: RawParams): Fields
    requires p.user.Some? && p.repo.Some? && p.branch.Some? && p.filePath.Some?
  {
    Fields(p.user.value, p.repo.value, p.branch.value, p.filePath.value)
  }

  /** Four nulls exactly when the pattern occurs nowhere in the text. */
  lemma NoMatchMeansNulls(url: string)
    ensures GetParamsFromGithubRaw(url).user.None? <==> forall i: nat, f :: !MatchesAt(url, i, f)
  {
    match FirstMatch(url, 0)
    case Some(i) =>
      ParseAtSound(url, i);
      assert MatchesAt(url, i, ParseAt(url, i).value);
    case None =>
      forall i: nat, f ensures !MatchesAt(url, i, f) {
        if MatchesAt(url, i, f) {
          ParseAtComplete(url, i, f);
        }
      }
  }

  /** The fields come from the leftmost place where the pattern matches. */
  lemma ParamsFromLeftmostMatch(url: string)
    requires GetParamsFromGithubRaw(url).user.Some?
    ensures exists i: nat ::
      && MatchesAt(url, i, FieldsOf(GetParamsFromGithubRaw(url)))
      && forall j: nat, g :: j < i ==> !MatchesAt(url, j, g)
  {
    var i := FirstMatch(url, 0).value;
    ParseAtSound(url, i);
    assert MatchesAt(url, i, FieldsOf(GetParamsFromGithubRaw(url)));
    forall j: nat, g | j < i ensures !MatchesAt(url, j, g) {
      if MatchesAt(url, j, g) { ParseAtComplete(url, j, g); }
    }
  }

  /** Reading the fields back out of the URL they describe gives them unchanged. */
  lemma ParamsRoundTrip(f: Fields)
    requires WellFormed(f)
    ensures GetParamsFromGithubRaw(RawUrl(f)) == RawParams(Some(f.user), Some(f.repo), Some(f.branch), Some(f.filePath))
  {
    var url := RawUrl(f);
    assert url[0..] == url;
    ParseAtComplete(url, 0, f);
    assert ParseAt(url, 0).Some?;
  }

  /** The jsDelivr URL of a file in a GitHub repository at a branch (extension.js:91, 275). */
  function JsDelivrUrl(user: string, repo: string, branch: string, filePath: string): string
  {
    CdnPrefix + user + "/" + repo + "@" + branch + "/" + filePath
  }

  /** A JavaScript value is truthy: a string that is neither null nor empty. */
  predicate Truthy(o: Option<string>)
  {
    o.Some? && o.value != ""
  }

  /** The script src `initializeExtension` appends for an extension URL, or
      None when it returns without appending (extension.js:85-92). */
  function ExtensionScriptSrc(extensionURL: string): (src: Option<string>)
  {
    if !Contains(extensionURL, RawHost) then Some(extensionURL)
    else
      var p := GetParamsFromGithubRaw(extensionURL);
      if !Truthy(p.user) || !Truthy(p.repo) || !Truthy(p.branch) || !Truthy(p.filePath) then None
      else Some(JsDelivrUrl(p.user.value, p.repo.value, p.branch.value, p.filePath.value))
  }

  /** The host test of extension.js:88 holds for every raw URL. */
  lemma RawUrlMentionsHost(f: Fields)
    ensures Contains(RawUrl(f), RawHost)
  {
    var url := RawUrl(f);
    assert url[..|RawPrefix|] == RawPrefix;
    assert RawPrefix[8..8 + |RawHost|] == RawHost;
    assert url[8..8 + |RawHost|] == RawHost;
    OccursAtContains(url, RawHost, 8);
  }

  /** The three outcomes of the rewrite in initializeExtension: a URL not on
      the raw host is kept; one that is, yields a script only when the pattern
      matches, and then its src is the jsDelivr URL of the four fields. */
  lemma ExtensionSrcCases(url: string)
    ensures !Contains(url, RawHost) ==> ExtensionScriptSrc(url) == Some(url)
    ensures Contains(url, RawHost) ==>
      var p := GetParamsFromGithubRaw(url);
      (ExtensionScriptSrc(url).Some? <==> p.user.Some?)
      && (p.user.Some? ==> ExtensionScriptSrc(url) == Some(JsDelivrUrl(p.user.value, p.repo.value, p.branch.value, p.filePath.value)))
  {
  }

  /** A raw-content URL becomes exactly the jsDelivr URL of its fields. */
  lemma ExtensionSrcOfRawUrl(f: Fields)
    requires WellFormed(f)
    ensures ExtensionScriptSrc(RawUrl(f)) == Some(JsDelivrUrl(f.user, f.repo, f.branch, f.filePath))
  {
    RawUrlMentionsHost(f);
    ParamsRoundTrip(f);
  }

  /** A template-literal hole: null is written "null". */
  function OrNull(o: Option<string>): string
  {
    GetOr(o, "null")
  }

  /** The src of a script included by a theme (extension.js:271-276). Unlike
      initializeExtension there is no guard: fields that did not match are
      written as "null". */
  function IncludeScriptSrc(script: string): (src: string)
  {
    if !Contains(script, RawHost) then script
    else
      var p := GetParamsFromGithubRaw(script);
      JsDelivrUrl(OrNull(p.user), OrNull(p.repo), OrNull(p.branch), OrNull(p.filePath))
  }

  /** Included scripts agree with extensions wherever those get a script. */
  lemma IncludeSrcAgrees(script: string)
    requires ExtensionScriptSrc(script).Some?
    ensures IncludeScriptSrc(script) == ExtensionScriptSrc(script).value
  {
  }

  /** A raw-host script that does not match the pattern is sent to the CDN
      path made of four "null"s. */
  lemma IncludeSrcUnmatched(script: string)
    requires Contains(script, RawHost) && ExtensionScriptSrc(script).None?
    ensures IncludeScriptSrc(script) == JsDelivrUrl("null", "null", "null", "null")
  {
  }
}
