/** The blacklist filter of `storeThemes` and `storeExtensions`
    (extension.js:305-308 and 319-322): the repositories of a GitHub search
    response whose `html_url` is on the blacklist are dropped, in order, and
    every other field of the response is copied (`{...allRepos, items}`). */
module Search {
  import opened Wrappers

  /** The fields of a search hit the marketplace reads. */
  datatype Repo = Repo(htmlUrl: string, contentsUrl: string, defaultBranch: string)

  /** A parsed search response; `items` is None when the response has none
      (a rate-limited request, or a failed fetch that fell back to `[]`). */
  datatype SearchResponse = SearchResponse(totalCount: int, incompleteResults: bool, items: Option<seq<Repo>>)

  /** Filtering a response without `items` throws a TypeError (extension.js:307). */
  datatype SearchError = NoItems

  /** The hits whose `html_url` is not on the blacklist, in order (extension.js:307). */
  function WithoutBlacklisted(items: seq<Repo>, blacklist: seq<string>): (r: seq<Repo>)
    ensures |r| <= |items|
    ensures forall k :: 0 <= k < |r| ==> r[k] in items && r[k].htmlUrl !in blacklist
    ensures forall k :: 0 <= k < |items| && items[k].htmlUrl !in blacklist ==> items[k] in r
  {
    if items == [] then []
    else
      var rest := WithoutBlacklisted(items[1..], blacklist);
      assert forall k :: 0 < k < |items| ==> items[k] == items[1..][k - 1];
      if items[0].htmlUrl in blacklist then rest else [items[0]] + rest
  }

  /** `storeThemes` and `storeExtensions` once the response and the
      blacklist are in (extension.js:302-309 and 316-323). */
  function FilterSearchResults(response: SearchResponse, blacklist: seq<string>): Result<SearchResponse, SearchError>
  {
    match response.items
    case None => Failure(NoItems)
    case Some(items) => Success(response.(items := Some(WithoutBlacklisted(items, blacklist))))
  }

  /** The filtered response throws exactly when there are no items; otherwise
      only its items differ, and they are the response's hits whose
      `html_url` is not on the blacklist. */
  lemma FilteredResponse(response: SearchResponse, blacklist: seq<string>)
    ensures FilterSearchResults(response, blacklist).Failure? <==> response.items.None?
    ensures var r := FilterSearchResults(response, blacklist);
      r.Success? ==> r.value.(items := response.items) == response && r.value.items.Some?
    ensures var r := FilterSearchResults(response, blacklist);
      r.Success? ==> forall repo :: repo in r.value.items.value <==> repo in response.items.value && repo.htmlUrl !in blacklist
  {
    if response.items.Some? {
      var items := response.items.value;
      var kept := WithoutBlacklisted(items, blacklist);
      forall repo ensures repo in kept <==> repo in items && repo.htmlUrl !in blacklist {
        if repo in kept {
          var k :| 0 <= k < |kept| && kept[k] == repo;
        }
        if repo in items && repo.htmlUrl !in blacklist {
          var k :| 0 <= k < |items| && items[k] == repo;
        }
      }
    }
  }

  /** Filtering keeps the order: it distributes over concatenation. */
  lemma {:induction false} FilterAppend(a: seq<Repo>, b: seq<Repo>, blacklist: seq<string>)
    ensures WithoutBlacklisted(a + b, blacklist) == WithoutBlacklisted(a, blacklist) + WithoutBlacklisted(b, blacklist)
  {
    if a == [] {
      assert a + b == b;
    } else {
      assert (a + b)[1..] == a[1..] + b;
      FilterAppend(a[1..], b, blacklist);
    }
  }

  /** Filtering twice with two blacklists is filtering once with both. */
  lemma {:induction false} FilterTwice(items: seq<Repo>, first: seq<string>, second: seq<string>)
    ensures WithoutBlacklisted(WithoutBlacklisted(items, first), second) == WithoutBlacklisted(items, first + second)
  {
    if items != [] {
      FilterTwice(items[1..], first, second);
      var rest := WithoutBlacklisted(items[1..], first);
      if items[0].htmlUrl !in first {
        assert WithoutBlacklisted(items, first) == [items[0]] + rest;
        assert ([items[0]] + rest)[1..] == rest;
      }
    }
  }

  /** Filtering is idempotent. */
  lemma FilterIdempotent(items: seq<Repo>, blacklist: seq<string>)
    ensures WithoutBlacklisted(WithoutBlacklisted(items, blacklist), blacklist) == WithoutBlacklisted(items, blacklist)
  {
    FilterTwice(items, blacklist, blacklist);
    FilterSameMembers(items, blacklist + blacklist, blacklist);
  }

  /** Two blacklists with the same members filter alike. */
  lemma {:induction false} FilterSameMembers(items: seq<Repo>, b1: seq<string>, b2: seq<string>)
    requires forall u :: u in b1 <==> u in b2
    ensures WithoutBlacklisted(items, b1) == WithoutBlacklisted(items, b2)
  {
    if items != [] {
      FilterSameMembers(items[1..], b1, b2);
    }
  }

  /** Nothing is dropped when no hit is on the blacklist. */
  lemma {:induction false} FilterNothingListed(items: seq<Repo>, blacklist: seq<string>)
    requires forall k :: 0 <= k < |items| ==> items[k].htmlUrl !in blacklist
    ensures WithoutBlacklisted(items, blacklist) == items
  {
    if items != [] {
      assert forall k :: 0 <= k < |items[1..]| ==> items[1..][k] == items[k + 1];
      FilterNothingListed(items[1..], blacklist);
    }
  }
}
