/**
 * Link selection (`find_matching_links`, after the page has been fetched and
 * parsed): every anchor's href that the inclusion pattern finds a match in
 * is resolved against the page URL and added to a set. The anchors arrive
 * as the sequence of their hrefs in document order; the inclusion pattern
 * is the predicate `target` and URL resolution is the function `join`.
 */
module LinkSelection {
  import opened SetFacts

  /** The links the page yields: the resolved URLs of the matching hrefs. */
  function Selected(pageUrl: string, hrefs: seq<string>, target: string -> bool,
                    join: (string, string) -> string): set<string>
  {
    set h | h in hrefs && target(h) :: join(pageUrl, h)
  }

  /** The accumulation loop of `find_matching_links`. */
  method FindMatchingLinks(pageUrl: string, hrefs: seq<string>, target: string -> bool,
                           join: (string, string) -> string) returns (links: set<string>)
    ensures links == Selected(pageUrl, hrefs, target, join)
    ensures forall h :: h in hrefs && target(h) ==> join(pageUrl, h) in links
    ensures forall u :: u in links ==> exists h :: h in hrefs && target(h) && u == join(pageUrl, h)
  {
    links := {};
    for i := 0 to |hrefs|
      invariant links == Selected(pageUrl, hrefs[..i], target, join)
    {
      var href := hrefs[i];
      assert hrefs[..i + 1] == hrefs[..i] + [href];
      if target(href) {
        var fullUrl := join(pageUrl, href);
        links := links + {fullUrl};
      }
    }
    assert hrefs[..|hrefs|] == hrefs;
  }

  /** An anchor whose href does not match contributes nothing: adding it to
      the page leaves the result unchanged. */
  lemma NonMatchingContributesNothing(pageUrl: string, hrefs: seq<string>, h: string,
                                      target: string -> bool, join: (string, string) -> string)
    requires !target(h)
    ensures Selected(pageUrl, hrefs + [h], target, join) == Selected(pageUrl, hrefs, target, join)
  {
  }

  /** Repeating an href on the page does not add a second copy of its URL. */
  lemma RepeatedHrefAddsNothing(pageUrl: string, hrefs: seq<string>, h: string,
                                target: string -> bool, join: (string, string) -> string)
    requires h in hrefs
    ensures Selected(pageUrl, hrefs + [h], target, join) == Selected(pageUrl, hrefs, target, join)
  {
  }

  /** The set holds at most one URL per matching anchor. */
  lemma {:induction false} SelectedSize(pageUrl: string, hrefs: seq<string>, target: string -> bool,
                                        join: (string, string) -> string)
    ensures |Selected(pageUrl, hrefs, target, join)| <= |hrefs|
  {
    if hrefs != [] {
      var last := hrefs[|hrefs| - 1];
      var init := hrefs[..|hrefs| - 1];
      assert hrefs == init + [last];
      SelectedSize(pageUrl, init, target, join);
      var before := Selected(pageUrl, init, target, join);
      var grown := before + {join(pageUrl, last)};
      assert Selected(pageUrl, hrefs, target, join) <= grown;
      assert |grown| <= |before| + 1;
      SubsetCardinality(Selected(pageUrl, hrefs, target, join), grown);
    }
  }

}
