/** Discovery of article ids from a symbol's listing pages: the listing text is
    searched for `article/` links (the regular expression `article/[0-9]*`),
    the pages of a listing are read in order until the first page that
    answers but lists nothing, and each link is cut to the text after its last
    `/`. */
module Crawler {
  import opened PyStr

  // ---------------------------------------------------------------------------
  // matched_url: re.findall('article/[0-9]*', text)
  // ---------------------------------------------------------------------------

  /** The literal part of the pattern. */
  const Marker: string := "article/"

  predicate IsDigit(c: char) {
    '0' <= c <= '9'
  }

  /** `article/` starts at position `i` of `s`. */
  predicate OccursAt(s: string, i: int) {
    0 <= i && i + |Marker| <= |s| && s[i..i + |Marker|] == Marker
  }

  /** What the pattern accepts as a whole: `article/` and then digits only. */
  predicate IsUrl(m: string) {
    |m| >= |Marker| && m[..|Marker|] == Marker && forall k :: |Marker| <= k < |m| ==> IsDigit(m[k])
  }

  /** The length of the longest run of digits starting at `i` (`[0-9]*` is
      greedy). */
  function DigitRun(s: string, i: nat): (n: nat)
    requires i <= |s|
    ensures i + n <= |s|
    ensures forall k :: i <= k < i + n ==> IsDigit(s[k])
    ensures i + n < |s| ==> !IsDigit(s[i + n])
    decreases |s| - i
  {
    if i < |s| && IsDigit(s[i]) then 1 + DigitRun(s, i + 1) else 0
  }

  /** The match that starts at an occurrence of `article/`: the marker and
      every digit that follows it, up to the first non-digit or the end. */
  function MatchAt(s: string, p: nat): (m: string)
    requires OccursAt(s, p)
    ensures IsUrl(m)
    ensures p + |m| <= |s| && m == s[p..p + |m|]
    ensures p + |m| < |s| ==> !IsDigit(s[p + |m|])
  {
    var n := DigitRun(s, p + |Marker|);
    assert s[p..p + |Marker| + n][..|Marker|] == Marker;
    s[p..p + |Marker| + n]
  }

  /** `findall` from position `i`: a match where one starts, the scan resuming
      right after it; otherwise the scan moves one character on. */
  function FindAllFrom(s: string, i: nat): (ms: seq<string>)
    requires i <= |s|
    ensures forall k :: 0 <= k < |ms| ==> IsUrl(ms[k])
    decreases |s| - i
  {
    if i == |s| then []
    else if OccursAt(s, i) then
      var m := MatchAt(s, i);
      [m] + FindAllFrom(s, i + |m|)
    else FindAllFrom(s, i + 1)
  }

  /** `matched_url(text)`. */
  function MatchedUrl(text: string): seq<string>
  {
    FindAllFrom(text, 0)
  }

  /** The positions `p >= i` where `article/` occurs, in increasing order. */
  function OccurrencesFrom(s: string, i: nat): seq<nat>
    requires i <= |s|
    decreases |s| - i
  {
    if i == |s| then []
    else (if OccursAt(s, i) then [i] else []) + OccurrencesFrom(s, i + 1)
  }

  /** Exactly the occurrences at or after `i`, each once, in increasing order. */
  lemma {:induction false} OccurrencesFromSpec(s: string, i: nat)
    requires i <= |s|
    ensures forall k :: 0 <= k < |OccurrencesFrom(s, i)| ==> OccursAt(s, OccurrencesFrom(s, i)[k])
    ensures forall p :: p in OccurrencesFrom(s, i) <==> i <= p && OccursAt(s, p)
    ensures forall j, k :: 0 <= j < k < |OccurrencesFrom(s, i)| ==>
              OccurrencesFrom(s, i)[j] < OccurrencesFrom(s, i)[k]
    decreases |s| - i
  {
    if i < |s| {
      OccurrencesFromSpec(s, i + 1);
      var rest := OccurrencesFrom(s, i + 1);
      if OccursAt(s, i) {
        assert OccurrencesFrom(s, i) == [i] + rest;
        forall k | 0 <= k < |rest| ensures i < rest[k] {
          assert rest[k] in rest;
        }
      }
    }
  }

  /** The match at each of the positions `ps` where `article/` occurs, in
      order. */
  function MatchesAt(s: string, ps: seq<nat>): (ms: seq<string>)
    ensures |ms| <= |ps|
  {
    if ps == [] then []
    else (if OccursAt(s, ps[0]) then [MatchAt(s, ps[0])] else []) + MatchesAt(s, ps[1..])
  }

  /** At occurrences only, there is one match per position. */
  lemma {:induction false} MatchesAtOccurrences(s: string, ps: seq<nat>)
    requires forall k :: 0 <= k < |ps| ==> OccursAt(s, ps[k])
    ensures |MatchesAt(s, ps)| == |ps|
    ensures forall k :: 0 <= k < |ps| ==> MatchesAt(s, ps)[k] == MatchAt(s, ps[k])
  {
    if ps != [] {
      MatchesAtOccurrences(s, ps[1..]);
      assert OccursAt(s, ps[0]);
    }
  }

  lemma MatchesAtCons(s: string, p: nat, rest: seq<nat>)
    requires OccursAt(s, p)
    ensures MatchesAt(s, [p] + rest) == [MatchAt(s, p)] + MatchesAt(s, rest)
  {
    assert ([p] + rest)[1..] == rest;
  }

  /** An occurrence starts with the marker's `a`. */
  lemma OccurrenceStartsWithA(s: string, i: int)
    ensures OccursAt(s, i) ==> s[i] == 'a'
  {
    if OccursAt(s, i) {
      assert s[i..i + |Marker|][0] == s[i];
    }
  }

  /** Positions holding no `a` hold no occurrence. */
  lemma {:induction false} SkipNoOccurrence(s: string, i: nat, j: nat)
    requires i <= j <= |s|
    requires forall q :: i <= q < j ==> s[q] != 'a'
    ensures OccurrencesFrom(s, i) == OccurrencesFrom(s, j)
    decreases j - i
  {
    if i < j {
      OccurrenceStartsWithA(s, i);
      assert !OccursAt(s, i);
      SkipNoOccurrence(s, i + 1, j);
    }
  }

  /** A match holds no `a` after its first character, so no occurrence
      starts inside it. */
  lemma MatchHasNoInnerOccurrence(s: string, p: nat)
    requires OccursAt(s, p)
    ensures OccurrencesFrom(s, p + 1) == OccurrencesFrom(s, p + |MatchAt(s, p)|)
  {
    var m := MatchAt(s, p);
    forall q | p + 1 <= q < p + |m| ensures s[q] != 'a' {
      assert s[q] == m[q - p];
      if q - p < |Marker| {
        assert m[q - p] == Marker[q - p];
      }
    }
    SkipNoOccurrence(s, p + 1, p + |m|);
  }

  /** `findall` yields one match per occurrence of `article/`, in the order of
      the text: the scan never skips an occurrence and never starts a match
      inside another. */
  lemma {:induction false} FindAllIsMatchPerOccurrence(s: string, i: nat)
    requires i <= |s|
    ensures FindAllFrom(s, i) == MatchesAt(s, OccurrencesFrom(s, i))
    decreases |s| - i, 1
  {
    if i < |s| {
      if OccursAt(s, i) {
        FindAllAtOccurrence(s, i);
      } else {
        FindAllIsMatchPerOccurrence(s, i + 1);
        assert [] + OccurrencesFrom(s, i + 1) == OccurrencesFrom(s, i + 1);
        assert OccurrencesFrom(s, i) == OccurrencesFrom(s, i + 1);
        assert FindAllFrom(s, i) == FindAllFrom(s, i + 1);
      }
    }
  }

  /** The case of `FindAllIsMatchPerOccurrence` where a match starts at `i`. */
  lemma {:induction false} FindAllAtOccurrence(s: string, i: nat)
    requires OccursAt(s, i)
    ensures FindAllFrom(s, i) == MatchesAt(s, OccurrencesFrom(s, i))
    decreases |s| - i, 0
  {
    var m := MatchAt(s, i);
    var rest := OccurrencesFrom(s, i + 1);
    calc {
      FindAllFrom(s, i);
      [m] + FindAllFrom(s, i + |m|);
      { FindAllIsMatchPerOccurrence(s, i + |m|); }
      [m] + MatchesAt(s, OccurrencesFrom(s, i + |m|));
      { MatchHasNoInnerOccurrence(s, i); }
      [m] + MatchesAt(s, rest);
      { MatchesAtCons(s, i, rest); }
      MatchesAt(s, [i] + rest);
      MatchesAt(s, OccurrencesFrom(s, i));
    }
  }

  /** `matched_url`: as many matches as occurrences of `article/`, the k-th
      being the k-th occurrence's marker with its maximal run of digits. */
  lemma MatchedUrlSpec(text: string)
    ensures var ps := OccurrencesFrom(text, 0);
            && (forall p :: p in ps <==> OccursAt(text, p))
            && |MatchedUrl(text)| == |ps|
            && forall k :: 0 <= k < |ps| ==>
                 OccursAt(text, ps[k]) && MatchedUrl(text)[k] == MatchAt(text, ps[k])
  {
    OccurrencesFromSpec(text, 0);
    FindAllIsMatchPerOccurrence(text, 0);
    MatchesAtOccurrences(text, OccurrencesFrom(text, 0));
  }

  /** A bare `article/` is a match, and so is a marker with its digits. */
  lemma MatchedUrlExample()
    ensures MatchedUrl("article/") == ["article/"]
    ensures MatchedUrl("article/7") == ["article/7"]
  {
    var s1 := "article/";
    assert OccursAt(s1, 0);
    assert DigitRun(s1, 8) == 0;
    assert MatchAt(s1, 0) == s1;
    var s2 := "article/7";
    assert OccursAt(s2, 0);
    assert DigitRun(s2, 9) == 0;
    assert DigitRun(s2, 8) == 1;
    assert MatchAt(s2, 0) == s2;
  }

  // ---------------------------------------------------------------------------
  // past_urls_per_symbol
  // ---------------------------------------------------------------------------

  /** The answer to one listing request. */
  datatype Response = Response(status: int, text: string)

  /** The listing of a symbol as the crawler reads it: the answer to the
      request for each page number. */
  type Listing = int -> Response

  /** The page answered but lists no article: the loop stops there. */
  predicate StopsAt(listing: Listing, page: int) {
    listing(page).status == 200 && MatchedUrl(listing(page).text) == []
  }

  /** The links gathered from `page` on, up to `end - 1`: a page answering
      200 adds its matches or, when it has none, ends the loop; any other
      status adds nothing. */
  function PastUrls(listing: Listing, page: int, end: int): seq<string>
    decreases end - page
  {
    if page >= end then []
    else if listing(page).status == 200 then
      var matched := MatchedUrl(listing(page).text);
      if matched == [] then [] else matched + PastUrls(listing, page + 1, end)
    else PastUrls(listing, page + 1, end)
  }

  /** The pages requested from `page` on, up to `end - 1`: every page until
      the first stopping page, that one included. */
  function Examined(listing: Listing, page: int, end: int): seq<int>
    decreases end - page
  {
    if page >= end then []
    else if StopsAt(listing, page) then [page]
    else [page] + Examined(listing, page + 1, end)
  }

  /** The requested pages are consecutive from `page` and below `end`; none
      but the last is a stopping page, and the loop ends before `end - 1`
      only at a stopping page. */
  lemma {:induction false} ExaminedPages(listing: Listing, page: int, end: int)
    ensures var pages := Examined(listing, page, end);
            && |pages| <= (if page < end then end - page else 0)
            && (forall k :: 0 <= k < |pages| ==> pages[k] == page + k)
            && (forall k :: 0 <= k < |pages| - 1 ==> !StopsAt(listing, pages[k]))
            && (|pages| < end - page ==> pages != [] && StopsAt(listing, pages[|pages| - 1]))
    decreases end - page
  {
    if page < end && !StopsAt(listing, page) {
      ExaminedPages(listing, page + 1, end);
    }
  }

  /** The matches of the pages that answered 200, concatenated in order with
      duplicates kept. */
  function Harvest(listing: Listing, pages: seq<int>): seq<string>
  {
    if pages == [] then []
    else
      (if listing(pages[0]).status == 200 then MatchedUrl(listing(pages[0]).text) else [])
      + Harvest(listing, pages[1..])
  }

  /** The result is the concatenation of the matches of the requested pages
      that answered 200. */
  lemma {:induction false} PastUrlsHarvest(listing: Listing, page: int, end: int)
    ensures PastUrls(listing, page, end) == Harvest(listing, Examined(listing, page, end))
    decreases end - page
  {
    if page < end {
      var ex := Examined(listing, page, end);
      if StopsAt(listing, page) {
        assert ex == [page];
        assert Harvest(listing, ex[1..]) == [];
      } else {
        PastUrlsHarvest(listing, page + 1, end);
        assert ex[1..] == Examined(listing, page + 1, end);
      }
    }
  }

  /** An empty or reversed range requests nothing and returns nothing. */
  lemma EmptyRange(listing: Listing, start: int, end: int)
    requires start >= end
    ensures PastUrls(listing, start, end) == [] && Examined(listing, start, end) == []
  {
  }

  /** Once a stopping page lies below both bounds, the end page no longer
      matters: the loop stops at the first stopping page either way. */
  lemma {:induction false} EndIrrelevantAfterStop(listing: Listing, start: int, stop: int, end1: int, end2: int)
    requires start <= stop < end1 && stop < end2
    requires StopsAt(listing, stop)
    ensures PastUrls(listing, start, end1) == PastUrls(listing, start, end2)
    ensures Examined(listing, start, end1) == Examined(listing, start, end2)
    decreases stop - start
  {
    if start < stop {
      EndIrrelevantAfterStop(listing, start + 1, stop, end1, end2);
    }
  }

  /** `past_urls_per_symbol` over the listing of one symbol: requests the
      pages `start, start + 1, ...` below `end`, stopping after the first page
      that answers but lists nothing, and returns the matches gathered. */
  method PastUrlsPerSymbol(listing: Listing, start: int, end: int)
    returns (pastUrls: seq<string>, requested: seq<int>)
    ensures pastUrls == PastUrls(listing, start, end)
    ensures requested == Examined(listing, start, end)
  {
    pastUrls := [];
    requested := [];
    var i := start;
    while i < end
      invariant pastUrls + PastUrls(listing, i, end) == PastUrls(listing, start, end)
      invariant requested + Examined(listing, i, end) == Examined(listing, start, end)
      decreases end - i
    {
      var response := listing(i);
      requested := requested + [i];
      if response.status == 200 {
        var matched := MatchedUrl(response.text);
        if matched == [] {
          assert PastUrls(listing, i, end) == [];
          assert Examined(listing, i, end) == [i];
          break;
        }
        assert PastUrls(listing, i, end) == matched + PastUrls(listing, i + 1, end);
        pastUrls := pastUrls + matched;
      }
      assert Examined(listing, i, end) == [i] + Examined(listing, i + 1, end);
      i := i + 1;
    }
  }

  // ---------------------------------------------------------------------------
  // urls_to_ids
  // ---------------------------------------------------------------------------

  /** `[u.split("/")[-1] for u in urls]`. */
  function UrlsToIds(urls: seq<string>): (ids: seq<string>)
    ensures |ids| == |urls|
  {
    seq(|urls|, k requires 0 <= k < |urls| => LastPart(urls[k], '/'))
  }

  /** Each id is the text after the last `/` of its link: a suffix of it with
      no `/`, preceded by a `/` or by nothing. */
  lemma UrlsToIdsSuffixes(urls: seq<string>)
    ensures forall k :: 0 <= k < |urls| ==>
              '/' !in UrlsToIds(urls)[k] &&
              exists pre :: urls[k] == pre + UrlsToIds(urls)[k] && (pre == [] || pre[|pre| - 1] == '/')
  {
    forall k | 0 <= k < |urls|
      ensures exists pre :: urls[k] == pre + UrlsToIds(urls)[k] && (pre == [] || pre[|pre| - 1] == '/')
    {
      LastPartIsSuffix(urls[k], '/');
    }
  }

  /** The id of a matched link is its run of digits: `"article/123"` gives
      `"123"` and a bare `"article/"` gives `""`. */
  lemma IdOfUrl(m: string)
    requires IsUrl(m)
    ensures LastPart(m, '/') == m[|Marker|..]
  {
    var digits := m[|Marker|..];
    assert '/' !in digits by {
      forall q | 0 <= q < |digits| ensures digits[q] != '/' {
        assert IsDigit(m[|Marker| + q]);
      }
    }
    assert m == "article" + ['/'] + digits by {
      assert m == m[..|Marker|] + digits;
    }
    SplitAfterSep("article", digits, '/');
    SplitWithoutSep(digits, '/');
  }

  /** Crawling a page and converting its links gives, in order, the digit run
      that follows each occurrence of `article/`. */
  lemma IdsOfPage(text: string)
    ensures var ms := MatchedUrl(text);
            forall k :: 0 <= k < |ms| ==>
              UrlsToIds(ms)[k] == ms[k][|Marker|..] && forall q :: 0 <= q < |UrlsToIds(ms)[k]| ==> IsDigit(UrlsToIds(ms)[k][q])
  {
    var ms := MatchedUrl(text);
    forall k | 0 <= k < |ms|
      ensures UrlsToIds(ms)[k] == ms[k][|Marker|..]
    {
      IdOfUrl(ms[k]);
    }
  }

  lemma IdsExample()
    ensures LastPart("article/123", '/') == "123"
    ensures LastPart("article/", '/') == ""
  {
    var u := "article/123";
    assert IsUrl(u) by {
      assert u[..|Marker|] == Marker;
      forall k | |Marker| <= k < |u| ensures IsDigit(u[k]) { }
    }
    IdOfUrl(u);
    assert u[|Marker|..] == "123";
    assert IsUrl("article/");
    IdOfUrl("article/");
  }
}
