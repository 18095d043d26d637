/** A parsed HTML page as the collection code queries it: the elements in
    document order, each with its tag name, its attribute map and its text
    (the concatenated text of its descendants). `FindAll` is the
    `find_all(tag, **attributes)` query of the parser, without the parser. */
module Html {

  datatype Element = Element(tag: string, attrs: map<string, string>, text: string)

  type Page = seq<Element>

  /** The element has attribute `name` with exactly the value `value`. */
  predicate HasAttr(e: Element, name: string, value: string) {
    name in e.attrs && e.attrs[name] == value
  }

  /** The elements of `page` that `matches` accepts, in document order. */
  function FindAll(page: Page, matches: Element -> bool): (found: Page)
    ensures |found| <= |page|
  {
    if page == [] then []
    else
      var last := page[|page| - 1];
      FindAll(page[..|page| - 1], matches) + (if matches(last) then [last] else [])
  }

  /** `find_all` keeps exactly the elements of the page that match. */
  lemma {:induction false} FindAllMembers(page: Page, matches: Element -> bool)
    ensures forall x :: x in FindAll(page, matches) <==> x in page && matches(x)
  {
    if page != [] {
      var init := page[..|page| - 1];
      FindAllMembers(init, matches);
      assert page == init + [page[|page| - 1]];
    }
  }

  /** `find_all` keeps document order: the matches of two consecutive parts
      of a page are the matches of the first part followed by those of the
      second. */
  lemma {:induction false} FindAllAppend(a: Page, b: Page, matches: Element -> bool)
    ensures FindAll(a + b, matches) == FindAll(a, matches) + FindAll(b, matches)
  {
    if b == [] {
      assert a + b == a;
    } else {
      var init := b[..|b| - 1];
      FindAllAppend(a, init, matches);
      assert (a + b)[..|a + b| - 1] == a + init;
      assert (a + b)[|a + b| - 1] == b[|b| - 1];
    }
  }

  /** The `.text` of each element, in order. */
  function Texts(es: seq<Element>): seq<string>
  {
    seq(|es|, k requires 0 <= k < |es| => es[k].text)
  }

  /** `find_all("a", href=True)`: anchors that carry a link. */
  predicate IsLink(e: Element) {
    e.tag == "a" && "href" in e.attrs
  }

  /** `find_all("a", href=True, sasource="article_primary_about")`. */
  predicate IsPrimaryAbout(e: Element) {
    IsLink(e) && HasAttr(e, "sasource", "article_primary_about")
  }

  /** `find_all('h1')`. */
  predicate IsHeading(e: Element) {
    e.tag == "h1"
  }

  /** `find_all('time', itemprop="datePublished")`. */
  predicate IsPublishedTime(e: Element) {
    e.tag == "time" && HasAttr(e, "itemprop", "datePublished")
  }

  /** `find_all('p')`. */
  predicate IsParagraph(e: Element) {
    e.tag == "p"
  }

  /** The paragraph that starts the disclosure: `'id' in attrs and p['id'] == 'a-disclosure'`. */
  predicate IsDisclosure(e: Element) {
    HasAttr(e, "id", "a-disclosure")
  }
}
