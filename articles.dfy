/** Article-page extraction: an article is valid exactly when its logged-in
    page has one primary-about anchor; the ticker is cut out of that anchor's
    text, the secondary symbols and the authors are comma-joined anchor texts,
    the title and the publication date come from the first `h1` and the first
    published-date `time` element, and the body (from the anonymous page) is
    every paragraph before the first disclosure paragraph. */
module Articles {
  import opened Wrappers
  import opened PyStr
  import opened Html

  /** The exceptions the extraction can raise once the article is known to be valid. */
  datatype ParseError =
    | NoTickerToken           // `text.split()[-1]` on an anchor text with no token
    | MissingTitle            // `find_all('h1')[0]` on a page without `h1`
    | MissingPublishedTime    // `find_all('time', itemprop="datePublished")[0]` finds nothing
    | MissingPublishedContent // that element has no `content` attribute

  /** The extracted fields of an article. */
  datatype Fields = Fields(ticker: string, pubDate: string, author: string, title: string,
                           text: string, includes: string)

  /** The values every field holds before extraction (and keeps on an invalid article). */
  const DefaultFields := Fields("", "0001-01-01", "", "", "", "")

  /** Where the extraction ends: the validity flag, the fields as they then
      are, and the exception raised, if any. */
  datatype ParseOutcome = ParseOutcome(valid: bool, fields: Fields, error: Option<ParseError>)

  /** The row written to the `articles` table. */
  datatype ArticleRecord = ArticleRecord(articleId: string, tickerSymbol: string, publishedDate: string,
                                         authorName: string, title: string, text: string,
                                         numLikes: int, includesSymbols: string)

  /** The test `a.attrs['sasource'] == source`, for an anchor that has the attribute. */
  function SourceIs(source: string): Element -> bool {
    e => HasAttr(e, "sasource", source)
  }

  /** The elements whose `sasource` attribute is `source`, in document order. */
  function WithSource(es: seq<Element>, source: string): seq<Element>
  {
    FindAll(es, SourceIs(source))
  }

  /** The ticker in a primary anchor's text, `text.split()[-1][1:-1]`: the last
      whitespace-separated token without its first and last character. None
      where the text has no token and `[-1]` raises. */
  function Ticker(text: string): Option<string>
  {
    var ws := Words(text);
    if |ws| == 0 then None else Some(Inner(ws[|ws| - 1]))
  }

  /** The ticker is missing exactly when the anchor text is all whitespace. */
  lemma TickerMissing(text: string)
    ensures Ticker(text).None? <==> AllSpace(text)
  {
    WordsEmpty(text);
  }

  /** A label such as "Apple (AAPL)": whatever comes first (empty or ending
      in whitespace), then one token whose first and last characters enclose the
      symbol, then only whitespace. The ticker is the symbol. */
  lemma TickerOfLabel(name: string, open: char, symbol: string, close: char, trailing: string)
    requires name == [] || IsSpace(name[|name| - 1])
    requires !IsSpace(open) && !IsSpace(close) && NoSpace(symbol) && AllSpace(trailing)
    ensures Ticker(name + [open] + symbol + [close] + trailing) == Some(symbol)
  {
    var w := [open] + symbol + [close];
    assert NoSpace(w) by {
      forall i | 0 <= i < |w| ensures !IsSpace(w[i]) {
        if 0 < i < |w| - 1 { assert w[i] == symbol[i - 1]; }
      }
    }
    WordsOfWord(w, trailing);
    WordsAppend(name, w + trailing);
    assert name + [open] + symbol + [close] + trailing == name + (w + trailing);
  }

  /** The ticker of a company name followed by the parenthesised symbol. */
  lemma TickerOfCompanyLabel()
    ensures Ticker("Apple (AAPL)") == Some("AAPL")
  {
    TickerOfLabel("Apple ", '(', "AAPL", ')', "");
    assert "Apple (AAPL)" == "Apple " + ['('] + "AAPL" + [')'] + "";
  }

  /** The ticker of a bare parenthesised symbol. */
  lemma TickerOfBareLabel()
    ensures Ticker("(AAPL)") == Some("AAPL")
  {
    TickerOfLabel("", '(', "AAPL", ')', "");
    assert "(AAPL)" == "" + ['('] + "AAPL" + [')'] + "";
  }

  /** Index of the first disclosure paragraph, or the number of paragraphs when
      there is none (the `IndexError` fallback). */
  function DisclosureIndex(ps: seq<Element>): (i: nat)
    ensures i <= |ps|
    ensures i < |ps| ==> IsDisclosure(ps[i])
  {
    if ps == [] || IsDisclosure(ps[0]) then 0 else 1 + DisclosureIndex(ps[1..])
  }

  /** No paragraph before the index is a disclosure. */
  lemma {:induction false} DisclosureIndexIsFirst(ps: seq<Element>)
    ensures forall k :: 0 <= k < DisclosureIndex(ps) ==> !IsDisclosure(ps[k])
  {
    if ps != [] && !IsDisclosure(ps[0]) {
      DisclosureIndexIsFirst(ps[1..]);
      forall k | 0 < k < DisclosureIndex(ps) ensures !IsDisclosure(ps[k]) {
        assert ps[k] == ps[1..][k - 1];
      }
    }
  }

  /** `''.join(map(lambda x: x.text + "\n", ps))`. */
  function JoinLines(ps: seq<Element>): string
  {
    if ps == [] then [] else ps[0].text + "\n" + JoinLines(ps[1..])
  }

  /** The body kept from a list of paragraphs: those before the first disclosure. */
  function BodyOf(ps: seq<Element>): string
  {
    JoinLines(ps[..DisclosureIndex(ps)])
  }

  /** The article body of the anonymous page. */
  function Body(anon: Page): string
  {
    BodyOf(FindAll(anon, IsParagraph))
  }

  /** With a disclosure paragraph `d`, the body is exactly the paragraphs before
      the first one, each followed by a newline. */
  lemma BodyStopsAtDisclosure(before: seq<Element>, d: Element, after: seq<Element>)
    requires forall p :: p in before ==> !IsDisclosure(p)
    requires IsDisclosure(d)
    ensures BodyOf(before + [d] + after) == JoinLines(before)
  {
    var ps := before + [d] + after;
    assert DisclosureIndex(ps) == |before| by {
      forall k | 0 <= k < |before| ensures !IsDisclosure(ps[k]) {
        assert ps[k] == before[k];
      }
      FirstDisclosure(ps, |before|);
    }
    assert ps[..DisclosureIndex(ps)] == before;
  }

  /** The first disclosure paragraph is the one `DisclosureIndex` finds. */
  lemma FirstDisclosure(ps: seq<Element>, i: nat)
    requires i < |ps| && IsDisclosure(ps[i])
    requires forall k :: 0 <= k < i ==> !IsDisclosure(ps[k])
    ensures DisclosureIndex(ps) == i
  {
    var j := DisclosureIndex(ps);
    DisclosureIndexIsFirst(ps);
    assert !(j > i);
    assert !(j < i);
  }

  /** Without a disclosure paragraph, the body is every paragraph. */
  lemma BodyWithoutDisclosure(ps: seq<Element>)
    requires forall p :: p in ps ==> !IsDisclosure(p)
    ensures BodyOf(ps) == JoinLines(ps)
  {
    var i := DisclosureIndex(ps);
    assert i == |ps|;
    assert ps[..i] == ps;
  }

  lemma BodyExample(p1: Element, p2: Element, d: Element, p4: Element)
    requires !IsDisclosure(p1) && !IsDisclosure(p2) && IsDisclosure(d)
    ensures BodyOf([p1, p2, d, p4]) == p1.text + "\n" + p2.text + "\n"
  {
    BodyStopsAtDisclosure([p1, p2], d, [p4]);
    assert [p1, p2] + [d] + [p4] == [p1, p2, d, p4];
    assert [p1, p2][1..] == [p2];
    assert [p2][1..] == [];
    assert JoinLines([p2]) == p2.text + "\n";
  }

  /** What the extraction of one article produces from its anonymous page
      `anon` and its logged-in page `login`. */
  function Parse(anon: Page, login: Page): ParseOutcome
  {
    var primary := FindAll(login, IsPrimaryAbout);
    if |primary| != 1 then ParseOutcome(false, DefaultFields, None)
    else match Ticker(primary[0].text)
      case None => ParseOutcome(true, DefaultFields, Some(NoTickerToken))
      case Some(t) => Extract(anon, login, t)
  }

  /** The ticker `t` with the comma-joined texts of the `article_about` anchors
      (the included symbols) and of the `auth_header_name` anchors (the authors). */
  function Listed(login: Page, t: string): Fields
  {
    var about := FindAll(login, IsLink);
    DefaultFields.(ticker := t,
                   includes := Join(Texts(WithSource(about, "article_about")), ','),
                   author := Join(Texts(WithSource(about, "auth_header_name")), ','))
  }

  /** The extraction of a valid article once its ticker `t` is known. */
  function Extract(anon: Page, login: Page, t: string): (o: ParseOutcome)
    ensures o.valid
  {
    var listed := Listed(login, t);
    var headings := FindAll(login, IsHeading);
    if |headings| == 0 then ParseOutcome(true, listed, Some(MissingTitle))
    else
      var titled := listed.(title := headings[0].text);
      var times := FindAll(login, IsPublishedTime);
      if |times| == 0 then ParseOutcome(true, titled, Some(MissingPublishedTime))
      else if "content" !in times[0].attrs then ParseOutcome(true, titled, Some(MissingPublishedContent))
      else ParseOutcome(true, titled.(pubDate := Prefix(times[0].attrs["content"], 10), text := Body(anon)), None)
  }

  /** Validity is decided by the number of primary-about anchors alone, and an
      invalid article keeps every default and raises nothing. */
  lemma ValidityGate(anon: Page, login: Page)
    ensures Parse(anon, login).valid <==> |FindAll(login, IsPrimaryAbout)| == 1
    ensures !Parse(anon, login).valid ==> Parse(anon, login).fields == DefaultFields
                                          && Parse(anon, login).error == None
  {
  }

  /** A complete extraction: the ticker comes from the primary anchor, the
      includes and the author are the comma-joined texts of the
      `article_about` and `auth_header_name` anchors, the title is the text of
      the first `h1`, the date is the first ten characters of the first
      published time's `content` attribute, and the body is the paragraphs
      before the disclosure. */
  lemma CompleteExtraction(anon: Page, login: Page)
    requires Parse(anon, login).valid && Parse(anon, login).error == None
    ensures var f := Parse(anon, login).fields;
            var about := FindAll(login, IsLink);
            var headings := FindAll(login, IsHeading);
            var times := FindAll(login, IsPublishedTime);
            && Ticker(FindAll(login, IsPrimaryAbout)[0].text) == Some(f.ticker)
            && f.includes == Join(Texts(WithSource(about, "article_about")), ',')
            && f.author == Join(Texts(WithSource(about, "auth_header_name")), ',')
            && |headings| > 0 && f.title == headings[0].text
            && |times| > 0 && "content" in times[0].attrs
            && f.pubDate == Prefix(times[0].attrs["content"], 10)
            && f.text == Body(anon)
  {
  }

  /** `Article.json()`: `{}` (None) for an invalid article, else the row with no likes. */
  function RecordOf(id: string, valid: bool, f: Fields): (r: Option<ArticleRecord>)
    ensures r.Some? <==> valid
    ensures r.Some? ==> r.value.articleId == id && r.value.numLikes == 0
  {
    if valid then Some(ArticleRecord(id, f.ticker, f.pubDate, f.author, f.title, f.text, 0, f.includes))
    else None
  }

  /** An article as the collection code holds it while it is being extracted. */
  class Article {
    const id: string
    var ticker: string
    var pubDate: string
    var author: string
    var title: string
    var text: string
    var includes: string
    var valid: bool

    /** The extracted fields as one value. */
    function Extracted(): Fields
      reads this
    {
      Fields(ticker, pubDate, author, title, text, includes)
    }

    /** Every field at its default, the article presumed valid. */
    constructor (id: string)
      ensures this.id == id && valid && Extracted() == DefaultFields
    {
      this.id := id;
      ticker, pubDate, author, title, text, includes := "", "0001-01-01", "", "", "", "";
      valid := true;
    }

    /** Extracts the fields from the two fetched pages, in the order the
        source assigns them; an exception leaves the fields set so far. */
    method ParseArticle(anon: Page, login: Page) returns (err: Option<ParseError>)
      requires valid && Extracted() == DefaultFields
      modifies this
      ensures valid == Parse(anon, login).valid
      ensures Extracted() == Parse(anon, login).fields
      ensures err == Parse(anon, login).error
    {
      var primary := FindAll(login, IsPrimaryAbout);
      if |primary| != 1 {
        valid := false;
        return None;
      }
      var words := Words(primary[0].text);
      if |words| == 0 {
        return Some(NoTickerToken);
      }
      ticker := Inner(words[|words| - 1]);
      CollectAbout(FindAll(login, IsLink));
      err := ParseTitleDateBody(anon, login);
    }

    /** The loop over the linked anchors that builds the included symbols and
        the authors with `+=`, then cuts the trailing comma off each. */
    method CollectAbout(about: seq<Element>)
      requires includes == "" && author == ""
      modifies this`includes, this`author
      ensures includes == Join(Texts(WithSource(about, "article_about")), ',')
      ensures author == Join(Texts(WithSource(about, "auth_header_name")), ',')
    {
      var i := 0;
      while i < |about|
        invariant 0 <= i <= |about|
        invariant includes == Accumulate(Texts(WithSource(about[..i], "article_about")), ',')
        invariant author == Accumulate(Texts(WithSource(about[..i], "auth_header_name")), ',')
      {
        var a := about[i];
        AccumulateStep(about, i, "article_about");
        AccumulateStep(about, i, "auth_header_name");
        if "sasource" in a.attrs {
          if a.attrs["sasource"] == "article_about" {
            includes := includes + a.text + ",";
          } else if a.attrs["sasource"] == "auth_header_name" {
            author := author + a.text + ",";
          }
        }
        i := i + 1;
      }
      assert about[..i] == about;
      DropLastAccumulate(Texts(WithSource(about, "article_about")), ',');
      DropLastAccumulate(Texts(WithSource(about, "auth_header_name")), ',');
      includes := DropLast(includes);
      author := DropLast(author);
    }

    /** The title, the publication date and the body, once the ticker and the
        anchor lists are in place. */
    method ParseTitleDateBody(anon: Page, login: Page) returns (err: Option<ParseError>)
      requires title == "" && pubDate == DefaultFields.pubDate && text == ""
      modifies this`title, this`pubDate, this`text
      requires Extracted() == Listed(login, ticker)
      ensures Extracted() == Extract(anon, login, ticker).fields
      ensures err == Extract(anon, login, ticker).error
    {
      var headings := FindAll(login, IsHeading);
      if |headings| == 0 {
        return Some(MissingTitle);
      }
      title := headings[0].text;
      var times := FindAll(login, IsPublishedTime);
      if |times| == 0 {
        return Some(MissingPublishedTime);
      }
      if "content" !in times[0].attrs {
        return Some(MissingPublishedContent);
      }
      pubDate := Prefix(times[0].attrs["content"], 10);

      var paragraphs := FindAll(anon, IsParagraph);
      var disclosure := DisclosureIndex(paragraphs);
      text := JoinLines(paragraphs[..disclosure]);
      return None;
    }

    /** `Article.json()`. */
    function Json(): (r: Option<ArticleRecord>)
      reads this
      ensures r.Some? <==> valid
      ensures r.Some? ==> r.value.articleId == id && r.value.numLikes == 0
                          && r.value.tickerSymbol == ticker && r.value.includesSymbols == includes
    {
      RecordOf(id, valid, Extracted())
    }
  }

  /** One more anchor adds its text and a comma when its `sasource` matches. */
  lemma AccumulateStep(about: seq<Element>, i: nat, source: string)
    requires i < |about|
    ensures HasAttr(about[i], "sasource", source) ==>
              Accumulate(Texts(WithSource(about[..i + 1], source)), ',')
              == Accumulate(Texts(WithSource(about[..i], source)), ',') + about[i].text + ","
    ensures !HasAttr(about[i], "sasource", source) ==>
              Accumulate(Texts(WithSource(about[..i + 1], source)), ',')
              == Accumulate(Texts(WithSource(about[..i], source)), ',')
  {
    var before := WithSource(about[..i], source);
    assert about[..i + 1][..i] == about[..i];
    if HasAttr(about[i], "sasource", source) {
      var ts := Texts(before);
      assert Texts(before + [about[i]]) == ts + [about[i].text];
      assert (ts + [about[i].text])[..|ts|] == ts;
    } else {
      assert WithSource(about[..i + 1], source) == before;
    }
  }
}
