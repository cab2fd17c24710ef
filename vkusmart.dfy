/** vkusmart.vmv.kz (egrocery_scraper/spiders/vkusmart.py): the
    max_categories argument, the catalog-link filter of parse, and the
    field normalisation of parse_category. Prices go through the shared
    to_int_price of module Text. */
module Vkusmart {
  import opened Text

  // ---------------------------------------------------------------------------
  // max_categories

  const DefaultMaxCategories := 40

  /** The max_categories argument as the spider receives it: an int (the
      default, or a keyword argument), a string (a command-line -a option),
      or a value int() refuses. */
  datatype Arg = IntArg(i: int) | TextArg(text: string) | OtherArg

  /** Digits, possibly grouped by single underscores: at least one digit,
      a digit at each end, no two underscores in a row. */
  predicate GroupedDigits(b: string) {
    && b != [] && IsDigit(b[0]) && IsDigit(b[|b| - 1])
    && (forall i :: 0 <= i < |b| ==> IsDigit(b[i]) || b[i] == '_')
    && (forall i :: 0 <= i < |b| - 1 && b[i] == '_' ==> b[i + 1] != '_')
  }

  /** The text without its underscores. */
  function Ungroup(b: string): (r: string)
    requires forall i :: 0 <= i < |b| ==> IsDigit(b[i]) || b[i] == '_'
    ensures AllDigits(r) && |r| <= |b|
    ensures b != [] && IsDigit(b[0]) ==> r != []
  {
    if b == [] then [] else (if b[0] == '_' then [] else [b[0]]) + Ungroup(b[1..])
  }

  /** int(s) for a str in base 10: surrounding whitespace, an optional
      sign, then grouped ASCII digits; None where int() raises. */
  function ParseIntText(s: string): Option<int> {
    ParseSigned(Strip(s))
  }

  /** The stripped text: an optional sign, then grouped digits. */
  function ParseSigned(t: string): Option<int> {
    if t == [] then None
    else
      var body := if t[0] == '-' || t[0] == '+' then t[1..] else t;
      if !GroupedDigits(body) then None
      else
        var v: int := DecimalValue(Ungroup(body));
        Some(if t[0] == '-' then -v else v)
  }

  /** An all-digit text is its own ungrouped form. */
  lemma {:induction false} UngroupDigits(b: string)
    requires AllDigits(b)
    ensures Ungroup(b) == b
  {
    if b != [] {
      UngroupDigits(b[1..]);
    }
  }

  /** A run of ASCII digits is grouped digits with no underscore to drop. */
  lemma PlainDigits(ds: string)
    requires ds != [] && AllDigits(ds)
    ensures GroupedDigits(ds) && Ungroup(ds) == ds
  {
    UngroupDigits(ds);
  }

  /** Grouped digits without a sign read as their value. */
  lemma ParseUnsigned(body: string)
    requires GroupedDigits(body)
    ensures ParseSigned(body) == Some(DecimalValue(Ungroup(body)))
  {
  }

  /** Grouped digits after a minus sign read as the negated value. */
  lemma ParseNegative(t: string, body: string)
    requires t == "-" + body && GroupedDigits(body)
    ensures ParseSigned(t) == Some(0 - DecimalValue(Ungroup(body)))
  {
    assert t[0] == '-' && t[1..] == body;
  }

  /** int() reads back what str() writes. */
  lemma ParseIntRoundTrip(n: int)
    ensures ParseIntText(IntToString(n)) == Some(n)
  {
    var m := if n < 0 then -n else n;
    var ds := NatToString(m);
    DecimalRoundTrip(m);
    PlainDigits(ds);
    var s := IntToString(n);
    if n < 0 {
      assert s == "-" + ds;
      SignedDigitsTrimmed(s, ds);
      StripTrimmed(s);
      ParseNegative(s, ds);
    } else {
      assert s == ds;
      SignedDigitsTrimmed(s, ds);
      StripTrimmed(s);
      ParseUnsigned(ds);
    }
  }

  /** Digits, signed or not, have no whitespace at either end. */
  lemma SignedDigitsTrimmed(t: string, ds: string)
    requires t == ds || t == "-" + ds
    requires ds != [] && AllDigits(ds)
    ensures Trimmed(t)
  {
    assert t[|t| - 1] == ds[|ds| - 1];
  }

  /** A blank text is not a number. */
  lemma ParseIntBlank(s: string)
    requires AllSpace(s)
    ensures ParseIntText(s) == None
  {
  }

  /** Doubled underscores are refused. */
  lemma ParseIntDoubleUnderscore(s: string)
    requires s == "1__0"
    ensures ParseIntText(s) == None
  {
    assert s[1] == '_' && s[2] == '_';
    StripTrimmed(s);
  }

  /** The argument read as an int and raised to at least 1, and 40 when
      int() raises. */
  function ClampMaxCategories(arg: Arg): (r: int)
    ensures r >= 1
    ensures arg.IntArg? ==> r == (if arg.i >= 1 then arg.i else 1)
    ensures arg.TextArg? && ParseIntText(arg.text).Some? ==> r == (if ParseIntText(arg.text).value >= 1 then ParseIntText(arg.text).value else 1)
    ensures arg.OtherArg? || (arg.TextArg? && ParseIntText(arg.text).None?) ==> r == DefaultMaxCategories
  {
    match arg
    case IntArg(i) => if i >= 1 then i else 1
    case TextArg(s) =>
      (match ParseIntText(s)
       case None => DefaultMaxCategories
       case Some(i) => if i >= 1 then i else 1)
    case OtherArg => DefaultMaxCategories
  }

  /** A number given on the command line is honoured when it is positive. */
  lemma ClampTextNumber(n: int)
    ensures ClampMaxCategories(TextArg(IntToString(n))) == (if n >= 1 then n else 1)
  {
    ParseIntRoundTrip(n);
  }

  // ---------------------------------------------------------------------------
  // parse: catalog links

  const CatalogRoot := "https://vkusmart.vmv.kz/catalog"

  /** The hrefs skipped before joining: empty ones and those holding a
      fragment, a query, or a search, compare or basket path. */
  predicate Rejected(href: string) {
    || href == []
    || Contains(href, "#")
    || Contains(href, "?")
    || Contains(href, "/search/")
    || Contains(href, "/compare/")
    || Contains(href, "/basket/")
  }

  /** A joined URL that names a category: below /catalog/, and not the
      catalog itself. */
  predicate CategoryUrl(url: string) {
    !EndsWith(RStripChar(url, '/'), "/catalog") && Contains(url, "/catalog/")
  }

  datatype UrlState = UrlState(urls: seq<string>, seen: set<string>)

  /** One iteration of the href loop; join is urljoin(response.url, _). */
  function UrlStep(st: UrlState, href: string, join: string -> string): UrlState {
    if Rejected(href) then st
    else
      var url := join(href);
      if CategoryUrl(url) && url !in st.seen then UrlState(st.urls + [url], st.seen + {url})
      else st
  }

  function UrlPass(hrefs: seq<string>, join: string -> string): UrlState {
    if hrefs == [] then UrlState([], {})
    else UrlStep(UrlPass(hrefs[..|hrefs| - 1], join), hrefs[|hrefs| - 1], join)
  }

  /** The URLs that, trailing slashes dropped, are not the catalog root. */
  function DropRoot(urls: seq<string>): (r: seq<string>)
    ensures |r| <= |urls|
  {
    if urls == [] then []
    else
      var u := urls[|urls| - 1];
      DropRoot(urls[..|urls| - 1]) + (if !IsRoot(u) then [u] else [])
  }

  /** The filter keeps exactly the URLs that are not the root, in order. */
  lemma {:induction false} DropRootKeeps(urls: seq<string>)
    ensures forall u :: u in DropRoot(urls) <==> u in urls && !IsRoot(u)
    decreases |urls|
  {
    if urls != [] {
      var init := urls[..|urls| - 1];
      var u := urls[|urls| - 1];
      DropRootKeeps(init);
      assert urls == init + [u];
      assert DropRoot(urls) == DropRoot(init) + (if !IsRoot(u) then [u] else []);
    }
  }

  /** The filter works URL by URL and keeps their order: filtering two
      lists put one after the other gives the two filtered lists in the
      same order (DropRootOne says what it does to a single URL). */
  lemma {:induction false} DropRootAppend(a: seq<string>, b: seq<string>)
    ensures DropRoot(a + b) == DropRoot(a) + DropRoot(b)
    decreases |b|
  {
    if b == [] {
      assert a + b == a;
    } else {
      var init := b[..|b| - 1];
      var last := b[|b| - 1];
      assert (a + b)[..|a + b| - 1] == a + init && (a + b)[|a + b| - 1] == last;
      DropRootSnoc(a + b);
      DropRootSnoc(b);
      DropRootAppend(a, init);
    }
  }

  /** A single URL is kept exactly when it is not the root. */
  lemma DropRootOne(u: string)
    ensures DropRoot([u]) == if IsRoot(u) then [] else [u]
  {
    assert [u][..0] == [];
  }

  lemma DropRootSnoc(urls: seq<string>)
    requires urls != []
    ensures var u := urls[|urls| - 1];
            DropRoot(urls) == DropRoot(urls[..|urls| - 1]) + (if !IsRoot(u) then [u] else [])
  {
  }

  /** The catalog root, trailing slashes dropped. */
  predicate IsRoot(u: string) {
    RStripChar(u, '/') == CatalogRoot
  }

  /** First-seen order: the URLs kept from a prefix of the hrefs are a
      prefix of those kept from all of them. */
  lemma {:induction false} UrlPassPrefix(hrefs: seq<string>, join: string -> string, k: nat)
    requires k <= |hrefs|
    ensures UrlPass(hrefs[..k], join).urls <= UrlPass(hrefs, join).urls
    decreases |hrefs|
  {
    if k == |hrefs| {
      assert hrefs[..k] == hrefs;
    } else {
      var init := hrefs[..|hrefs| - 1];
      assert init[..k] == hrefs[..k];
      UrlPassPrefix(init, join, k);
      var a := UrlPass(hrefs[..k], join).urls;
      var b := UrlPass(init, join).urls;
      var c := UrlPass(hrefs, join).urls;
      assert b <= c;
      assert a == b[..|a|] == c[..|b|][..|a|];
    }
  }

  /** The URLs parse follows, in order. */
  function CategoryUrls(hrefs: seq<string>, join: string -> string, limit: nat): seq<string> {
    var urls := DropRoot(UrlPass(hrefs, join).urls);
    if |urls| <= limit then urls else urls[..limit]
  }

  /** The URLs a list holds. */
  function UrlSet(urls: seq<string>): set<string> {
    if urls == [] then {} else UrlSet(urls[..|urls| - 1]) + {urls[|urls| - 1]}
  }

  lemma {:induction false} UrlSetContains(urls: seq<string>, i: nat)
    requires i < |urls|
    ensures urls[i] in UrlSet(urls)
    decreases |urls|
  {
    if i < |urls| - 1 {
      UrlSetContains(urls[..|urls| - 1], i);
    }
  }

  /** The URLs are kept in first-seen order without repeats, and seen is
      the set of them. */
  lemma {:induction false} UrlPassDistinct(hrefs: seq<string>, join: string -> string)
    ensures UrlPass(hrefs, join).seen == UrlSet(UrlPass(hrefs, join).urls)
    ensures Distinct(UrlPass(hrefs, join).urls)
    decreases |hrefs|
  {
    if hrefs != [] {
      var init := hrefs[..|hrefs| - 1];
      UrlPassDistinct(init, join);
      UrlStepKeeps(UrlPass(init, join), hrefs[|hrefs| - 1], join);
    }
  }

  /** One href keeps the URLs distinct and seen equal to the kept ones. */
  lemma UrlStepKeeps(st: UrlState, href: string, join: string -> string)
    requires st.seen == UrlSet(st.urls) && Distinct(st.urls)
    ensures UrlStep(st, href, join).seen == UrlSet(UrlStep(st, href, join).urls)
    ensures Distinct(UrlStep(st, href, join).urls)
  {
    if !Rejected(href) && CategoryUrl(join(href)) && join(href) !in st.seen {
      UrlAdmitKeeps(st, join(href));
    }
  }

  lemma UrlAdmitKeeps(st: UrlState, url: string)
    requires st.seen == UrlSet(st.urls) && Distinct(st.urls) && url !in st.seen
    ensures st.seen + {url} == UrlSet(st.urls + [url]) && Distinct(st.urls + [url])
  {
    var urls := st.urls + [url];
    assert urls[..|urls| - 1] == st.urls;
    forall i | 0 <= i < |st.urls|
      ensures urls[i] != url
    {
      UrlSetContains(st.urls, i);
    }
  }

  predicate Distinct(urls: seq<string>) {
    forall i, j :: 0 <= i < j < |urls| ==> urls[i] != urls[j]
  }

  /** A kept URL names a category and comes from an href that was not
      rejected. */
  predicate FromAcceptedHref(url: string, hrefs: seq<string>, join: string -> string) {
    CategoryUrl(url) && exists h :: h in hrefs && !Rejected(h) && join(h) == url
  }

  lemma {:induction false} UrlPassSound(hrefs: seq<string>, join: string -> string)
    ensures forall i :: 0 <= i < |UrlPass(hrefs, join).urls| ==> FromAcceptedHref(UrlPass(hrefs, join).urls[i], hrefs, join)
    decreases |hrefs|
  {
    if hrefs != [] {
      var init := hrefs[..|hrefs| - 1];
      UrlPassSound(init, join);
      var st := UrlPass(init, join);
      var h := hrefs[|hrefs| - 1];
      var urls := UrlPass(hrefs, join).urls;
      forall i | 0 <= i < |urls|
        ensures FromAcceptedHref(urls[i], hrefs, join)
      {
        if i < |st.urls| {
          assert urls[i] == st.urls[i];
          var g :| g in init && !Rejected(g) && join(g) == urls[i];
          assert g in hrefs;
        } else {
          assert h in hrefs;
        }
      }
    }
  }

  /** No category is lost: every accepted href whose URL names a category
      has its URL among the kept ones. */
  lemma {:induction false} UrlPassComplete(hrefs: seq<string>, join: string -> string, i: nat)
    requires i < |hrefs| && !Rejected(hrefs[i]) && CategoryUrl(join(hrefs[i]))
    ensures join(hrefs[i]) in UrlPass(hrefs, join).seen
    decreases |hrefs|
  {
    var init := hrefs[..|hrefs| - 1];
    assert UrlPass(hrefs, join) == UrlStep(UrlPass(init, join), hrefs[|hrefs| - 1], join);
    if i < |hrefs| - 1 {
      assert init[i] == hrefs[i];
      UrlPassComplete(init, join, i);
    }
  }

  /** The root filter removes nothing: a URL that passed the loop does not
      end with /catalog once trailing slashes go, and the root does. */
  lemma {:induction false} RootFilterRedundant(urls: seq<string>)
    requires forall i :: 0 <= i < |urls| ==> CategoryUrl(urls[i])
    ensures DropRoot(urls) == urls
    decreases |urls|
  {
    if urls != [] {
      var init := urls[..|urls| - 1];
      var u := urls[|urls| - 1];
      RootFilterRedundant(init);
      CategoryUrlNotRoot(u);
      assert urls == init + [u];
    }
  }

  /** The root ends with /catalog, which a category URL does not. */
  lemma CategoryUrlNotRoot(u: string)
    requires CategoryUrl(u)
    ensures !IsRoot(u)
  {
    assert EndsWith(CatalogRoot, "/catalog");
  }

  /** At most limit URLs are followed; they are distinct, each names a
      category, and each comes from an accepted href. */
  lemma CategoryUrlsSound(hrefs: seq<string>, join: string -> string, limit: nat)
    ensures var all := UrlPass(hrefs, join).urls;
            var r := CategoryUrls(hrefs, join, limit);
            r <= all && |r| == (if |all| <= limit then |all| else limit)
    ensures |CategoryUrls(hrefs, join, limit)| <= limit
    ensures Distinct(CategoryUrls(hrefs, join, limit))
    ensures forall i :: 0 <= i < |CategoryUrls(hrefs, join, limit)| ==>
              FromAcceptedHref(CategoryUrls(hrefs, join, limit)[i], hrefs, join)
  {
    var urls := UrlPass(hrefs, join).urls;
    UrlPassDistinct(hrefs, join);
    UrlPassSound(hrefs, join);
    RootFilterRedundant(urls);
    TakeKeeps(urls, limit, hrefs, join);
  }

  /** Keeping a prefix keeps the URLs distinct and accepted. */
  lemma TakeKeeps(urls: seq<string>, limit: nat, hrefs: seq<string>, join: string -> string)
    requires Distinct(urls)
    requires forall i :: 0 <= i < |urls| ==> FromAcceptedHref(urls[i], hrefs, join)
    ensures var r := if |urls| <= limit then urls else urls[..limit];
            && |r| <= limit && Distinct(r)
            && forall i :: 0 <= i < |r| ==> FromAcceptedHref(r[i], hrefs, join)
  {
  }

  // ---------------------------------------------------------------------------
  // parse_category: card fields

  /** What the CSS queries of one product card return; data-id is always
      present, the card selector requires it. */
  datatype Card = Card(
    dataId: string,
    metaName: Option<string>,
    titleSpan: Option<string>,
    metaBrand: Option<string>,
    metaPrice: Option<string>,
    dataValue: Option<string>,
    metaCurrency: Option<string>,
    dataCurrency: Option<string>,
    measure: Option<string>)

  datatype VItem = VItem(
    store: string,
    city: string,
    categoryName: Option<string>,
    categoryUrl: string,
    productId: IdValue,
    productName: Option<string>,
    brand: Option<string>,
    priceKzt: Option<nat>,
    currency: string,
    unit: Option<string>,
    source: string)

  /** `a or b` on optional strings: a unless it is None or empty. */
  function FirstTruthy(a: Option<string>, b: Option<string>): (r: Option<string>)
    ensures a.Some? && a.value != [] ==> r == a
    ensures (a.None? || a.value == []) ==> r == b
  {
    if a.Some? && a.value != [] then a else b
  }

  /** A field stripped of surrounding whitespace, None when absent or
      blank. */
  function StripOrNone(s: Option<string>): (r: Option<string>)
    ensures r.None? <==> s.None? || AllSpace(s.value)
    ensures r.Some? ==> r.value != [] && Trimmed(r.value)
    ensures r.Some? ==> r.value == Strip(s.value)
  {
    var t := Strip(if s.Some? then s.value else "");
    if t == [] then None else Some(t)
  }

  /** Normalising a normalised field changes nothing. */
  lemma StripOrNoneIdempotent(s: Option<string>)
    ensures StripOrNone(StripOrNone(s)) == StripOrNone(s)
  {
    if StripOrNone(s).Some? {
      StripTrimmed(StripOrNone(s).value);
    }
  }

  /** The currency, "KZT" when neither source gives a non-empty one,
      stripped. */
  function Currency(meta: Option<string>, data: Option<string>): (r: string)
    ensures Trimmed(r)
    ensures FirstTruthy(meta, data).None? || FirstTruthy(meta, data).value == [] ==> r == "KZT"
    ensures FirstTruthy(meta, data).Some? && FirstTruthy(meta, data).value != [] ==> r == Strip(FirstTruthy(meta, data).value)
  {
    var c := FirstTruthy(meta, data);
    if c.Some? && c.value != [] then Strip(c.value)
    else
      StripTrimmed("KZT");
      Strip("KZT")
  }

  /** A whitespace-only currency is truthy, so it is not replaced by KZT
      and strips to the empty string. */
  lemma CurrencyBlank(blank: string, data: Option<string>)
    requires blank != [] && AllSpace(blank)
    ensures Currency(Some(blank), data) == ""
  {
  }

  /** The record of one card on the page at pageUrl. */
  function CardItem(card: Card, categoryName: Option<string>, pageUrl: string): (r: VItem)
    ensures r.productName.Some? ==> r.productName.value != [] && Trimmed(r.productName.value)
    ensures r.brand.Some? ==> r.brand.value != [] && Trimmed(r.brand.value)
    ensures r.unit.Some? ==> r.unit.value != [] && Trimmed(r.unit.value)
    ensures r.productId == IdOf(card.dataId) && r.categoryUrl == pageUrl
    ensures r.priceKzt == ToIntPrice(FirstTruthy(card.metaPrice, card.dataValue))
    ensures r.productName == StripOrNone(FirstTruthy(card.metaName, card.titleSpan))
    ensures r.brand == StripOrNone(card.metaBrand) && r.unit == StripOrNone(card.measure)
    ensures r.currency == Currency(card.metaCurrency, card.dataCurrency)
    ensures r.store == "vkusmart" && r.city == "astana" && r.source == "vkusmart.vmv.kz"
    ensures r.categoryName == categoryName
  {
    VItem(
      store := "vkusmart",
      city := "astana",
      categoryName := categoryName,
      categoryUrl := pageUrl,
      productId := IdOf(card.dataId),
      productName := StripOrNone(FirstTruthy(card.metaName, card.titleSpan)),
      brand := StripOrNone(card.metaBrand),
      priceKzt := ToIntPrice(FirstTruthy(card.metaPrice, card.dataValue)),
      currency := Currency(card.metaCurrency, card.dataCurrency),
      unit := StripOrNone(card.measure),
      source := "vkusmart.vmv.kz")
  }

  /** The records of a category page, one per card in order, with the
      category name taken from the h1. */
  function CategoryPage(h1: Option<string>, pageUrl: string, cards: seq<Card>): (r: seq<VItem>)
    ensures |r| == |cards|
  {
    MapCards(PageRecord(h1, pageUrl), cards)
  }

  /** The normalisation applied to every card of the page. */
  function PageRecord(h1: Option<string>, pageUrl: string): Card -> VItem {
    card => CardItem(card, StripOrNone(h1), pageUrl)
  }

  function MapCards(f: Card -> VItem, cards: seq<Card>): (r: seq<VItem>)
    ensures |r| == |cards|
  {
    seq(|cards|, i requires 0 <= i < |cards| => f(cards[i]))
  }

  lemma MapCardsSnoc(f: Card -> VItem, cards: seq<Card>, i: nat)
    requires i < |cards|
    ensures MapCards(f, cards[..i + 1]) == MapCards(f, cards[..i]) + [f(cards[i])]
  {
  }

  /** The i-th record is the i-th card's, under the page's category name. */
  lemma CategoryPageAt(h1: Option<string>, pageUrl: string, cards: seq<Card>, i: nat)
    requires i < |cards|
    ensures CategoryPage(h1, pageUrl, cards)[i] == CardItem(cards[i], StripOrNone(h1), pageUrl)
  {
  }

  /** The next page to follow: the rel="next" link, else the pagination
      arrow, when either is non-empty. */
  function NextPage(relNext: Option<string>, arrow: Option<string>): (r: Option<string>)
    ensures r.Some? <==> (relNext.Some? && relNext.value != []) || (arrow.Some? && arrow.value != [])
    ensures r.Some? && relNext.Some? && relNext.value != [] ==> r == relNext
    ensures (relNext.None? || relNext.value == []) && arrow.Some? && arrow.value != [] ==> r == arrow
  {
    var n := FirstTruthy(relNext, arrow);
    if n.Some? && n.value != [] then n else None
  }

  // ---------------------------------------------------------------------------
  // The spider

  class VkusmartSpider {
    var maxCategories: int

    predicate Valid()
      reads this
    {
      maxCategories >= 1
    }

    /** __init__ with the max_categories argument. */
    constructor(arg: Arg)
      ensures maxCategories == ClampMaxCategories(arg) && Valid()
    {
      maxCategories := ClampMaxCategories(arg);
    }

    /** parse: the href loop, the root filter and the truncation. */
    method Parse(hrefs: seq<string>, join: string -> string) returns (urls: seq<string>)
      requires Valid()
      ensures urls == CategoryUrls(hrefs, join, maxCategories)
    {
      urls := [];
      var seen: set<string> := {};
      for i := 0 to |hrefs|
        invariant UrlState(urls, seen) == UrlPass(hrefs[..i], join)
      {
        assert hrefs[..i + 1][..i] == hrefs[..i];
        var href := hrefs[i];
        if href == [] {
          continue;
        }
        if Contains(href, "#") || Contains(href, "?") || Contains(href, "/search/")
          || Contains(href, "/compare/") || Contains(href, "/basket/") {
          continue;
        }
        var url := join(href);
        if !EndsWith(RStripChar(url, '/'), "/catalog") && Contains(url, "/catalog/") {
          if url !in seen {
            seen := seen + {url};
            urls := urls + [url];
          }
        }
      }
      assert hrefs[..|hrefs|] == hrefs;
      var all := urls;
      var kept: seq<string> := [];
      for i := 0 to |all|
        invariant kept == DropRoot(all[..i])
      {
        assert all[..i + 1][..i] == all[..i];
        if RStripChar(all[i], '/') != CatalogRoot {
          kept := kept + [all[i]];
        }
      }
      assert all[..|all|] == all;
      urls := if |kept| <= maxCategories then kept else kept[..maxCategories];
    }

    /** parse_category: the records and the next page to follow. */
    method ParseCategory(h1: Option<string>, pageUrl: string, cards: seq<Card>,
                         relNext: Option<string>, arrow: Option<string>)
      returns (items: seq<VItem>, next: Option<string>)
      ensures items == CategoryPage(h1, pageUrl, cards)
      ensures next == NextPage(relNext, arrow)
    {
      var categoryName := StripOrNone(h1);
      ghost var f := PageRecord(h1, pageUrl);
      items := [];
      for i := 0 to |cards|
        invariant items == MapCards(f, cards[..i])
      {
        var item := CardItem(cards[i], categoryName, pageUrl);
        assert item == f(cards[i]);
        MapCardsSnoc(f, cards, i);
        items := items + [item];
      }
      assert cards[..|cards|] == cards;
      next := NextPage(relNext, arrow);
    }
  }
}
