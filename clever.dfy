/** clevermarket.kz (egrocery_scraper/spiders/clever_spider.py): text
    cleanup, the category index, the product cards of a category page, and
    the unit and category-name heuristics. Prices go through the shared
    to_int_price of module Text. */
module Clever {
  import opened Text

  // ---------------------------------------------------------------------------
  // clean_text

  /** clean_text: whitespace runs collapsed, ends stripped, None when
      nothing is left. */
  function CleanText(s: Option<string>): (r: Option<string>)
    ensures r.None? <==> s.None? || AllSpace(s.value)
    ensures r.Some? ==> r.value != [] && Trimmed(r.value) && Squashed(r.value)
    ensures r.Some? ==> r.value == Collapse(s.value) && NonSpace(r.value) == NonSpace(s.value)
  {
    if s.None? || s.value == [] then None
    else
      var c := Collapse(s.value);
      if c == [] then None else Some(c)
  }

  /** Cleaning a cleaned text changes nothing. */
  lemma CleanTextIdempotent(s: Option<string>)
    ensures CleanText(CleanText(s)) == CleanText(s)
  {
    if CleanText(s).Some? {
      CollapseIdempotent(s.value);
    }
  }

  // ---------------------------------------------------------------------------
  // Shared scanning helpers

  /** The longest run of characters satisfying the class at index i. */
  function NonSlashRun(s: string, i: nat): (r: string)
    requires i <= |s|
    ensures i + |r| <= |s| && r == s[i..i + |r|] && '/' !in r
    ensures i + |r| == |s| || s[i + |r|] == '/'
    decreases |s| - i
  {
    if i < |s| && s[i] != '/' then [s[i]] + NonSlashRun(s, i + 1) else []
  }

  // ---------------------------------------------------------------------------
  // parse_category_index

  const CatalogPrefix := "/supermarket/catalog/"
  const MaxCategories := 40

  /** `/supermarket/catalog/[^/]+/(\d+)` matches at p: a slug of at least one
      character, a slash, then at least one digit. */
  predicate CatalogMatchAt(url: string, p: nat) {
    && OccursAt(url, CatalogPrefix, p)
    && var slug := NonSlashRun(url, p + 21);
       && slug != [] && p + 21 + |slug| < |url|
       && DigitRun(url, p + 22 + |slug|) != []
  }

  function FirstCatalogMatch(url: string, p: nat): (r: Option<nat>)
    ensures r.Some? ==> p <= r.value && CatalogMatchAt(url, r.value)
    ensures forall k :: p <= k && (r.None? || k < r.value) ==> !CatalogMatchAt(url, k)
    decreases |url| - p
  {
    if p + 21 > |url| then None
    else if CatalogMatchAt(url, p) then Some(p)
    else FirstCatalogMatch(url, p + 1)
  }

  /** The category id group of the leftmost match, as text. */
  function CatalogId(url: string): (r: Option<string>)
    ensures r.None? <==> forall k :: !CatalogMatchAt(url, k)
    ensures r.Some? ==> r.value != [] && AllDigits(r.value)
    ensures FirstCatalogMatch(url, 0).Some? ==> r == Some(CatalogGroup(url, FirstCatalogMatch(url, 0).value))
  {
    match FirstCatalogMatch(url, 0)
    case None => None
    case Some(p) => Some(CatalogGroup(url, p))
  }

  /** The digit group of a match at p: the digits after the slug's slash. */
  function CatalogGroup(url: string, p: nat): (r: string)
    requires CatalogMatchAt(url, p)
    ensures r != [] && AllDigits(r)
  {
    DigitRun(url, p + 22 + |NonSlashRun(url, p + 21)|)
  }

  /** A catalog path reads back the id it ends with. */
  lemma CatalogIdRoundTrip(slug: string, n: nat)
    requires slug != [] && '/' !in slug
    ensures CatalogId(CatalogPrefix + slug + "/" + NatToString(n)) == Some(NatToString(n))
  {
    var d := NatToString(n);
    var url := CatalogPrefix + slug + "/" + d;
    CatalogMatchAtStart(url, slug, d);
    CatalogIdOfFirstMatch(url, slug, d);
  }

  /** A URL that matches at its start gives the digits found there. */
  lemma CatalogIdOfFirstMatch(url: string, slug: string, d: string)
    requires CatalogMatchAt(url, 0) && NonSlashRun(url, 21) == slug && DigitRun(url, 22 + |slug|) == d
    ensures CatalogId(url) == Some(d)
  {
    assert FirstCatalogMatch(url, 0) == Some(0);
  }

  lemma CatalogMatchAtStart(url: string, slug: string, d: string)
    requires slug != [] && '/' !in slug && d != [] && AllDigits(d)
    requires url == CatalogPrefix + slug + "/" + d
    ensures CatalogMatchAt(url, 0) && NonSlashRun(url, 21) == slug && DigitRun(url, 22 + |slug|) == d
  {
    CatalogShape(url, CatalogPrefix, slug, d);
    CatalogRuns(url, slug, d);
    CatalogMatchOfRuns(url, slug, d);
  }

  /** The slug and the digits after the prefix are the runs read there. */
  lemma CatalogRuns(url: string, slug: string, d: string)
    requires '/' !in slug && AllDigits(d) && |url| == 22 + |slug| + |d|
    requires url[21..21 + |slug|] == slug && url[21 + |slug|] == '/' && url[22 + |slug|..22 + |slug| + |d|] == d
    ensures NonSlashRun(url, 21) == slug && DigitRun(url, 22 + |slug|) == d
  {
    NonSlashRunOf(url, 21, slug);
    var i := 22 + |slug|;
    assert i + |d| == |url| && url[i..i + |d|] == d;
    DigitRunOfNumber(url, i, d);
  }

  lemma CatalogMatchOfRuns(url: string, slug: string, d: string)
    requires OccursAt(url, CatalogPrefix, 0) && slug != [] && d != [] && 21 + |slug| < |url|
    requires NonSlashRun(url, 21) == slug && DigitRun(url, 22 + |slug|) == d
    ensures CatalogMatchAt(url, 0)
  {
  }

  /** Where the parts of prefix + slug + "/" + digits sit. */
  lemma CatalogShape(url: string, prefix: string, slug: string, d: string)
    requires url == prefix + slug + "/" + d
    ensures OccursAt(url, prefix, 0)
    ensures url[|prefix|..|prefix| + |slug|] == slug && url[|prefix| + |slug|] == '/'
    ensures url[|prefix| + |slug| + 1..|prefix| + |slug| + 1 + |d|] == d
    ensures |url| == |prefix| + |slug| + 1 + |d|
  {
    assert url[..|prefix|] == prefix;
    assert url[|prefix|..|prefix| + |slug|] == slug;
    assert url[|prefix| + |slug| + 1..] == d;
  }

  lemma {:induction false} NonSlashRunOf(s: string, i: nat, run: string)
    requires i + |run| < |s| && s[i..i + |run|] == run && '/' !in run && s[i + |run|] == '/'
    ensures NonSlashRun(s, i) == run
    decreases |run|
  {
    if run != [] {
      assert s[i] == run[0];
      assert s[i + 1..i + 1 + |run[1..]|] == run[1..];
      NonSlashRunOf(s, i + 1, run[1..]);
    }
  }

  /** The non-empty links, each cut at its first '#', in order. */
  function CleanLinks(links: seq<string>): (r: seq<string>)
    ensures |r| <= |links|
    ensures forall i :: 0 <= i < |r| ==> '#' !in r[i]
    ensures forall l :: l in links && l != [] ==> BeforeFirst(l, '#') in r
    ensures forall x :: x in r ==> exists l :: l in links && l != [] && x == BeforeFirst(l, '#')
  {
    if links == [] then []
    else
      var init := links[..|links| - 1];
      var last := links[|links| - 1];
      assert forall l :: l in links <==> l in init || l == last;
      CleanLinks(init) + (if last != [] then [BeforeFirst(last, '#')] else [])
  }

  /** Cleaning works link by link: the cleaned links of two lists put one
      after the other are the two cleaned lists, in the same order. */
  lemma {:induction false} CleanLinksAppend(a: seq<string>, b: seq<string>)
    ensures CleanLinks(a + b) == CleanLinks(a) + CleanLinks(b)
    decreases |b|
  {
    if b == [] {
      assert a + b == a;
    } else {
      var init := b[..|b| - 1];
      var last := b[|b| - 1];
      assert (a + b)[..|a + b| - 1] == a + init && (a + b)[|a + b| - 1] == last;
      CleanLinksSnoc(a + b);
      CleanLinksSnoc(b);
      CleanLinksAppend(a, init);
    }
  }

  lemma CleanLinksSnoc(links: seq<string>)
    requires links != []
    ensures var last := links[|links| - 1];
            CleanLinks(links) == CleanLinks(links[..|links| - 1]) + (if last != [] then [BeforeFirst(last, '#')] else [])
  {
  }

  /** One category to request: its absolute URL and its id as text. */
  datatype CategoryLink = CategoryLink(url: string, id: string)

  datatype IndexState = IndexState(categories: seq<CategoryLink>, seen: set<string>)

  function IndexStep(st: IndexState, href: string, urljoin: string -> string): IndexState {
    var full := urljoin(href);
    match CatalogId(full)
    case None => st
    case Some(cid) =>
      if cid in st.seen then st
      else IndexState(st.categories + [CategoryLink(full, cid)], st.seen + {cid})
  }

  /** The loop over the cleaned links, read left to right. */
  function IndexPass(hrefs: seq<string>, urljoin: string -> string): IndexState {
    if hrefs == [] then IndexState([], {})
    else IndexStep(IndexPass(hrefs[..|hrefs| - 1], urljoin), hrefs[|hrefs| - 1], urljoin)
  }

  function Min(a: int, b: int): int {
    if a <= b then a else b
  }

  /** The categories parse_category_index requests: the first forty of the
      deduplicated list (response.urljoin is the function urljoin). */
  function CategoryRequests(links: seq<string>, urljoin: string -> string): seq<CategoryLink> {
    var cats := IndexPass(CleanLinks(links), urljoin).categories;
    cats[..Min(|cats|, MaxCategories)]
  }

  /** The loops of parse_category_index. */
  method ParseCategoryIndex(links: seq<string>, urljoin: string -> string) returns (requests: seq<CategoryLink>)
    ensures requests == CategoryRequests(links, urljoin)
  {
    var hrefs := CleanLinks(links);
    var seen: set<string> := {};
    var categories: seq<CategoryLink> := [];
    for i := 0 to |hrefs|
      invariant IndexState(categories, seen) == IndexPass(hrefs[..i], urljoin)
    {
      assert hrefs[..i + 1][..i] == hrefs[..i];
      var full := urljoin(hrefs[i]);
      var m := CatalogId(full);
      if m.None? {
        continue;
      }
      var cid := m.value;
      if cid in seen {
        continue;
      }
      seen := seen + {cid};
      categories := categories + [CategoryLink(full, cid)];
    }
    assert hrefs[..|hrefs|] == hrefs;
    if |categories| == 0 {
      return [];
    }
    requests := categories[..Min(|categories|, MaxCategories)];
  }

  /** The ids a list of categories carries. */
  function LinkIds(cats: seq<CategoryLink>): set<string> {
    if cats == [] then {} else LinkIds(cats[..|cats| - 1]) + {cats[|cats| - 1].id}
  }

  /** The ids the links yield. */
  function HrefIds(hrefs: seq<string>, urljoin: string -> string): set<string> {
    if hrefs == [] then {}
    else
      var m := CatalogId(urljoin(hrefs[|hrefs| - 1]));
      HrefIds(hrefs[..|hrefs| - 1], urljoin) + (if m.Some? then {m.value} else {})
  }

  lemma {:induction false} LinkIdsContain(cats: seq<CategoryLink>, i: nat)
    requires i < |cats|
    ensures cats[i].id in LinkIds(cats)
    decreases |cats|
  {
    if i < |cats| - 1 {
      LinkIdsContain(cats[..|cats| - 1], i);
    }
  }

  /** The index pass lists one category per distinct id, in first-seen
      order. */
  lemma {:induction false} IndexPassDedups(hrefs: seq<string>, urljoin: string -> string)
    ensures var st := IndexPass(hrefs, urljoin);
            && st.seen == LinkIds(st.categories)
            && (forall i, j :: 0 <= i < j < |st.categories| ==> st.categories[i].id != st.categories[j].id)
    decreases |hrefs|
  {
    if hrefs != [] {
      var init := hrefs[..|hrefs| - 1];
      IndexPassDedups(init, urljoin);
      IndexStepKeeps(IndexPass(init, urljoin), hrefs[|hrefs| - 1], urljoin);
    }
  }

  /** One link keeps the ids distinct and seen equal to the listed ids. */
  lemma IndexStepKeeps(st: IndexState, href: string, urljoin: string -> string)
    requires st.seen == LinkIds(st.categories)
    requires forall i, j :: 0 <= i < j < |st.categories| ==> st.categories[i].id != st.categories[j].id
    ensures var e := IndexStep(st, href, urljoin);
            && e.seen == LinkIds(e.categories)
            && (forall i, j :: 0 <= i < j < |e.categories| ==> e.categories[i].id != e.categories[j].id)
  {
    var m := CatalogId(urljoin(href));
    if m.Some? && m.value !in st.seen {
      IndexAdmitKeeps(st, urljoin(href), m.value);
    }
  }

  lemma IndexAdmitKeeps(st: IndexState, full: string, cid: string)
    requires st.seen == LinkIds(st.categories) && cid !in st.seen
    requires forall i, j :: 0 <= i < j < |st.categories| ==> st.categories[i].id != st.categories[j].id
    ensures var cats := st.categories + [CategoryLink(full, cid)];
            && st.seen + {cid} == LinkIds(cats)
            && (forall i, j :: 0 <= i < j < |cats| ==> cats[i].id != cats[j].id)
  {
    var cats := st.categories + [CategoryLink(full, cid)];
    assert cats[..|cats| - 1] == st.categories;
    forall i | 0 <= i < |st.categories|
      ensures cats[i].id != cid
    {
      LinkIdsContain(st.categories, i);
    }
  }

  /** Every listed URL carries the id it is listed with. */
  lemma {:induction false} IndexPassUrls(hrefs: seq<string>, urljoin: string -> string)
    ensures forall i :: 0 <= i < |IndexPass(hrefs, urljoin).categories| ==> Carries(IndexPass(hrefs, urljoin).categories[i])
    decreases |hrefs|
  {
    if hrefs != [] {
      var init := hrefs[..|hrefs| - 1];
      IndexPassUrls(init, urljoin);
      var st := IndexPass(init, urljoin);
      var full := urljoin(hrefs[|hrefs| - 1]);
      var m := CatalogId(full);
      if m.Some? && m.value !in st.seen {
        var cats := st.categories + [CategoryLink(full, m.value)];
        assert IndexPass(hrefs, urljoin).categories == cats;
        forall i | 0 <= i < |cats|
          ensures Carries(cats[i])
        {
          if i < |st.categories| {
            assert cats[i] == st.categories[i];
          }
        }
      }
    }
  }

  /** First-seen order: the categories listed from a prefix of the links
      are a prefix of those listed from all of them. */
  lemma {:induction false} IndexPassPrefix(hrefs: seq<string>, urljoin: string -> string, k: nat)
    requires k <= |hrefs|
    ensures IndexPass(hrefs[..k], urljoin).categories <= IndexPass(hrefs, urljoin).categories
    decreases |hrefs|
  {
    if k == |hrefs| {
      assert hrefs[..k] == hrefs;
    } else {
      var init := hrefs[..|hrefs| - 1];
      assert init[..k] == hrefs[..k];
      IndexPassPrefix(init, urljoin, k);
      var a := IndexPass(hrefs[..k], urljoin).categories;
      var b := IndexPass(init, urljoin).categories;
      var c := IndexPass(hrefs, urljoin).categories;
      assert b <= c;
      assert a == b[..|a|] == c[..|b|][..|a|];
    }
  }

  /** The URL's catalog id is the id the category is listed with. */
  predicate Carries(c: CategoryLink) {
    CatalogId(c.url) == Some(c.id)
  }

  /** No id is lost: the ids listed are exactly those the links yield. */
  lemma {:induction false} IndexPassFinds(hrefs: seq<string>, urljoin: string -> string)
    ensures IndexPass(hrefs, urljoin).seen == HrefIds(hrefs, urljoin)
    decreases |hrefs|
  {
    if hrefs != [] {
      IndexPassFinds(hrefs[..|hrefs| - 1], urljoin);
    }
  }

  /** At most forty categories are requested, with distinct ids, each URL
      carrying its own id. */
  lemma CategoryRequestsBounded(links: seq<string>, urljoin: string -> string)
    ensures var rs := CategoryRequests(links, urljoin);
            var cats := IndexPass(CleanLinks(links), urljoin).categories;
            && |rs| == Min(|cats|, MaxCategories) && rs <= cats
            && |rs| <= MaxCategories
            && (forall i, j :: 0 <= i < j < |rs| ==> rs[i].id != rs[j].id)
            && (forall i :: 0 <= i < |rs| ==> CatalogId(rs[i].url) == Some(rs[i].id))
  {
    IndexPassDedups(CleanLinks(links), urljoin);
    IndexPassUrls(CleanLinks(links), urljoin);
  }

  // ---------------------------------------------------------------------------
  // _extract_unit_from_price

  /** str.lower() on the characters the unit patterns can see: ASCII and
      the basic Cyrillic capitals (А..Я and the Ѐ..Џ block). */
  function Lower(c: char): (r: char)
    ensures 'A' <= c <= 'Z' ==> r == (c as int + 32) as char
    ensures 'А' <= c <= 'Я' ==> r == (c as int + 32) as char
  {
    if 'A' <= c <= 'Z' then (c as int + 32) as char
    else if 'А' <= c <= 'Я' then (c as int + 32) as char
    else if 'Ѐ' <= c <= 'Џ' then (c as int + 80) as char
    else c
  }

  function LowerText(s: string): (r: string)
    ensures |r| == |s| && forall i :: 0 <= i < |s| ==> r[i] == Lower(s[i])
  {
    if s == [] then [] else [Lower(s[0])] + LowerText(s[1..])
  }

  /** The class [а-яa-z.] */
  predicate UnitChar(c: char) {
    ('а' <= c <= 'я') || ('a' <= c <= 'z') || c == '.'
  }

  function UnitRun(s: string, i: nat): (r: string)
    requires i <= |s|
    ensures i + |r| <= |s| && r == s[i..i + |r|]
    ensures forall k :: 0 <= k < |r| ==> UnitChar(r[k])
    ensures i + |r| == |s| || !UnitChar(s[i + |r|])
    decreases |s| - i
  {
    if i < |s| && UnitChar(s[i]) then [s[i]] + UnitRun(s, i + 1) else []
  }

  /** `/\s*([а-яa-z.]+)` matches at p; its group starts after the spaces. */
  predicate SlashUnitAt(t: string, p: nat) {
    p < |t| && t[p] == '/' && UnitRun(t, SpaceRunEnd(t, p + 1)) != []
  }

  function SlashUnitGroup(t: string, p: nat): string
    requires p < |t|
  {
    UnitRun(t, SpaceRunEnd(t, p + 1))
  }

  function FirstSlashUnit(t: string, p: nat): (r: Option<nat>)
    ensures r.Some? ==> p <= r.value && SlashUnitAt(t, r.value)
    ensures forall k :: p <= k && (r.None? || k < r.value) ==> !SlashUnitAt(t, k)
    decreases |t| - p
  {
    if p >= |t| then None
    else if SlashUnitAt(t, p) then Some(p)
    else FirstSlashUnit(t, p + 1)
  }

  /** The unit words, in the order the alternation tries them. */
  const UnitWords: seq<string> := ["кг", "г", "л", "мл", "шт", "уп", "пач", "пак"]

  /** A word character for \b: ASCII letters and digits, the underscore,
      and the Cyrillic block. */
  predicate IsWordChar(c: char) {
    ('a' <= c <= 'z') || ('A' <= c <= 'Z') || IsDigit(c) || c == '_' || ('Ѐ' <= c <= 'ӿ')
  }

  /** `\bw\b` matches at p. */
  predicate WordAt(t: string, p: nat, w: string) {
    && OccursAt(t, w, p)
    && (p == 0 || !IsWordChar(t[p - 1]))
    && (p + |w| == |t| || !IsWordChar(t[p + |w|]))
  }

  /** The first of the words that matches at p. */
  function WordFrom(t: string, p: nat, words: seq<string>): (r: Option<string>)
    ensures r.Some? ==> r.value in words && WordAt(t, p, r.value)
    ensures r.None? ==> forall i :: 0 <= i < |words| ==> !WordAt(t, p, words[i])
  {
    if words == [] then None
    else if WordAt(t, p, words[0]) then Some(words[0])
    else
      var r := WordFrom(t, p, words[1..]);
      assert forall i :: 1 <= i < |words| ==> words[i] == words[1..][i - 1];
      r
  }

  /** The alternatives are tried in order: the first word that matches at
      p is the one taken. */
  lemma {:induction false} WordFromAt(t: string, p: nat, words: seq<string>, i: nat)
    requires i < |words| && WordAt(t, p, words[i])
    requires forall j :: 0 <= j < i ==> !WordAt(t, p, words[j])
    ensures WordFrom(t, p, words) == Some(words[i])
  {
    if i > 0 {
      assert words[1..][i - 1] == words[i];
      WordFromAt(t, p, words[1..], i - 1);
    }
  }

  /** Text made only of [а-яa-z.] characters, at least one. */
  predicate UnitText(u: string) {
    u != [] && forall k :: 0 <= k < |u| ==> UnitChar(u[k])
  }

  /** Every unit word is unit text. */
  lemma UnitWordsAreUnitText(w: string)
    requires w in UnitWords
    ensures UnitText(w)
  {
  }

  /** re.search of the alternation of words, each between \b: the word
      WordFrom picks at the leftmost position at or after p where one of
      them matches. */
  function FirstWord(t: string, p: nat, words: seq<string>): (r: Option<string>)
    ensures r.Some? ==> r.value in words && exists k :: p <= k && WordAt(t, k, r.value)
    ensures r.None? ==> forall k, i :: p <= k && 0 <= i < |words| ==> !WordAt(t, k, words[i])
    decreases |t| + 1 - p
  {
    if p > |t| then None
    else
      match WordFrom(t, p, words)
      case Some(w) => Some(w)
      case None => FirstWord(t, p + 1, words)
  }

  /** The search is leftmost: when k is the first position from p on
      where one of the words matches, the word found is the one matching at k. */
  lemma {:induction false} FirstWordAt(t: string, p: nat, k: nat, words: seq<string>)
    requires p <= k <= |t| && WordFrom(t, k, words).Some?
    requires forall j :: p <= j < k ==> WordFrom(t, j, words).None?
    ensures FirstWord(t, p, words) == WordFrom(t, k, words)
    decreases k - p, 1
  {
    if p < k {
      FirstWordAtStep(t, p, k, words);
    } else {
      FirstWordStep(t, p, words);
    }
  }

  /** The recursive step of FirstWordAt: no word matches at p < k. */
  lemma {:induction false} FirstWordAtStep(t: string, p: nat, k: nat, words: seq<string>)
    requires p < k <= |t| && WordFrom(t, k, words).Some?
    requires forall j :: p <= j < k ==> WordFrom(t, j, words).None?
    ensures FirstWord(t, p, words) == WordFrom(t, k, words)
    decreases k - p, 0
  {
    FirstWordSkip(t, p, words);
    FirstWordAt(t, p + 1, k, words);
  }

  lemma FirstWordSkip(t: string, p: nat, words: seq<string>)
    requires p < |t| && WordFrom(t, p, words).None?
    ensures FirstWord(t, p, words) == FirstWord(t, p + 1, words)
  {
  }

  /** The group the two searches give on the lowered text, before the
      final strip. */
  function UnitIn(t: string): (r: Option<string>)
    ensures r.Some? ==> UnitText(r.value)
  {
    match FirstSlashUnit(t, 0)
    case Some(p) => Some(SlashUnitGroup(t, p))
    case None =>
      var w := FirstWord(t, 0, UnitWords);
      assert w.Some? ==> UnitText(w.value) by {
        if w.Some? {
          UnitWordsAreUnitText(w.value);
        }
      }
      w
  }

  /** _extract_unit_from_price: the letters after the first slash that has
      some, else the first standalone unit word, else None. */
  function ExtractUnitFromPrice(priceText: Option<string>): (r: Option<string>)
    ensures priceText.None? || priceText.value == [] ==> r.None?
    ensures r.Some? ==> UnitText(r.value)
  {
    if priceText.None? || priceText.value == [] then None
    else
      match UnitIn(LowerText(priceText.value))
      case None => None
      case Some(u) => UnitTextTrimmed(u); Some(Strip(u))
  }

  /** Unit text has no whitespace, so the final strip changes nothing. */
  lemma UnitTextTrimmed(u: string)
    requires UnitText(u)
    ensures Trimmed(u) && Strip(u) == u
  {
    StripTrimmed(u);
  }

  /** The final strip changes nothing: the result is the group the
      searches find on the lowered text. */
  lemma ExtractUnitIsGroup(priceText: string)
    requires priceText != []
    ensures ExtractUnitFromPrice(Some(priceText)) == UnitIn(LowerText(priceText))
  {
    var u := UnitIn(LowerText(priceText));
    if u.Some? {
      UnitTextTrimmed(u.value);
    }
  }

  /** Both branches of the search, for every non-empty price text: the
      letters after the first slash that is followed by some, and only when
      no slash is, the first standalone unit word. */
  lemma ExtractUnitBranches(priceText: string)
    requires priceText != []
    ensures var t := LowerText(priceText);
            && (FirstSlashUnit(t, 0).Some? ==>
                  ExtractUnitFromPrice(Some(priceText)) == Some(SlashUnitGroup(t, FirstSlashUnit(t, 0).value)))
            && (FirstSlashUnit(t, 0).None? ==>
                  ExtractUnitFromPrice(Some(priceText)) == FirstWord(t, 0, UnitWords))
  {
    ExtractUnitIsGroup(priceText);
  }

  /** A price per unit gives the unit after the slash, whatever case it is
      written in. */
  lemma UnitAfterSlash()
    ensures ExtractUnitFromPrice(Some("/Кг")) == Some("кг")
  {
    var t := LowerText("/Кг");
    assert t == "/кг";
    SlashKgGroup(t);
    SlashUnitFirst(t);
    ExtractUnitIsGroup("/Кг");
  }

  lemma SlashKgGroup(t: string)
    requires t == "/кг"
    ensures SlashUnitAt(t, 0) && SlashUnitGroup(t, 0) == "кг"
  {
    assert SpaceRunEnd(t, 1) == 1;
    assert UnitRun(t, 3) == [];
    assert UnitRun(t, 1) == "кг";
  }

  /** A slash unit at the start is the group found. */
  lemma SlashUnitFirst(t: string)
    requires SlashUnitAt(t, 0)
    ensures UnitIn(t) == Some(SlashUnitGroup(t, 0))
  {
    assert FirstSlashUnit(t, 0) == Some(0);
  }

  /** No word of the list matches at p when none starts with t[p]. */
  lemma {:induction false} NoWordFrom(t: string, p: nat, words: seq<string>)
    requires p < |t|
    requires forall i :: 0 <= i < |words| ==> words[i] != [] && words[i][0] != t[p]
    ensures WordFrom(t, p, words) == None
  {
    if words != [] {
      var w := words[0];
      if p + |w| <= |t| {
        assert t[p..p + |w|][0] == t[p];
      }
      NoWordFrom(t, p, words[1..]);
    }
  }

  /** No unit word starts with a character outside к, г, л, м, ш, у, п. */
  lemma NoUnitWordAt(t: string, p: nat)
    requires p < |t| && t[p] !in "кглмшуп"
    ensures WordFrom(t, p, UnitWords) == None
  {
    NoWordFrom(t, p, UnitWords);
  }

  /** A text without '/' has no slash unit. */
  lemma {:induction false} NoSlashFrom(t: string, p: nat)
    requires '/' !in t
    ensures FirstSlashUnit(t, p) == None
    decreases |t| - p
  {
    if p < |t| {
      NoSlashFrom(t, p + 1);
    }
  }

  /** When no slash is followed by unit letters (there is no slash, or
      only digits or other characters follow each one), the result is the
      first standalone unit word. */
  lemma UnitWordWithoutSlash(priceText: string)
    requires priceText != [] && FirstSlashUnit(LowerText(priceText), 0).None?
    ensures ExtractUnitFromPrice(Some(priceText)) == FirstWord(LowerText(priceText), 0, UnitWords)
  {
    ExtractUnitIsGroup(priceText);
  }

  /** A standalone unit word is found whatever case it is written in. */
  lemma UnitWordStandalone(price: string)
    requires price == "1 КГ"
    ensures ExtractUnitFromPrice(Some(price)) == Some("кг")
  {
    var t := LowerText(price);
    assert t == "1 кг";
    NoSlashFrom(t, 0);
    UnitWordWithoutSlash(price);
    NoUnitWordAt(t, 0);
    FirstWordStep(t, 0, UnitWords);
    NoUnitWordAt(t, 1);
    FirstWordStep(t, 1, UnitWords);
    KgWordAt(t);
    FirstWordStep(t, 2, UnitWords);
  }

  /** A slash followed by a quantity rather than unit letters does not
      count: "200 ₸ / 1 кг" falls through to the unit word. */
  lemma SlashBeforeQuantity(price: string)
    requires price == "200 ₸ / 1 кг"
    ensures ExtractUnitFromPrice(Some(price)) == Some("кг")
  {
    LowerQuantity(price);
    NoSlashUnitBeforeQuantity(price);
    UnitWordWithoutSlash(price);
    KgWordInQuantity(price);
  }

  lemma KgWordInQuantity(t: string)
    requires t == "200 ₸ / 1 кг"
    ensures FirstWord(t, 0, UnitWords) == Some("кг")
  {
    NoUnitWordBeforeQuantity(t);
    KgAfterQuantity(t);
    FirstWordAt(t, 0, 10, UnitWords);
  }

  lemma LowerQuantity(t: string)
    requires t == "200 ₸ / 1 кг"
    ensures LowerText(t) == t
  {
    LowerKeeps(t);
  }

  lemma NoUnitWordBeforeQuantity(t: string)
    requires t == "200 ₸ / 1 кг"
    ensures forall j :: 0 <= j < 10 ==> WordFrom(t, j, UnitWords).None?
  {
    forall j | 0 <= j < 10
      ensures WordFrom(t, j, UnitWords).None?
    {
      assert !('а' <= t[j] <= 'я');
      NoUnitWordOffCyrillic(t, j);
    }
  }

  /** Every unit word starts with a lower-case Cyrillic letter. */
  lemma NoUnitWordOffCyrillic(t: string, p: nat)
    requires p < |t| && !('а' <= t[p] <= 'я')
    ensures WordFrom(t, p, UnitWords) == None
  {
    NoUnitWordAt(t, p);
  }

  /** Lower-casing keeps a text without capitals. */
  lemma LowerKeeps(s: string)
    requires forall i :: 0 <= i < |s| ==> !('A' <= s[i] <= 'Z') && !('А' <= s[i] <= 'Я') && !('Ѐ' <= s[i] <= 'Џ')
    ensures LowerText(s) == s
  {
  }

  lemma NoSlashUnitBeforeQuantity(t: string)
    requires t == "200 ₸ / 1 кг"
    ensures FirstSlashUnit(t, 0).None?
  {
    assert SpaceRunEnd(t, 7) == 8;
    assert UnitRun(t, 8) == [];
    forall k | 0 <= k < |t|
      ensures !SlashUnitAt(t, k)
    {
      if k != 6 {
        assert t[k] != '/';
      }
    }
  }

  lemma KgAfterQuantity(t: string)
    requires t == "200 ₸ / 1 кг"
    ensures WordFrom(t, 10, UnitWords) == Some("кг")
  {
    assert t[10..12] == "кг";
    assert WordAt(t, 10, "кг");
  }

  /** One step of the leftmost search. */
  lemma FirstWordStep(t: string, p: nat, words: seq<string>)
    requires p <= |t|
    ensures FirstWord(t, p, words) == if WordFrom(t, p, words).Some? then WordFrom(t, p, words) else FirstWord(t, p + 1, words)
  {
  }

  lemma KgWordAt(t: string)
    requires t == "1 кг"
    ensures WordFrom(t, 2, UnitWords) == Some("кг")
  {
    assert t[2..4] == "кг";
    assert WordAt(t, 2, "кг");
  }

  // ---------------------------------------------------------------------------
  // _extract_category_name

  /** os.path.splitext(f)[0] for a name without '/': cut at the last dot
      unless only dots come before it. */
  function SplitExtBase(f: string): (r: string)
    ensures |r| <= |f| && r == f[..|r|]
    ensures r != f ==> f[|r|] == '.' && '.' !in f[|r| + 1..] && exists j :: 0 <= j < |r| && f[j] != '.'
    ensures r == f ==> forall d :: 0 <= d < |f| && f[d] == '.' && '.' !in f[d + 1..] ==>
                                     forall j :: 0 <= j < d ==> f[j] == '.'
  {
    var tail := AfterLast(f, '.');
    if |tail| == |f| then f
    else
      var d := |f| - |tail| - 1;
      if forall j :: 0 <= j < d ==> f[j] == '.' then f
      else f[..d]
  }

  /** The class [0-9.] */
  predicate SizeChar(c: char) {
    IsDigit(c) || c == '.'
  }

  function SizeRun(s: string, i: nat): (r: string)
    requires i <= |s|
    ensures i + |r| <= |s| && r == s[i..i + |r|]
    ensures forall k :: 0 <= k < |r| ==> SizeChar(r[k])
    ensures i + |r| == |s| || !SizeChar(s[i + |r|])
    decreases |s| - i
  {
    if i < |s| && SizeChar(s[i]) then [s[i]] + SizeRun(s, i + 1) else []
  }

  /** The name without a leading size prefix: "S_", digits and dots,
      then "_". */
  function DropSizePrefix(base: string): (r: string)
    ensures |r| <= |base| && r == base[|base| - |r|..]
  {
    if |base| >= 2 && base[..2] == "S_" then
      var run := SizeRun(base, 2);
      if run != [] && 2 + |run| < |base| && base[2 + |run|] == '_' then base[3 + |run|..] else base
    else base
  }

  /** The size prefix comes off whole and nothing else does. */
  lemma DropSizePrefixOf(size: string, rest: string)
    requires size != [] && forall k :: 0 <= k < |size| ==> SizeChar(size[k])
    ensures DropSizePrefix("S_" + size + "_" + rest) == rest
  {
    var base := "S_" + size + "_" + rest;
    assert base[..2] == "S_";
    SizeRunOf(base, 2, size);
  }

  /** Nothing but a size prefix ever comes off: a name that changes is
      "S_", a non-empty run of digits and dots, "_" and the result. */
  lemma DropSizePrefixOnly(base: string)
    ensures DropSizePrefix(base) != base ==>
              exists size, rest ::
                && size != [] && (forall k :: 0 <= k < |size| ==> SizeChar(size[k]))
                && base == "S_" + size + "_" + rest && DropSizePrefix(base) == rest
  {
    if DropSizePrefix(base) != base {
      var size := SizeRun(base, 2);
      var rest := base[3 + |size|..];
      var e := 2 + |size|;
      assert base[..2] == "S_" && base[2..e] == size && base[e..e + 1] == "_";
      assert base == base[..2] + base[2..e] + base[e..e + 1] + rest;
    }
  }

  lemma {:induction false} SizeRunOf(s: string, i: nat, run: string)
    requires i + |run| < |s| && s[i..i + |run|] == run && !SizeChar(s[i + |run|])
    requires forall k :: 0 <= k < |run| ==> SizeChar(run[k])
    ensures SizeRun(s, i) == run
    decreases |run|
  {
    if run != [] {
      assert s[i] == run[0];
      assert s[i + 1..i + 1 + |run[1..]|] == run[1..];
      SizeRunOf(s, i + 1, run[1..]);
    }
  }

  /** s.replace(",_", ", "), left to right without overlaps. */
  function ReplaceCommaUnderscore(s: string): (r: string)
    ensures |r| == |s|
  {
    if |s| >= 2 && s[0] == ',' && s[1] == '_' then ", " + ReplaceCommaUnderscore(s[2..])
    else if s == [] then []
    else [s[0]] + ReplaceCommaUnderscore(s[1..])
  }

  /** s.replace("_", " ") */
  function UnderscoresToSpaces(s: string): (r: string)
    ensures |r| == |s| && '_' !in r
    ensures forall i :: 0 <= i < |s| ==> r[i] == (if s[i] == '_' then ' ' else s[i])
  {
    if s == [] then [] else [if s[0] == '_' then ' ' else s[0]] + UnderscoresToSpaces(s[1..])
  }

  /** Replacing ",_" first makes no difference once every '_' becomes a
      space anyway. */
  lemma {:induction false} CommaReplaceRedundant(s: string)
    ensures UnderscoresToSpaces(ReplaceCommaUnderscore(s)) == UnderscoresToSpaces(s)
    decreases |s|
  {
    if |s| >= 2 && s[0] == ',' && s[1] == '_' {
      CommaReplaceRedundant(s[2..]);
      assert s == s[..2] + s[2..];
      UnderscoresAppend(s[..2], s[2..]);
      UnderscoresAppend(", ", s[2..]);
    } else if s != [] {
      CommaReplaceRedundant(s[1..]);
      assert s == [s[0]] + s[1..];
      UnderscoresAppend([s[0]], s[1..]);
      UnderscoresAppend([s[0]], ReplaceCommaUnderscore(s[1..]));
    }
  }

  lemma UnderscoresAppend(a: string, b: string)
    ensures UnderscoresToSpaces(a + b) == UnderscoresToSpaces(a) + UnderscoresToSpaces(b)
  {
    var l := UnderscoresToSpaces(a + b);
    var r := UnderscoresToSpaces(a) + UnderscoresToSpaces(b);
    assert forall i :: 0 <= i < |l| ==> l[i] == r[i];
  }

  /** The name the og:image file name gives: the base name without query
      and extension, the size prefix dropped, underscores turned to spaces,
      whitespace collapsed. */
  function ImageName(ogImage: string): (r: string)
    ensures Trimmed(r) && Squashed(r) && '_' !in r
    ensures r == Collapse(UnderscoresToSpaces(DropSizePrefix(SplitExtBase(FileName(ogImage)))))
  {
    var base := DropSizePrefix(SplitExtBase(FileName(ogImage)));
    CommaReplaceRedundant(base);
    CollapseNoUnderscore(UnderscoresToSpaces(ReplaceCommaUnderscore(base)))
  }

  /** The last path segment of a URL, without its query. */
  function FileName(url: string): (r: string)
    ensures '/' !in r && '?' !in r
  {
    BeforeFirst(AfterLast(url, '/'), '?')
  }

  function CollapseNoUnderscore(spaced: string): (r: string)
    requires '_' !in spaced
    ensures Trimmed(r) && Squashed(r) && '_' !in r
  {
    CollapseKeeps(spaced, '_');
    Collapse(spaced)
  }

  /** Collapsing only removes characters or turns whitespace into spaces,
      so a non-space character absent before is absent after. */
  lemma CollapseKeeps(s: string, c: char)
    requires c !in s && !IsSpace(c)
    ensures c !in Collapse(s)
  {
    SquashKeeps(s, c);
    StripKeeps(Squash(s), c);
  }

  /** Stripping only removes characters. */
  lemma StripKeeps(q: string, c: char)
    requires c !in q
    ensures c !in Strip(q)
  {
    var k := SpaceRunEnd(q, 0);
    if k < |q| {
      assert Strip(q) == q[k..SpaceRunStart(q, |q|)];
    }
  }

  lemma {:induction false} SquashKeeps(s: string, c: char)
    requires c !in s && !IsSpace(c)
    ensures c !in Squash(s)
    decreases |s|
  {
    if s != [] {
      SquashKeeps(s[1..], c);
      if IsSpace(s[0]) {
        LStripSuffix(s);
        SquashKeeps(LStrip(s), c);
      }
    }
  }

  lemma LStripSuffix(s: string)
    ensures |LStrip(s)| <= |s| && LStrip(s) == s[|s| - |LStrip(s)|..]
  {
  }

  /** A title separator starts at p: a run of whitespace, a bar, and at
      least one more whitespace character. The head of the title is the
      text before the first one. */
  predicate SeparatorAt(title: string, p: nat) {
    && p < |title| && IsSpace(title[p])
    && var q := SpaceRunEnd(title, p);
       q + 1 < |title| && title[q] == '|' && IsSpace(title[q + 1])
  }

  function FirstSeparator(title: string, p: nat): (r: Option<nat>)
    ensures r.Some? ==> p <= r.value < |title| && SeparatorAt(title, r.value)
    ensures forall k :: p <= k && (r.None? || k < r.value) ==> !SeparatorAt(title, k)
    decreases |title| - p
  {
    if p >= |title| then None
    else if SeparatorAt(title, p) then Some(p)
    else FirstSeparator(title, p + 1)
  }

  function TitleHead(title: string): (r: string)
  {
    match FirstSeparator(title, 0)
    case None => Strip(title)
    case Some(p) => Strip(title[..p])
  }

  /** A stripped, non-empty title always has a non-empty head: its first
      character is not whitespace and so cannot start a separator. Hence
      the fallback to the category_<id> name after the split never applies. */
  lemma TitleHeadNonEmpty(title: string)
    requires title != [] && Trimmed(title)
    ensures TitleHead(title) != [] && Trimmed(TitleHead(title))
  {
    match FirstSeparator(title, 0)
    case None =>
      StripTrimmed(title);
    case Some(p) =>
      assert p > 0;
      var h := title[..p];
      assert !IsSpace(h[0]);
      assert !AllSpace(h);
  }

  /** The first non-empty of og:title and the <title> text, stripped;
      empty when neither has text. */
  function PageTitle(ogTitle: Option<string>, titleText: Option<string>): string {
    if ogTitle.Some? && ogTitle.value != [] then Strip(ogTitle.value)
    else if titleText.Some? && titleText.value != [] then Strip(titleText.value)
    else []
  }

  /** _extract_category_name: the og:image name if it gives any text, else
      the head of the page title, else `category_<id>`. */
  function ExtractCategoryName(ogImage: Option<string>, ogTitle: Option<string>, titleText: Option<string>,
                               categoryId: string): (r: string)
    ensures r != []
    ensures ogImage.Some? && ogImage.value != [] && ImageName(ogImage.value) != [] ==> r == ImageName(ogImage.value)
  {
    var image := if ogImage.Some? then ogImage.value else "";
    if image != [] && ImageName(image) != [] then ImageName(image)
    else
      var title := PageTitle(ogTitle, titleText);
      if title != [] then
        var head := TitleHead(title);
        if head != [] then head else "category_" + categoryId
      else "category_" + categoryId
  }

  /** The fallback name is used exactly when neither the image nor the
      title gives text. */
  lemma CategoryNameFallback(ogImage: Option<string>, ogTitle: Option<string>, titleText: Option<string>,
                             categoryId: string)
    ensures var image := if ogImage.Some? then ogImage.value else "";
            ExtractCategoryName(ogImage, ogTitle, titleText, categoryId) == "category_" + categoryId
            <== (image == [] || ImageName(image) == []) && PageTitle(ogTitle, titleText) == []
    ensures var image := if ogImage.Some? then ogImage.value else "";
            (image == [] || ImageName(image) == []) && PageTitle(ogTitle, titleText) != [] ==>
              ExtractCategoryName(ogImage, ogTitle, titleText, categoryId) == TitleHead(PageTitle(ogTitle, titleText))
  {
    var title := PageTitle(ogTitle, titleText);
    if title != [] {
      TitleHeadNonEmpty(title);
    }
  }

  // ---------------------------------------------------------------------------
  // Product cards of a category page

  /** What the CSS queries of one product card return. */
  datatype Card = Card(
    href: Option<string>,
    title: Option<string>,
    titleText: string,
    brand: Option<string>,
    subtitle: Option<string>,
    priceText: string,
    priceAltText: string,
    measure: Option<string>)

  datatype CleverItem = CleverItem(
    store: string,
    city: string,
    categoryName: string,
    categoryId: IdValue,
    productId: IdValue,
    productName: Option<string>,
    brand: Option<string>,
    priceKzt: Option<nat>,
    currency: string,
    unit: Option<string>,
    source: string)

  /** The last path segment of a link: trailing slashes dropped, then the
      text after the last remaining slash. */
  function ProductSegment(href: string): (r: string)
    ensures '/' !in r
  {
    if href != [] && href[|href| - 1] == '/' then ProductSegment(href[..|href| - 1])
    else AfterLast(href, '/')
  }

  /** ProductSegment is rstrip followed by the last split field. */
  lemma {:induction false} ProductSegmentSplits(href: string)
    ensures ProductSegment(href) == AfterLast(RStripChar(href, '/'), '/')
    decreases |href|
  {
    if href != [] && href[|href| - 1] == '/' {
      ProductSegmentSplits(href[..|href| - 1]);
    }
  }

  /** `clean_text(a)`, or `clean_text(b)` when that gives nothing: the
      fallback between the two queries of one card field. */
  function CleanFirst(a: Option<string>, b: Option<string>): (r: Option<string>)
    ensures r.None? <==> (a.None? || AllSpace(a.value)) && (b.None? || AllSpace(b.value))
    ensures a.Some? && !AllSpace(a.value) ==> r == Some(Collapse(a.value))
    ensures a.None? || AllSpace(a.value) ==> r == CleanText(b)
  {
    var x := CleanText(a);
    if x.None? then CleanText(b) else x
  }

  /** The record of one card; a field falls back to the second query when
      the first gives no text, and the unit to the one the price text
      names. */
  function CardRecord(card: Card, categoryName: string, categoryId: string, segment: string): (r: CleverItem)
    ensures r.productName.Some? ==> r.productName.value != [] && Trimmed(r.productName.value)
    ensures r.brand.Some? ==> r.brand.value != [] && Trimmed(r.brand.value)
    ensures r.productId == IdOf(segment) && r.categoryId == IdOf(categoryId)
    ensures r.productName == CleanFirst(card.title, Some(card.titleText))
    ensures r.brand == CleanFirst(card.brand, card.subtitle)
    ensures r.priceKzt == ToIntPrice(CleanFirst(Some(card.priceText), Some(card.priceAltText)))
    ensures r.unit == if CleanText(card.measure).Some? then CleanText(card.measure)
                      else ExtractUnitFromPrice(CleanFirst(Some(card.priceText), Some(card.priceAltText)))
    ensures r.store == "clever" && r.city == "astana" && r.currency == "KZT" && r.source == "clevermarket.kz"
    ensures r.categoryName == categoryName
  {
    var priceText := CleanFirst(Some(card.priceText), Some(card.priceAltText));
    var unit := CleanText(card.measure);
    var unit := if unit.None? then ExtractUnitFromPrice(priceText) else unit;
    CleverItem(
      store := "clever",
      city := "astana",
      categoryName := categoryName,
      categoryId := IdOf(categoryId),
      productId := IdOf(segment),
      productName := CleanFirst(card.title, Some(card.titleText)),
      brand := CleanFirst(card.brand, card.subtitle),
      priceKzt := ToIntPrice(priceText),
      currency := "KZT",
      unit := unit,
      source := "clevermarket.kz")
  }

  /** A card that passed the link and duplicate checks, with its segment. */
  datatype Kept = Kept(card: Card, segment: string)

  /** The cards kept so far and seen_products. */
  datatype CardState = CardState(kept: seq<Kept>, seen: set<string>)

  function CardStep(st: CardState, card: Card): CardState {
    if card.href.None? || card.href.value == [] then st
    else
      var seg := ProductSegment(card.href.value);
      if seg in st.seen then st
      else CardState(st.kept + [Kept(card, seg)], st.seen + {seg})
  }

  function CardPass(cards: seq<Card>): CardState {
    if cards == [] then CardState([], {})
    else CardStep(CardPass(cards[..|cards| - 1]), cards[|cards| - 1])
  }

  /** First-seen order: the cards kept from a prefix of the page are a
      prefix of those kept from the whole page. */
  lemma {:induction false} CardPassPrefix(cards: seq<Card>, k: nat)
    requires k <= |cards|
    ensures CardPass(cards[..k]).kept <= CardPass(cards).kept
    decreases |cards|
  {
    if k == |cards| {
      assert cards[..k] == cards;
    } else {
      var init := cards[..|cards| - 1];
      assert init[..k] == cards[..k];
      CardPassPrefix(init, k);
      var a := CardPass(cards[..k]).kept;
      var b := CardPass(init).kept;
      var c := CardPass(cards).kept;
      assert b <= c;
      assert a == b[..|a|] == c[..|b|][..|a|];
    }
  }

  /** The records yielded for the kept cards, in order. */
  function Records(kept: seq<Kept>, categoryName: string, categoryId: string): (r: seq<CleverItem>)
    ensures |r| == |kept|
    decreases |kept|
  {
    if kept == [] then []
    else
      var last := kept[|kept| - 1];
      Records(kept[..|kept| - 1], categoryName, categoryId) + [CardRecord(last.card, categoryName, categoryId, last.segment)]
  }

  /** The i-th record is the record of the i-th kept card. */
  lemma {:induction false} RecordsAt(kept: seq<Kept>, categoryName: string, categoryId: string, i: nat)
    requires i < |kept|
    ensures Records(kept, categoryName, categoryId)[i] == CardRecord(kept[i].card, categoryName, categoryId, kept[i].segment)
    decreases |kept|
  {
    var init := kept[..|kept| - 1];
    var last := kept[|kept| - 1];
    assert kept == init + [last];
    RecordsAppend(init, last, categoryName, categoryId);
    if i < |init| {
      RecordsAt(init, categoryName, categoryId, i);
    }
  }

  lemma RecordsAppend(kept: seq<Kept>, k: Kept, categoryName: string, categoryId: string)
    ensures Records(kept + [k], categoryName, categoryId)
            == Records(kept, categoryName, categoryId) + [CardRecord(k.card, categoryName, categoryId, k.segment)]
  {
    assert (kept + [k])[..|kept|] == kept;
  }

  /** The card loop of parse_category. */
  method ParseCards(cards: seq<Card>, categoryName: string, categoryId: string) returns (items: seq<CleverItem>)
    ensures items == Records(CardPass(cards).kept, categoryName, categoryId)
  {
    items := [];
    ghost var kept: seq<Kept> := [];
    var seenProducts: set<string> := {};
    for i := 0 to |cards|
      invariant CardState(kept, seenProducts) == CardPass(cards[..i])
      invariant items == Records(kept, categoryName, categoryId)
    {
      assert cards[..i + 1][..i] == cards[..i];
      var href := cards[i].href;
      if href.None? || href.value == [] {
        continue;
      }
      var productId := ProductSegment(href.value);
      if productId in seenProducts {
        continue;
      }
      seenProducts := seenProducts + {productId};
      RecordsAppend(kept, Kept(cards[i], productId), categoryName, categoryId);
      kept := kept + [Kept(cards[i], productId)];
      items := items + [CardRecord(cards[i], categoryName, categoryId, productId)];
    }
    assert cards[..|cards|] == cards;
  }

  function Segments(kept: seq<Kept>): set<string> {
    if kept == [] then {} else Segments(kept[..|kept| - 1]) + {kept[|kept| - 1].segment}
  }

  lemma {:induction false} SegmentsContain(kept: seq<Kept>, i: nat)
    requires i < |kept|
    ensures kept[i].segment in Segments(kept)
    decreases |kept|
  {
    if i < |kept| - 1 {
      SegmentsContain(kept[..|kept| - 1], i);
    }
  }

  /** Cards are deduplicated by the last path segment of their link: the
      kept segments are pairwise distinct and are what seen_products holds. */
  lemma {:induction false} CardPassDedups(cards: seq<Card>)
    ensures var st := CardPass(cards);
            && st.seen == Segments(st.kept)
            && (forall i, j :: 0 <= i < j < |st.kept| ==> st.kept[i].segment != st.kept[j].segment)
    decreases |cards|
  {
    if cards != [] {
      var init := cards[..|cards| - 1];
      CardPassDedups(init);
      CardStepKeeps(CardPass(init), cards[|cards| - 1]);
    }
  }

  /** One card keeps the segments distinct and seen equal to the kept ones. */
  lemma CardStepKeeps(st: CardState, card: Card)
    requires st.seen == Segments(st.kept)
    requires forall i, j :: 0 <= i < j < |st.kept| ==> st.kept[i].segment != st.kept[j].segment
    ensures var e := CardStep(st, card);
            && e.seen == Segments(e.kept)
            && (forall i, j :: 0 <= i < j < |e.kept| ==> e.kept[i].segment != e.kept[j].segment)
  {
    if card.href.Some? && card.href.value != [] {
      var seg := ProductSegment(card.href.value);
      if seg !in st.seen {
        CardAdmitKeeps(st, card, seg);
      }
    }
  }

  lemma CardAdmitKeeps(st: CardState, card: Card, seg: string)
    requires st.seen == Segments(st.kept) && seg !in st.seen
    requires forall i, j :: 0 <= i < j < |st.kept| ==> st.kept[i].segment != st.kept[j].segment
    ensures var kept := st.kept + [Kept(card, seg)];
            && st.seen + {seg} == Segments(kept)
            && (forall i, j :: 0 <= i < j < |kept| ==> kept[i].segment != kept[j].segment)
  {
    var kept := st.kept + [Kept(card, seg)];
    assert kept[..|kept| - 1] == st.kept;
    forall i | 0 <= i < |st.kept|
      ensures kept[i].segment != seg
    {
      SegmentsContain(st.kept, i);
    }
  }

  /** Every card with a link has its segment among the kept ones: a card is
      dropped only for lacking a link or repeating a segment. */
  lemma {:induction false} CardPassComplete(cards: seq<Card>, i: nat)
    requires i < |cards| && cards[i].href.Some? && cards[i].href.value != []
    ensures ProductSegment(cards[i].href.value) in CardPass(cards).seen
    decreases |cards|
  {
    var init := cards[..|cards| - 1];
    assert CardPass(cards) == CardStep(CardPass(init), cards[|cards| - 1]);
    if i < |cards| - 1 {
      assert init[i] == cards[i];
      CardPassComplete(init, i);
    }
  }

  /** The card has a non-empty link and the segment is that link's. */
  predicate LinkedBy(k: Kept) {
    k.card.href.Some? && k.card.href.value != [] && k.segment == ProductSegment(k.card.href.value)
  }

  /** Every kept card has a non-empty link, and carries its segment. */
  lemma {:induction false} CardPassKeepsLinks(cards: seq<Card>)
    ensures forall i :: 0 <= i < |CardPass(cards).kept| ==> LinkedBy(CardPass(cards).kept[i])
    decreases |cards|
  {
    if cards != [] {
      var init := cards[..|cards| - 1];
      CardPassKeepsLinks(init);
      var st := CardPass(init);
      var card := cards[|cards| - 1];
      if card.href.Some? && card.href.value != [] && ProductSegment(card.href.value) !in st.seen {
        var kept := st.kept + [Kept(card, ProductSegment(card.href.value))];
        assert CardPass(cards).kept == kept;
        forall i | 0 <= i < |kept|
          ensures LinkedBy(kept[i])
        {
          if i < |st.kept| {
            assert kept[i] == st.kept[i];
          }
        }
      }
    }
  }
}
