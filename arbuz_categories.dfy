/** Category discovery on the arbuz.kz seed page
    (ArbuzSpider._extract_category_id_from_url and
    _extract_categories_from_html): the menu anchors are read first, and
    the regex scan over the raw page runs only when they give nothing. */
module ArbuzCategories {
  import opened Text

  const Site := "https://arbuz.kz"

  // ---------------------------------------------------------------------------
  // _extract_category_id_from_url

  /** The pattern `/cat/(\d+)-` matches at index p. \d+ is greedy and '-'
      is not a digit, so the only possible group is the whole digit run. */
  predicate IdMatchAt(url: string, p: nat) {
    && OccursAt(url, "/cat/", p)
    && var ds := DigitRun(url, p + 5);
       ds != [] && p + 5 + |ds| < |url| && url[p + 5 + |ds|] == '-'
  }

  /** The leftmost index at or after p where the pattern matches (re.search). */
  function FirstIdMatch(url: string, p: nat): (r: Option<nat>)
    ensures r.Some? ==> p <= r.value && IdMatchAt(url, r.value)
    ensures forall k :: p <= k && (r.None? || k < r.value) ==> !IdMatchAt(url, k)
    decreases |url| - p
  {
    if p + 5 > |url| then None
    else if IdMatchAt(url, p) then Some(p)
    else FirstIdMatch(url, p + 1)
  }

  /** The category id in a catalog URL: the digits after the leftmost
      `/cat/` that are followed by '-', or None. */
  function CategoryIdFromUrl(url: string): (r: Option<nat>)
    ensures r.None? <==> forall k :: !IdMatchAt(url, k)
    ensures r.Some? ==>
              var p := FirstIdMatch(url, 0).value;
              r.value == DecimalValue(DigitRun(url, p + 5))
  {
    match FirstIdMatch(url, 0)
    case None => None
    case Some(p) => Some(DecimalValue(DigitRun(url, p + 5)))
  }

  /** A category path reads back the id it was built from. */
  lemma CategoryIdRoundTrip(n: nat, slug: string)
    ensures CategoryIdFromUrl("/cat/" + NatToString(n) + "-" + slug) == Some(n)
  {
    var d := NatToString(n);
    var url := "/cat/" + d + "-" + slug;
    MatchAtStart(url, d, slug);
    IdOfFirstMatch(url, d);
    DecimalRoundTrip(n);
  }

  /** A URL that matches at its start gives the digits found there. */
  lemma IdOfFirstMatch(url: string, d: string)
    requires IdMatchAt(url, 0) && DigitRun(url, 5) == d
    ensures CategoryIdFromUrl(url) == Some(DecimalValue(d))
  {
    assert FirstIdMatch(url, 0) == Some(0);
  }

  lemma MatchAtStart(url: string, d: string, slug: string)
    requires AllDigits(d) && d != [] && url == "/cat/" + d + "-" + slug
    ensures IdMatchAt(url, 0) && DigitRun(url, 5) == d
  {
    assert url[0..5] == "/cat/";
    assert url[5..5 + |d|] == d;
    assert url[5 + |d|] == '-';
    DigitRunOfNumber(url, 5, d);
  }

  // ---------------------------------------------------------------------------
  // _extract_categories_from_html

  /** One anchor the CSS query returned: its href (the empty string when it
      has none) and the concatenation of its text nodes. */
  datatype Anchor = Anchor(href: string, text: string)

  /** One match of the fallback regex over the raw page: the integer value
      of its digit group and the whole matched text. */
  datatype RegexMatch = RegexMatch(id: nat, text: string)

  /** One discovered category; a zero id is possible only from the fallback. */
  datatype CategoryRef = CategoryRef(id: nat, url: string, hint: Option<string>)

  /** The accumulated list `cats` and the set `seen` of (id, url) keys. */
  datatype Discovery = Discovery(cats: seq<CategoryRef>, seen: set<(nat, string)>)

  function Key(c: CategoryRef): (nat, string) {
    (c.id, c.url)
  }

  /** A site-relative href is made absolute. */
  function AbsoluteUrl(href: string): (r: string)
    ensures StartsWith(href, "/") ==> r == Site + href
    ensures !StartsWith(href, "/") ==> r == href
  {
    if StartsWith(href, "/") then Site + href else href
  }

  /** The anchor text as a name hint: stripped, whitespace runs collapsed,
      None when nothing is left. */
  function Hint(text: string): (r: Option<string>)
    ensures r.None? <==> AllSpace(text)
    ensures r.Some? ==> r.value != [] && Trimmed(r.value) && Squashed(r.value)
    ensures r.Some? ==> r.value == Collapse(Strip(text)) && NonSpace(r.value) == NonSpace(text)
  {
    var t := Strip(text);
    NonSpaceOfStrip(text);
    var c := Collapse(t);
    assert AllSpace(t) <==> t == [];
    if c == [] then None else Some(c)
  }

  /** The key an anchor contributes, or None when its URL gives no id or
      the id 0, which the loop skips as falsy. */
  function AnchorKey(a: Anchor): (r: Option<(nat, string)>)
    ensures r.Some? ==> r.value.0 != 0 && '#' !in r.value.1
    ensures var id := CategoryIdFromUrl(AbsoluteUrl(a.href));
            && (r.None? <==> id.None? || id.value == 0)
            && (r.Some? ==> r.value == (id.value, BeforeFirst(AbsoluteUrl(a.href), '#')))
  {
    var url := AbsoluteUrl(a.href);
    match CategoryIdFromUrl(url)
    case None => None
    case Some(cid) => if cid == 0 then None else Some((cid, BeforeFirst(url, '#')))
  }

  /** Append a category unless its key was seen already. */
  function Admit(d: Discovery, c: CategoryRef): Discovery {
    if Key(c) in d.seen then d else Discovery(d.cats + [c], d.seen + {Key(c)})
  }

  function AnchorStep(d: Discovery, a: Anchor): Discovery {
    match AnchorKey(a)
    case None => d
    case Some(k) => Admit(d, CategoryRef(k.0, k.1, Hint(a.text)))
  }

  function MatchStep(d: Discovery, m: RegexMatch): Discovery {
    Admit(d, CategoryRef(m.id, BeforeFirst(m.text, '#'), None))
  }

  /** The loop over the anchors, read left to right. */
  function StructuredPass(anchors: seq<Anchor>): Discovery {
    if anchors == [] then Discovery([], {})
    else AnchorStep(StructuredPass(anchors[..|anchors| - 1]), anchors[|anchors| - 1])
  }

  /** The fallback loop over the regex matches, continuing from d. */
  function FallbackPass(d: Discovery, matches: seq<RegexMatch>): Discovery {
    if matches == [] then d
    else MatchStep(FallbackPass(d, matches[..|matches| - 1]), matches[|matches| - 1])
  }

  /** _extract_categories_from_html. */
  function Categories(anchors: seq<Anchor>, matches: seq<RegexMatch>): seq<CategoryRef> {
    var d := StructuredPass(anchors);
    if d.cats != [] then d.cats else FallbackPass(d, matches).cats
  }

  /** The same, as the loops that fill `cats` and `seen`. */
  method ExtractCategories(anchors: seq<Anchor>, matches: seq<RegexMatch>) returns (cats: seq<CategoryRef>)
    ensures cats == Categories(anchors, matches)
  {
    cats := [];
    var seen: set<(nat, string)> := {};
    for i := 0 to |anchors|
      invariant Discovery(cats, seen) == StructuredPass(anchors[..i])
    {
      assert anchors[..i + 1][..i] == anchors[..i];
      var a := anchors[i];
      var url := if StartsWith(a.href, "/") then Site + a.href else a.href;
      var cid := CategoryIdFromUrl(url);
      if cid.None? || cid.value == 0 {
        continue;
      }
      var txt := Strip(a.text);
      txt := Collapse(txt);
      var hint := if txt == [] then None else Some(txt);
      var key := (cid.value, BeforeFirst(url, '#'));
      if key in seen {
        continue;
      }
      seen := seen + {key};
      cats := cats + [CategoryRef(cid.value, BeforeFirst(url, '#'), hint)];
    }
    assert anchors[..|anchors|] == anchors;
    if cats == [] {
      for i := 0 to |matches|
        invariant Discovery(cats, seen) == FallbackPass(StructuredPass(anchors), matches[..i])
      {
        assert matches[..i + 1][..i] == matches[..i];
        var m := matches[i];
        var url := BeforeFirst(m.text, '#');
        var key := (m.id, url);
        if key in seen {
          continue;
        }
        seen := seen + {key};
        cats := cats + [CategoryRef(m.id, url, None)];
      }
      assert matches[..|matches|] == matches;
    }
  }

  // ---------------------------------------------------------------------------
  // Properties

  /** The keys of a list of categories. */
  function Keys(cats: seq<CategoryRef>): set<(nat, string)> {
    if cats == [] then {} else Keys(cats[..|cats| - 1]) + {Key(cats[|cats| - 1])}
  }

  /** What both loops keep: `seen` holds exactly the keys in `cats`, the
      keys are pairwise distinct, and no URL keeps a fragment. */
  ghost predicate Consistent(d: Discovery) {
    && d.seen == Keys(d.cats)
    && (forall i, j :: 0 <= i < j < |d.cats| ==> Key(d.cats[i]) != Key(d.cats[j]))
    && (forall i :: 0 <= i < |d.cats| ==> '#' !in d.cats[i].url)
  }

  lemma {:induction false} KeysContain(cats: seq<CategoryRef>, i: nat)
    requires i < |cats|
    ensures Key(cats[i]) in Keys(cats)
    decreases |cats|
  {
    if i < |cats| - 1 {
      KeysContain(cats[..|cats| - 1], i);
    }
  }

  lemma AdmitKeepsConsistent(d: Discovery, c: CategoryRef)
    requires Consistent(d) && '#' !in c.url
    ensures Consistent(Admit(d, c))
  {
    if Key(c) !in d.seen {
      var cats := d.cats + [c];
      assert cats[..|cats| - 1] == d.cats;
      forall i | 0 <= i < |d.cats|
        ensures Key(cats[i]) != Key(c)
      {
        KeysContain(d.cats, i);
      }
    }
  }

  /** The keys an anchor list contributes. */
  function AnchorKeys(anchors: seq<Anchor>): set<(nat, string)> {
    if anchors == [] then {}
    else
      var last := AnchorKey(anchors[|anchors| - 1]);
      AnchorKeys(anchors[..|anchors| - 1]) + (if last.Some? then {last.value} else {})
  }

  /** The structured pass keeps its invariant and lists every qualifying
      anchor's (id, url) key exactly once, each with a nonzero id. */
  lemma {:induction false} StructuredPassKeys(anchors: seq<Anchor>)
    ensures var d := StructuredPass(anchors);
            && Consistent(d)
            && Keys(d.cats) == AnchorKeys(anchors)
            && forall i :: 0 <= i < |d.cats| ==> d.cats[i].id != 0
    decreases |anchors|
  {
    if anchors != [] {
      var init := anchors[..|anchors| - 1];
      StructuredPassKeys(init);
      AnchorStepKeeps(StructuredPass(init), anchors[|anchors| - 1]);
    }
  }

  /** One anchor keeps the invariant and adds its key, if any, to `seen`. */
  lemma AnchorStepKeeps(d: Discovery, a: Anchor)
    requires Consistent(d) && forall i :: 0 <= i < |d.cats| ==> d.cats[i].id != 0
    ensures var e := AnchorStep(d, a);
            && Consistent(e)
            && e.seen == d.seen + (if AnchorKey(a).Some? then {AnchorKey(a).value} else {})
            && forall i :: 0 <= i < |e.cats| ==> e.cats[i].id != 0
  {
    var key := AnchorKey(a);
    if key.Some? {
      AdmitKeeps(d, CategoryRef(key.value.0, key.value.1, Hint(a.text)));
    }
  }

  /** Admitting a category with a nonzero id and no fragment keeps the
      invariant and adds its key to `seen`. */
  lemma AdmitKeeps(d: Discovery, c: CategoryRef)
    requires Consistent(d) && forall i :: 0 <= i < |d.cats| ==> d.cats[i].id != 0
    requires c.id != 0 && '#' !in c.url
    ensures var e := Admit(d, c);
            && Consistent(e)
            && e.seen == d.seen + {Key(c)}
            && forall i :: 0 <= i < |e.cats| ==> e.cats[i].id != 0
  {
    AdmitKeepsConsistent(d, c);
    if Key(c) !in d.seen {
      var cats := d.cats + [c];
      forall i | 0 <= i < |cats| ensures cats[i].id != 0 {
        if i < |d.cats| {
          assert cats[i] == d.cats[i];
        }
      }
    }
  }

  /** The fallback keeps the invariant too. */
  lemma {:induction false} FallbackPassConsistent(d: Discovery, matches: seq<RegexMatch>)
    requires Consistent(d)
    ensures Consistent(FallbackPass(d, matches))
    decreases |matches|
  {
    if matches != [] {
      FallbackPassConsistent(d, matches[..|matches| - 1]);
      var m := matches[|matches| - 1];
      AdmitKeepsConsistent(FallbackPass(d, matches[..|matches| - 1]), CategoryRef(m.id, BeforeFirst(m.text, '#'), None));
    }
  }

  /** The result lists distinct (id, url) pairs and no URL has a fragment. */
  lemma CategoriesDistinct(anchors: seq<Anchor>, matches: seq<RegexMatch>)
    ensures var cats := Categories(anchors, matches);
            && (forall i, j :: 0 <= i < j < |cats| ==> Key(cats[i]) != Key(cats[j]))
            && (forall i :: 0 <= i < |cats| ==> '#' !in cats[i].url)
  {
    StructuredPassKeys(anchors);
    FallbackPassConsistent(StructuredPass(anchors), matches);
  }

  /** The regex matches are used only when no anchor yields a category: as
      soon as one anchor has a nonzero id, the result is the anchors' alone. */
  lemma FallbackOnlyWhenNoAnchor(anchors: seq<Anchor>, matches: seq<RegexMatch>, j: nat)
    requires j < |anchors| && AnchorKey(anchors[j]).Some?
    ensures Categories(anchors, matches) == StructuredPass(anchors).cats
    ensures Categories(anchors, matches) == Categories(anchors, [])
  {
    AnchorKeysContain(anchors, j);
    StructuredPassKeys(anchors);
    assert StructuredPass(anchors).cats != [];
  }

  lemma {:induction false} AnchorKeysContain(anchors: seq<Anchor>, j: nat)
    requires j < |anchors| && AnchorKey(anchors[j]).Some?
    ensures AnchorKey(anchors[j]).value in AnchorKeys(anchors)
    decreases |anchors|
  {
    if j < |anchors| - 1 {
      AnchorKeysContain(anchors[..|anchors| - 1], j);
    }
  }

  /** With no qualifying anchor the result is the fallback's alone: its
      (id, url) keys are pairwise distinct and none of its entries has a
      hint. */
  lemma FallbackHasNoHints(anchors: seq<Anchor>, matches: seq<RegexMatch>)
    requires forall j :: 0 <= j < |anchors| ==> AnchorKey(anchors[j]).None?
    ensures Categories(anchors, matches) == FallbackPass(Discovery([], {}), matches).cats
    ensures NoHints(Categories(anchors, matches))
    ensures var cats := Categories(anchors, matches);
            forall i, j :: 0 <= i < j < |cats| ==> Key(cats[i]) != Key(cats[j])
  {
    NoAnchorNothing(anchors);
    FallbackHints(matches);
    FallbackPassConsistent(Discovery([], {}), matches);
  }

  lemma {:induction false} NoAnchorNothing(anchors: seq<Anchor>)
    requires forall j :: 0 <= j < |anchors| ==> AnchorKey(anchors[j]).None?
    ensures StructuredPass(anchors) == Discovery([], {})
    decreases |anchors|
  {
    if anchors != [] {
      NoAnchorNothing(anchors[..|anchors| - 1]);
    }
  }

  predicate NoHints(cats: seq<CategoryRef>) {
    forall i :: 0 <= i < |cats| ==> cats[i].hint.None?
  }

  lemma {:induction false} FallbackHints(matches: seq<RegexMatch>)
    ensures NoHints(FallbackPass(Discovery([], {}), matches).cats)
    decreases |matches|
  {
    if matches != [] {
      FallbackHints(matches[..|matches| - 1]);
      var d := FallbackPass(Discovery([], {}), matches[..|matches| - 1]);
      var m := matches[|matches| - 1];
      var c := CategoryRef(m.id, BeforeFirst(m.text, '#'), None);
      assert FallbackPass(Discovery([], {}), matches) == Admit(d, c);
      assert NoHints(d.cats + [c]) by {
        var cats := d.cats + [c];
        forall i | 0 <= i < |cats|
          ensures cats[i].hint.None?
        {
          if i < |d.cats| {
            assert cats[i] == d.cats[i];
          }
        }
      }
    }
  }
}
