/** The bookkeeping of ArbuzSpider's two category callbacks: per-category
    dedup against the `seen_ids` field, and the decision whether to request
    another API page. Requests are reduced to what they ask for. */
module ArbuzSpider {
  import opened Text
  import opened Json
  import opened ArbuzProducts
  import opened ArbuzConfig

  const ApiLimit := 40
  const MaxPagesPerCategory := 200
  const Source := "arbuz.kz"

  /** A request for one page of the catalog API of a category. */
  datatype ApiRequest = ApiRequest(categoryId: int, page: int, limit: int)

  /** What a callback produces: the records it yields, in order, and the
      follow-up API request, if any. */
  datatype Yield = Yield(items: seq<Item>, next: Option<ApiRequest>)

  /** The state of the product loop: the records yielded so far, the
      category's seen set, and whether a record raised AttributeError
      (which ends the callback). */
  datatype Outcome = Outcome(emitted: seq<Item>, seen: set<int>, crashed: bool)

  /** What _build_item_from_product_dict makes of each product of a list. */
  function Candidates(products: seq<Json>, categoryId: int, categoryName: string): (r: seq<Candidate>)
    ensures |r| == |products|
    ensures forall i :: 0 <= i < |r| ==> r[i] == BuildItem(products[i], categoryId, categoryName, Source)
  {
    seq(|products|, i requires 0 <= i < |products| => BuildItem(products[i], categoryId, categoryName, Source))
  }

  /** One pass of the product loop: skip a discarded candidate or a seen
      id, stop on an error, otherwise yield the record and remember its id. */
  function AbsorbStep(o: Outcome, c: Candidate): Outcome {
    if o.crashed then o
    else
      match c
      case Discarded => o
      case Crashed => o.(crashed := true)
      case Normalized(it) =>
        if it.productId in o.seen then o
        else Outcome(o.emitted + [it], o.seen + {it.productId}, false)
  }

  /** The product loop over a whole list, starting from the seen set `seen`. */
  function Absorb(seen: set<int>, cands: seq<Candidate>): Outcome {
    if cands == [] then Outcome([], seen, false)
    else AbsorbStep(Absorb(seen, cands[..|cands| - 1]), cands[|cands| - 1])
  }

  /** The ids of a list of records. */
  function Ids(items: seq<Item>): set<int> {
    if items == [] then {} else Ids(items[..|items| - 1]) + {items[|items| - 1].productId}
  }

  /** The token test: a cookie value that is present and non-empty. */
  predicate HasToken(jwt: Option<string>) {
    jwt.Some? && jwt.value != []
  }

  /** parse_category_api for one response, given the category's seen set:
      what it yields and the seen set afterwards. `body` is json.loads of
      the response text, None when that raises. */
  function ApiResult(seen: set<int>, categoryId: int, categoryName: string, page: int, limit: int,
                     status: int, body: Option<Json>): (Yield, set<int>)
  {
    if status == 401 || status == 403 || body.None? then (Yield([], None), seen)
    else
      var products := FindProductsList(body.value);
      if products == [] then (Yield([], None), seen)
      else
        var o := Absorb(seen, Candidates(products, categoryId, categoryName));
        var next :=
          if !o.crashed && page < MaxPagesPerCategory && |products| >= limit && |o.emitted| > 0
          then Some(ApiRequest(categoryId, page + 1, limit)) else None;
        (Yield(o.emitted, next), o.seen)
  }

  /** The products embedded in a category page's configuration, or None
      when reading them raises (`.get` on a configuration or a truthy
      pageView that is not a dict). */
  function EmbeddedProducts(config: Json): Option<seq<Json>> {
    if !config.JObj? then None
    else
      var pageView := Or(Get(config.members, "pageView"), Some(JObj([])));
      if !pageView.value.JObj? then None
      else
        var data := Get(pageView.value.members, "data");
        if data.Some? && data.value.JArr? then Some(data.value.items) else Some([])
  }

  /** parse_category_html for one page, given the category's seen set and
      the token: what it yields and the seen set afterwards. */
  function HtmlResult(seen: set<int>, jwt: Option<string>, categoryId: int, categoryName: string,
                      html: string, parse: string -> Option<Json>): (Yield, set<int>)
  {
    var config := PlatformConfiguration(html, parse);
    if !Truthy(config) then (Yield([], None), seen)
    else
      match EmbeddedProducts(config.value)
      case None => (Yield([], None), seen)
      case Some(products) =>
        var o := Absorb(seen, Candidates(products, categoryId, categoryName));
        var next := if !o.crashed && HasToken(jwt) then Some(ApiRequest(categoryId, 1, ApiLimit)) else None;
        (Yield(o.emitted, next), o.seen)
  }

  class Spider {
    /** The jwt cookie read from the seed page, if any. */
    var jwt: Option<string>
    /** seen_ids, a defaultdict(set): the product ids already yielded, per category. */
    var seenIds: map<int, set<int>>

    constructor(jwt: Option<string>)
      ensures this.jwt == jwt && seenIds == map[]
    {
      this.jwt := jwt;
      seenIds := map[];
    }

    /** seen_ids[category_id], with an absent key read as the empty set. */
    function SeenFor(categoryId: int): set<int>
      reads this
    {
      if categoryId in seenIds then seenIds[categoryId] else {}
    }

    /** The product loop shared by both callbacks. It stops at the first
        record that raises. newCount counts the records yielded. */
    method AbsorbProducts(categoryId: int, categoryName: string, products: seq<Json>)
      returns (emitted: seq<Item>, newCount: nat, crashed: bool)
      modifies this
      ensures var o := Absorb(old(SeenFor(categoryId)), Candidates(products, categoryId, categoryName));
              && emitted == o.emitted && crashed == o.crashed
              && seenIds == old(seenIds)[categoryId := o.seen]
      ensures newCount == |emitted|
      ensures jwt == old(jwt)
    {
      ghost var cands := Candidates(products, categoryId, categoryName);
      var seen0 := SeenFor(categoryId);
      var seen := seen0;
      emitted, newCount, crashed := [], 0, false;
      var i := 0;
      while i < |products| && !crashed
        invariant 0 <= i <= |products|
        invariant Outcome(emitted, seen, crashed) == Absorb(seen0, cands[..i])
        invariant newCount == |emitted|
      {
        assert cands[..i + 1][..i] == cands[..i];
        var c := BuildItem(products[i], categoryId, categoryName, Source);
        assert c == cands[i];
        match c {
          case Discarded =>
          case Crashed =>
            crashed := true;
          case Normalized(it) =>
            if it.productId !in seen {
              seen := seen + {it.productId};
              newCount := newCount + 1;
              emitted := emitted + [it];
            }
        }
        i := i + 1;
      }
      if crashed {
        AbsorbStaysCrashed(seen0, cands, i);
      } else {
        assert cands[..i] == cands;
      }
      seenIds := seenIds[categoryId := seen];
    }

    /** parse_category_html: nothing without a truthy configuration (not even
        the API request); otherwise the embedded products, then the first API
        page when a token is present. */
    method ParseCategoryHtml(categoryId: int, categoryName: string, html: string, parse: string -> Option<Json>)
      returns (y: Yield)
      modifies this
      ensures var (expected, seen) := HtmlResult(old(SeenFor(categoryId)), old(jwt), categoryId, categoryName, html, parse);
              y == expected && seenIds == old(seenIds)[categoryId := seen]
      ensures jwt == old(jwt)
    {
      var config := ExtractPlatformConfiguration(html, parse);
      if !Truthy(config) {
        seenIds := seenIds[categoryId := SeenFor(categoryId)];
        return Yield([], None);
      }
      var products := EmbeddedProducts(config.value);
      if products.None? {
        seenIds := seenIds[categoryId := SeenFor(categoryId)];
        return Yield([], None);
      }
      var emitted, newCount, crashed := AbsorbProducts(categoryId, categoryName, products.value);
      if crashed || !HasToken(jwt) {
        return Yield(emitted, None);
      }
      return Yield(emitted, Some(ApiRequest(categoryId, 1, ApiLimit)));
    }

    /** parse_category_api: nothing on 401/403, an undecodable body or no
        products list; otherwise the new records, then the next page when
        the rule allows it. */
    method ParseCategoryApi(categoryId: int, categoryName: string, page: int, limit: int,
                            status: int, body: Option<Json>)
      returns (y: Yield)
      modifies this
      ensures var (expected, seen) := ApiResult(old(SeenFor(categoryId)), categoryId, categoryName, page, limit, status, body);
              y == expected && seenIds == old(seenIds)[categoryId := seen]
      ensures jwt == old(jwt)
    {
      if status == 401 || status == 403 || body.None? {
        seenIds := seenIds[categoryId := SeenFor(categoryId)];
        return Yield([], None);
      }
      var products := FindProductsList(body.value);
      if products == [] {
        seenIds := seenIds[categoryId := SeenFor(categoryId)];
        return Yield([], None);
      }
      var emitted, newCount, crashed := AbsorbProducts(categoryId, categoryName, products);
      if crashed || page >= MaxPagesPerCategory {
        return Yield(emitted, None);
      }
      if |products| >= limit && newCount > 0 {
        return Yield(emitted, Some(ApiRequest(categoryId, page + 1, limit)));
      }
      return Yield(emitted, None);
    }
  }

  // ---------------------------------------------------------------------------
  // Properties of the product loop

  /** Once a record has raised, the rest of the list is not looked at. */
  lemma {:induction false} AbsorbStaysCrashed(seen: set<int>, cands: seq<Candidate>, i: nat)
    requires i <= |cands| && Absorb(seen, cands[..i]).crashed
    ensures Absorb(seen, cands) == Absorb(seen, cands[..i])
    decreases |cands| - i
  {
    if i < |cands| {
      assert cands[..i + 1][..i] == cands[..i];
      AbsorbStaysCrashed(seen, cands, i + 1);
    } else {
      assert cands[..i] == cands;
    }
  }

  /** Dedup: the records yielded have pairwise distinct ids, none of which
      was in the seen set before; the seen set afterwards is the old one
      plus exactly those ids. */
  lemma {:induction false} AbsorbDedups(seen: set<int>, cands: seq<Candidate>)
    ensures var o := Absorb(seen, cands);
            && o.seen == seen + Ids(o.emitted)
            && (forall i :: 0 <= i < |o.emitted| ==> o.emitted[i].productId !in seen)
            && (forall i, j :: 0 <= i < j < |o.emitted| ==> o.emitted[i].productId != o.emitted[j].productId)
    decreases |cands|
  {
    if cands != [] {
      AbsorbDedups(seen, cands[..|cands| - 1]);
      AbsorbStepKeeps(seen, Absorb(seen, cands[..|cands| - 1]), cands[|cands| - 1]);
    }
  }

  /** No new record is lost: unless a record raised, every normalised
      candidate whose id was not seen before has its id among the records
      yielded. */
  lemma AbsorbComplete(seen: set<int>, cands: seq<Candidate>, i: nat)
    requires i < |cands| && cands[i].Normalized? && cands[i].item.productId !in seen
    requires !Absorb(seen, cands).crashed
    ensures cands[i].item.productId in Ids(Absorb(seen, cands).emitted)
  {
    AbsorbSeenHas(seen, cands, i);
    AbsorbDedups(seen, cands);
  }

  /** Without an error, the id of every normalised candidate ends up in
      the seen set. */
  lemma {:induction false} AbsorbSeenHas(seen: set<int>, cands: seq<Candidate>, i: nat)
    requires i < |cands| && cands[i].Normalized? && !Absorb(seen, cands).crashed
    ensures cands[i].item.productId in Absorb(seen, cands).seen
    decreases |cands|
  {
    var init := cands[..|cands| - 1];
    var o := Absorb(seen, init);
    assert !o.crashed;
    if i < |init| {
      assert init[i] == cands[i];
      AbsorbSeenHas(seen, init, i);
    }
  }

  /** Records come out in candidate order: those yielded for a prefix of
      the list are a prefix of those yielded for the whole list. */
  lemma {:induction false} AbsorbPrefix(seen: set<int>, cands: seq<Candidate>, k: nat)
    requires k <= |cands|
    ensures Absorb(seen, cands[..k]).emitted <= Absorb(seen, cands).emitted
    decreases |cands|
  {
    if k == |cands| {
      assert cands[..k] == cands;
    } else {
      var init := cands[..|cands| - 1];
      assert init[..k] == cands[..k];
      AbsorbPrefix(seen, init, k);
      var a := Absorb(seen, cands[..k]).emitted;
      var b := Absorb(seen, init).emitted;
      var c := Absorb(seen, cands).emitted;
      assert b <= c;
      assert a == b[..|a|] == c[..|b|][..|a|];
    }
  }

  /** One candidate keeps the dedup invariant. */
  lemma AbsorbStepKeeps(seen: set<int>, o: Outcome, c: Candidate)
    requires o.seen == seen + Ids(o.emitted)
    requires forall i :: 0 <= i < |o.emitted| ==> o.emitted[i].productId !in seen
    requires forall i, j :: 0 <= i < j < |o.emitted| ==> o.emitted[i].productId != o.emitted[j].productId
    ensures var p := AbsorbStep(o, c);
            && p.seen == seen + Ids(p.emitted)
            && (forall i :: 0 <= i < |p.emitted| ==> p.emitted[i].productId !in seen)
            && (forall i, j :: 0 <= i < j < |p.emitted| ==> p.emitted[i].productId != p.emitted[j].productId)
  {
    if !o.crashed && c.Normalized? && c.item.productId !in o.seen {
      AbsorbAdmitKeeps(seen, o, c.item);
    }
  }

  lemma AbsorbAdmitKeeps(seen: set<int>, o: Outcome, it: Item)
    requires o.seen == seen + Ids(o.emitted) && it.productId !in o.seen
    requires forall i :: 0 <= i < |o.emitted| ==> o.emitted[i].productId !in seen
    requires forall i, j :: 0 <= i < j < |o.emitted| ==> o.emitted[i].productId != o.emitted[j].productId
    ensures var e := o.emitted + [it];
            && o.seen + {it.productId} == seen + Ids(e)
            && (forall i :: 0 <= i < |e| ==> e[i].productId !in seen)
            && (forall i, j :: 0 <= i < j < |e| ==> e[i].productId != e[j].productId)
  {
    var e := o.emitted + [it];
    assert e[..|e| - 1] == o.emitted;
    forall i | 0 <= i < |o.emitted|
      ensures o.emitted[i].productId in o.seen
    {
      IdsContain(o.emitted, i);
    }
  }

  lemma {:induction false} IdsContain(items: seq<Item>, i: nat)
    requires i < |items|
    ensures items[i].productId in Ids(items)
    decreases |items|
  {
    if i < |items| - 1 {
      IdsContain(items[..|items| - 1], i);
    }
  }

  lemma {:induction false} IdsMember(items: seq<Item>, id: int)
    requires id in Ids(items)
    ensures exists i :: 0 <= i < |items| && items[i].productId == id
    decreases |items|
  {
    var init := items[..|items| - 1];
    if id != items[|items| - 1].productId {
      IdsMember(init, id);
      var i :| 0 <= i < |init| && init[i].productId == id;
      assert items[i] == init[i];
    }
  }

  /** Distinct ids make a set as large as the list. */
  lemma {:induction false} IdsCount(items: seq<Item>)
    requires forall i, j :: 0 <= i < j < |items| ==> items[i].productId != items[j].productId
    ensures |Ids(items)| == |items|
    decreases |items|
  {
    if items != [] {
      var init := items[..|items| - 1];
      IdsCount(init);
      if items[|items| - 1].productId in Ids(init) {
        IdsMember(init, items[|items| - 1].productId);
      }
    }
  }

  /** The seen set only grows, by exactly as many ids as records were
      yielded (new_count). */
  lemma AbsorbGrowsSeen(seen: set<int>, cands: seq<Candidate>)
    ensures var o := Absorb(seen, cands);
            seen <= o.seen && |o.seen - seen| == |o.emitted|
  {
    AbsorbDedups(seen, cands);
    var o := Absorb(seen, cands);
    IdsCount(o.emitted);
    forall x | x in Ids(o.emitted)
      ensures x !in seen
    {
      IdsMember(o.emitted, x);
    }
    assert o.seen - seen == Ids(o.emitted);
  }

  /** Every record yielded was normalised by BuildItem from a candidate of
      the list. */
  lemma {:induction false} AbsorbEmitsCandidates(seen: set<int>, cands: seq<Candidate>, i: nat)
    requires i < |Absorb(seen, cands).emitted|
    ensures exists j :: 0 <= j < |cands| && cands[j] == Normalized(Absorb(seen, cands).emitted[i])
    decreases |cands|
  {
    var init := cands[..|cands| - 1];
    var o := Absorb(seen, init);
    var c := cands[|cands| - 1];
    if i < |o.emitted| {
      AbsorbEmitsCandidates(seen, init, i);
      var j :| 0 <= j < |init| && init[j] == Normalized(o.emitted[i]);
      assert Absorb(seen, cands).emitted[i] == o.emitted[i];
      assert cands[j] == init[j];
    } else {
      assert c == Normalized(Absorb(seen, cands).emitted[i]);
    }
  }

  /** So every record a callback yields is well formed and belongs to the
      category in hand. */
  lemma EmittedRecordsWellFormed(seen: set<int>, products: seq<Json>, categoryId: int, categoryName: string, i: nat)
    requires i < |Absorb(seen, Candidates(products, categoryId, categoryName)).emitted|
    ensures var it := Absorb(seen, Candidates(products, categoryId, categoryName)).emitted[i];
            WellFormed(it) && it.categoryId == categoryId && it.categoryName == categoryName && it.source == Source
  {
    var cands := Candidates(products, categoryId, categoryName);
    AbsorbEmitsCandidates(seen, cands, i);
    var j :| 0 <= j < |cands| && cands[j] == Normalized(Absorb(seen, cands).emitted[i]);
    assert cands[j] == BuildItem(products[j], categoryId, categoryName, Source);
  }

  /** Two responses for one category in a row never yield the same id:
      the second starts from the seen set the first left. */
  lemma AbsorbTwiceDisjoint(seen: set<int>, first: seq<Candidate>, second: seq<Candidate>)
    ensures var o1 := Absorb(seen, first);
            var o2 := Absorb(o1.seen, second);
            forall i, j :: 0 <= i < |o1.emitted| && 0 <= j < |o2.emitted| ==>
              o1.emitted[i].productId != o2.emitted[j].productId
  {
    var o1 := Absorb(seen, first);
    AbsorbDedups(seen, first);
    AbsorbDedups(o1.seen, second);
    forall i | 0 <= i < |o1.emitted|
      ensures o1.emitted[i].productId in o1.seen
    {
      IdsContain(o1.emitted, i);
    }
  }

  /** Every candidate is discarded or carries an id already seen. */
  predicate AllStale(seen: set<int>, cands: seq<Candidate>) {
    forall i :: 0 <= i < |cands| ==> cands[i].Discarded? || (cands[i].Normalized? && cands[i].item.productId in seen)
  }

  /** A list whose every candidate is discarded or already seen yields
      nothing and leaves the seen set as it was. */
  lemma {:induction false} StaleListEmitsNothing(seen: set<int>, cands: seq<Candidate>)
    requires AllStale(seen, cands)
    ensures Absorb(seen, cands) == Outcome([], seen, false)
    decreases |cands|
  {
    if cands != [] {
      StaleListEmitsNothing(seen, cands[..|cands| - 1]);
    }
  }

  // ---------------------------------------------------------------------------
  // Properties of the callbacks

  /** The next page is requested exactly when the response was processed
      without an error, the products loop ran to the end, the page is below
      the ceiling, the list was full and something new came out; it is the
      next page number with the same limit. */
  lemma NextPageRule(seen: set<int>, categoryId: int, categoryName: string, page: int, limit: int,
                     status: int, body: Option<Json>)
    ensures var (y, _) := ApiResult(seen, categoryId, categoryName, page, limit, status, body);
            y.next.Some? <==>
              && status != 401 && status != 403 && body.Some?
              && var products := FindProductsList(body.value);
                 var o := Absorb(seen, Candidates(products, categoryId, categoryName));
                 && products != [] && !o.crashed
                 && page < MaxPagesPerCategory && |products| >= limit && |o.emitted| > 0
    ensures var (y, _) := ApiResult(seen, categoryId, categoryName, page, limit, status, body);
            y.next.Some? ==> y.next.value == ApiRequest(categoryId, page + 1, limit) && page + 1 <= MaxPagesPerCategory
  {
  }

  lemma NextPageBelowCeiling(seen: set<int>, categoryId: int, categoryName: string, page: int, limit: int,
                             status: int, body: Option<Json>)
    ensures ApiResult(seen, categoryId, categoryName, page, limit, status, body).0.next.Some? ==> page < MaxPagesPerCategory
  {
  }

  /** A full page that yields nothing new ends the walk. */
  lemma StalePageStops(seen: set<int>, categoryId: int, categoryName: string, page: int, limit: int,
                       status: int, body: Option<Json>)
    requires body.Some?
    requires AllStale(seen, Candidates(FindProductsList(body.value), categoryId, categoryName))
    ensures ApiResult(seen, categoryId, categoryName, page, limit, status, body) == (Yield([], None), seen)
  {
    StaleListEmitsNothing(seen, Candidates(FindProductsList(body.value), categoryId, categoryName));
  }

  /** A rejected token, an undecodable body or a response without a
      products list yields nothing and requests nothing. */
  lemma FailedResponseYieldsNothing(seen: set<int>, categoryId: int, categoryName: string, page: int, limit: int,
                                    status: int, body: Option<Json>)
    requires status == 401 || status == 403 || body.None? || FindProductsList(body.value) == []
    ensures ApiResult(seen, categoryId, categoryName, page, limit, status, body) == (Yield([], None), seen)
  {
  }

  /** Without a truthy configuration the page yields nothing, and requests
      nothing even when a token is at hand. */
  lemma MissingConfigStops(seen: set<int>, jwt: Option<string>, categoryId: int, categoryName: string,
                           html: string, parse: string -> Option<Json>)
    requires !Truthy(PlatformConfiguration(html, parse))
    ensures HtmlResult(seen, jwt, categoryId, categoryName, html, parse) == (Yield([], None), seen)
  {
  }

  /** The first API page is requested exactly when the configuration is a
      truthy dict whose products could be read, the products loop ran to
      the end and a token is at hand. */
  lemma FirstApiPageRule(seen: set<int>, jwt: Option<string>, categoryId: int, categoryName: string,
                         html: string, parse: string -> Option<Json>)
    ensures var (y, _) := HtmlResult(seen, jwt, categoryId, categoryName, html, parse);
            var config := PlatformConfiguration(html, parse);
            y.next.Some? <==>
              && Truthy(config) && config.value.JObj?
              && EmbeddedProducts(config.value).Some?
              && !Absorb(seen, Candidates(EmbeddedProducts(config.value).value, categoryId, categoryName)).crashed
              && HasToken(jwt)
    ensures var (y, _) := HtmlResult(seen, jwt, categoryId, categoryName, html, parse);
            y.next.Some? ==> y.next.value == ApiRequest(categoryId, 1, ApiLimit)
  {
  }

  /** A walk over one category's pages: each response answers the request
      the previous one made, from page `page` on, and `step` handles one
      response given the seen set and the page number. */
  function Walk(step: (set<int>, int, (int, Option<Json>)) -> (Yield, set<int>), seen: set<int>, page: int,
                responses: seq<(int, Option<Json>)>): seq<Item>
    decreases |responses|
  {
    if responses == [] then []
    else
      var r := step(seen, page, responses[0]);
      r.0.items + (if r.0.next.Some? then Walk(step, r.1, page + 1, responses[1..]) else [])
  }

  /** parse_category_api as a step of the walk. */
  function ApiStep(categoryId: int, categoryName: string): (set<int>, int, (int, Option<Json>)) -> (Yield, set<int>) {
    (seen: set<int>, page: int, response: (int, Option<Json>)) =>
      ApiResult(seen, categoryId, categoryName, page, ApiLimit, response.0, response.1)
  }

  /** The walk over one category's API pages. */
  function ApiWalk(seen: set<int>, categoryId: int, categoryName: string, page: int,
                   responses: seq<(int, Option<Json>)>): seq<Item>
  {
    Walk(ApiStep(categoryId, categoryName), seen, page, responses)
  }

  /** A step that never asks for a page past the ceiling. */
  ghost predicate StopsAtCeiling(step: (set<int>, int, (int, Option<Json>)) -> (Yield, set<int>)) {
    forall seen, page, response :: step(seen, page, response).0.next.Some? ==> page < MaxPagesPerCategory
  }

  lemma ApiStepStopsAtCeiling(categoryId: int, categoryName: string)
    ensures StopsAtCeiling(ApiStep(categoryId, categoryName))
  {
    forall seen, page, response
      ensures ApiStep(categoryId, categoryName)(seen, page, response).0.next.Some? ==> page < MaxPagesPerCategory
    {
      NextPageBelowCeiling(seen, categoryId, categoryName, page, ApiLimit, response.0, response.1);
    }
  }

  /** With such a step, a walk from page p reads at most 200 - p + 1
      responses. */
  lemma {:induction false} WalkBounded(step: (set<int>, int, (int, Option<Json>)) -> (Yield, set<int>),
                                       seen: set<int>, page: int, responses: seq<(int, Option<Json>)>)
    requires StopsAtCeiling(step)
    requires 1 <= page <= MaxPagesPerCategory && |responses| > MaxPagesPerCategory - page + 1
    ensures Walk(step, seen, page, responses) == Walk(step, seen, page, responses[..MaxPagesPerCategory - page + 1])
    decreases |responses|
  {
    var cut := responses[..MaxPagesPerCategory - page + 1];
    var r := step(seen, page, responses[0]);
    assert cut[0] == responses[0];
    if r.0.next.Some? {
      WalkBounded(step, r.1, page + 1, responses[1..]);
      assert cut[1..] == responses[1..][..MaxPagesPerCategory - (page + 1) + 1];
    }
  }

  /** The ceiling holds: a walk over the API pages from page p reads at
      most 200 - p + 1 responses, whatever follows them. */
  lemma ApiWalkBounded(seen: set<int>, categoryId: int, categoryName: string, page: int,
                       responses: seq<(int, Option<Json>)>)
    requires 1 <= page <= MaxPagesPerCategory && |responses| > MaxPagesPerCategory - page + 1
    ensures ApiWalk(seen, categoryId, categoryName, page, responses)
            == ApiWalk(seen, categoryId, categoryName, page, responses[..MaxPagesPerCategory - page + 1])
  {
    ApiStepStopsAtCeiling(categoryId, categoryName);
    WalkBounded(ApiStep(categoryId, categoryName), seen, page, responses);
  }

}
