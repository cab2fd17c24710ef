/** The arbuz.kz record layer: coercing JSON values to ints, turning one
    product dict into an output record, and locating the products list
    inside an API response (egrocery_scraper/spiders/arbuz.py). */
module ArbuzProducts {
  import opened Text
  import opened Json

  /** One output row: the FEED_EXPORT_FIELDS of the spider. */
  datatype Item = Item(
    store: string,
    city: string,
    categoryName: string,
    categoryId: int,
    productId: int,
    productName: string,
    brand: Option<string>,
    priceKzt: Option<int>,
    currency: string,
    unit: Option<string>,
    source: string)

  /** What _build_item_from_product_dict makes of one candidate: nothing
      (it returns None), a record, or an AttributeError raised by `.strip()`
      on a truthy value that is not a string. */
  datatype Candidate = Discarded | Normalized(item: Item) | Crashed

  // ---------------------------------------------------------------------------
  // _to_int

  /** ArbuzSpider._to_int: an int or bool is taken as it is; a string gives
      the number its digits spell, in order, or None when it has no digit;
      None (and JSON null) gives None. */
  function ToInt(v: Option<Json>): (r: Option<int>)
    ensures IsNone(v) ==> r.None?
    ensures v.Some? && v.value.JNum? ==> r == Some(v.value.n)
    ensures v.Some? && v.value.JBool? ==> r == Some(if v.value.b then 1 else 0)
    ensures v.Some? && v.value.JStr? ==>
              (r.Some? <==> Digits(v.value.s) != [])
              && (r.Some? ==> r.value == DecimalValue(Digits(v.value.s)))
  {
    match v
    case None => None
    case Some(j) =>
      match j
      case JNull => None
      case JBool(b) => Some(if b then 1 else 0)
      case JNum(n) => Some(n)
      case JStr(s) => TextToInt(s)
      case _ => None
  }

  /** The string branch of _to_int: strip, keep the digits, read them. */
  function TextToInt(s: string): (r: Option<int>)
    ensures r.Some? <==> Digits(s) != []
    ensures r.Some? ==> r.value == DecimalValue(Digits(s))
  {
    var t := Strip(s);
    DigitsOfStrip(s);
    if t == [] then None
    else
      var ds := Digits(t);
      if ds == [] then None else Some(DecimalValue(ds))
  }

  /** On strings _to_int agrees with to_int_price: the strip it does first
      never changes the digits. */
  lemma ToIntAgreesWithToIntPrice(s: string)
    ensures var r := ToInt(Some(JStr(s)));
            (r.Some? <==> ToIntPrice(Some(s)).Some?)
            && (r.Some? ==> r.value == ToIntPrice(Some(s)).value)
  {
  }

  /** A number written out as text reads back as itself. */
  lemma ToIntReadsText(n: nat)
    ensures ToInt(Some(JStr(NatToString(n)))) == Some(n)
  {
    var d := NatToString(n);
    DigitsOfDigits(d);
    DecimalRoundTrip(n);
  }

  /** A sign is not a digit: the text "-5" reads as 5 (an int -5 stays
      -5, by ToInt's contract). */
  lemma ToIntDropsSignOfText(n: nat, s: string)
    requires s == ['-'] + NatToString(n)
    ensures ToInt(Some(JStr(s))) == Some(n)
  {
    SignedTextToInt(n, s);
  }

  lemma SignedTextToInt(n: nat, s: string)
    requires s == ['-'] + NatToString(n)
    ensures TextToInt(s) == Some(n)
  {
    var d := NatToString(n);
    DigitsOfDigits(d);
    DecimalRoundTrip(n);
    SignIsNoDigit(d);
    assert Digits(s) == d;
  }

  lemma SignIsNoDigit(d: string)
    ensures Digits(['-'] + d) == Digits(d)
  {
    var m := ['-'];
    assert Digits(m) == [] by {
      assert !IsDigit(m[0]) && m[1..] == [];
    }
    DigitsAppend(m, d);
  }

  // ---------------------------------------------------------------------------
  // _build_item_from_product_dict

  /** A text field stripped of surrounding whitespace, a falsy value
      counting as the empty text; a truthy value that is not a string has
      no strip method, so reading it raises AttributeError. */
  datatype Stripped = Stripped(text: string) | NotAString

  function StripField(v: Option<Json>): (r: Stripped)
    ensures !Truthy(v) ==> r == Stripped("")
    ensures r.Stripped? ==> Trimmed(r.text)
    ensures r.NotAString? <==> Truthy(v) && !v.value.JStr?
    ensures r.Stripped? && Truthy(v) ==> r.text == Strip(v.value.s)
  {
    if !Truthy(v) then Stripped("")
    else if v.value.JStr? then Stripped(Strip(v.value.s))
    else NotAString
  }

  /** str(j) for the scalar JSON values. Python's repr of a list or a dict
      is not modelled: None stands for it. */
  function PyStr(j: Json): Option<string> {
    match j
    case JNull => Some("None")
    case JBool(b) => Some(if b then "True" else "False")
    case JNum(n) => Some(IntToString(n))
    case JStr(s) => Some(s)
    case _ => None
  }

  /** The id: the "id" member, or "product_id" when that is falsy. */
  function IdField(ms: seq<Member>): Option<Json> {
    Or(Get(ms, "id"), Get(ms, "product_id"))
  }

  /** The name: the "name" member, or "title" when that is falsy. */
  function NameField(ms: seq<Member>): Option<Json> {
    Or(Get(ms, "name"), Get(ms, "title"))
  }

  /** The brand: the "brand" member, or "producer" when that is falsy. */
  function BrandField(ms: seq<Member>): Option<Json> {
    Or(Get(ms, "brand"), Get(ms, "producer"))
  }

  /** The price value: `price`, or `prices.price` when `price` is None and
      `prices` is a dict. */
  function PriceField(ms: seq<Member>): (r: Option<Json>)
    ensures !IsNone(Get(ms, "price")) ==> r == Get(ms, "price")
  {
    var price := Get(ms, "price");
    var prices := Get(ms, "prices");
    if IsNone(price) && prices.Some? && prices.value.JObj? then Get(prices.value.members, "price")
    else price
  }

  /** The unit: the first truthy of measure, unit and measure_unit, through
      str() and strip(), with an empty result as None. */
  function UnitField(ms: seq<Member>): (r: Option<string>)
    ensures r.Some? ==> r.value != [] && Trimmed(r.value)
    ensures var u := Or(Or(Get(ms, "measure"), Get(ms, "unit")), Get(ms, "measure_unit"));
            && (!Truthy(u) ==> r.None?)
            && (Truthy(u) && PyStr(u.value).None? ==> r.None?)
            && (Truthy(u) && PyStr(u.value).Some? ==>
                  r == (if AllSpace(PyStr(u.value).value) then None else Some(Strip(PyStr(u.value).value))))
  {
    var u := Or(Or(Get(ms, "measure"), Get(ms, "unit")), Get(ms, "measure_unit"));
    if !Truthy(u) then None
    else
      match PyStr(u.value)
      case None => None
      case Some(t) => var st := Strip(t); if st == [] then None else Some(st)
  }

  /** A record exactly as BuildItem makes one. */
  predicate WellFormed(it: Item) {
    && it.store == "arbuz" && it.city == "astana" && it.currency == "KZT"
    && it.productName != [] && Trimmed(it.productName)
    && (it.brand.Some? ==> it.brand.value != [] && Trimmed(it.brand.value))
    && (it.unit.Some? ==> it.unit.value != [] && Trimmed(it.unit.value))
  }

  /** ArbuzSpider._build_item_from_product_dict. A candidate is dropped when
      it is not a dict, its id does not resolve or its name is empty after
      stripping; a price that does not resolve only leaves priceKzt None. */
  function BuildItem(p: Json, categoryId: int, categoryName: string, source: string): (r: Candidate)
    ensures !p.JObj? ==> r == Discarded
    ensures r.Normalized? <==>
              && p.JObj?
              && ToInt(IdField(p.members)).Some?
              && StripField(NameField(p.members)).Stripped?
              && StripField(NameField(p.members)).text != []
              && StripField(BrandField(p.members)).Stripped?
    ensures r.Crashed? <==>
              && p.JObj?
              && ToInt(IdField(p.members)).Some?
              && (|| StripField(NameField(p.members)).NotAString?
                  || (&& StripField(NameField(p.members)).text != []
                      && StripField(BrandField(p.members)).NotAString?))
    ensures r.Normalized? ==>
              && WellFormed(r.item)
              && ToInt(IdField(p.members)) == Some(r.item.productId)
              && r.item.productName == StripField(NameField(p.members)).text
              && r.item.brand == (var b := StripField(BrandField(p.members)).text; if b == [] then None else Some(b))
              && r.item.priceKzt == ToInt(PriceField(p.members))
              && r.item.unit == UnitField(p.members)
              && r.item.categoryId == categoryId && r.item.categoryName == categoryName
              && r.item.source == source
  {
    if !p.JObj? then Discarded
    else
      var ms := p.members;
      var pid := ToInt(IdField(ms));
      if pid.None? then Discarded
      else
        match StripField(NameField(ms))
        case NotAString => Crashed
        case Stripped(name) =>
          if name == [] then Discarded
          else
            match StripField(BrandField(ms))
            case NotAString => Crashed
            case Stripped(brand) =>
              Normalized(Item(
                store := "arbuz",
                city := "astana",
                categoryName := categoryName,
                categoryId := categoryId,
                productId := pid.value,
                productName := name,
                brand := if brand == [] then None else Some(brand),
                priceKzt := ToInt(PriceField(ms)),
                currency := "KZT",
                unit := UnitField(ms),
                source := source))
  }

  /** A well-formed record written back as a product dict, under the keys
      BuildItem reads. */
  function AsProductDict(it: Item): Json {
    JObj([
      Member("id", JNum(it.productId)),
      Member("product_id", JNum(it.productId)),
      Member("name", JStr(it.productName)),
      Member("brand", if it.brand.Some? then JStr(it.brand.value) else JNull),
      Member("price", if it.priceKzt.Some? then JNum(it.priceKzt.value) else JNull),
      Member("measure", if it.unit.Some? then JStr(it.unit.value) else JNull)])
  }

  /** Normalising is idempotent: a record BuildItem produced, fed back in,
      comes out unchanged (ids and prices that are already ints stay put,
      trimmed texts stay trimmed). */
  lemma NormalizeTwice(it: Item)
    requires WellFormed(it)
    ensures BuildItem(AsProductDict(it), it.categoryId, it.categoryName, it.source) == Normalized(it)
  {
    var ms := AsProductDict(it).members;
    ProductDictFields(it);
    RereadName(it, ms);
    RereadBrand(it, ms);
    RereadUnit(it, ms);
    BuildFromFields(AsProductDict(it), it);
  }

  /** BuildItem on a dict whose fields already read as the record's. */
  lemma BuildFromFields(p: Json, it: Item)
    requires WellFormed(it) && p.JObj?
    requires ToInt(IdField(p.members)) == Some(it.productId)
    requires StripField(NameField(p.members)) == Stripped(it.productName)
    requires StripField(BrandField(p.members)) == Stripped(if it.brand.Some? then it.brand.value else "")
    requires UnitField(p.members) == it.unit
    requires ToInt(PriceField(p.members)) == it.priceKzt
    ensures BuildItem(p, it.categoryId, it.categoryName, it.source) == Normalized(it)
  {
  }

  lemma RereadName(it: Item, ms: seq<Member>)
    requires WellFormed(it)
    requires NameField(ms) == (if it.productName != [] then Some(JStr(it.productName)) else None)
    ensures StripField(NameField(ms)) == Stripped(it.productName)
  {
    StripTrimmed(it.productName);
  }

  lemma RereadBrand(it: Item, ms: seq<Member>)
    requires WellFormed(it)
    requires BrandField(ms) == (if it.brand.Some? && it.brand.value != [] then Some(JStr(it.brand.value)) else None)
    ensures StripField(BrandField(ms)) == Stripped(if it.brand.Some? then it.brand.value else "")
  {
    if it.brand.Some? {
      StripTrimmed(it.brand.value);
    }
  }

  lemma RereadUnit(it: Item, ms: seq<Member>)
    requires WellFormed(it)
    requires Or(Or(Get(ms, "measure"), Get(ms, "unit")), Get(ms, "measure_unit"))
             == (if it.unit.Some? && it.unit.value != [] then Some(JStr(it.unit.value)) else None)
    ensures UnitField(ms) == it.unit
  {
    if it.unit.Some? {
      StripTrimmed(it.unit.value);
    }
  }

  /** The fields BuildItem reads from AsProductDict(it). */
  lemma ProductDictFields(it: Item)
    ensures var ms := AsProductDict(it).members;
            && IdField(ms) == Some(JNum(it.productId))
            && NameField(ms) == (if it.productName != [] then Some(JStr(it.productName)) else None)
            && BrandField(ms) == (if it.brand.Some? && it.brand.value != [] then Some(JStr(it.brand.value)) else None)
            && PriceField(ms) == Some(if it.priceKzt.Some? then JNum(it.priceKzt.value) else JNull)
            && Or(Or(Get(ms, "measure"), Get(ms, "unit")), Get(ms, "measure_unit"))
               == (if it.unit.Some? && it.unit.value != [] then Some(JStr(it.unit.value)) else None)
  {
    ProductDictPresent(it);
    ProductDictAbsent(it);
  }

  lemma ProductDictPresent(it: Item)
    ensures var ms := AsProductDict(it).members;
            && Get(ms, "id") == Some(JNum(it.productId))
            && Get(ms, "product_id") == Some(JNum(it.productId))
            && Get(ms, "name") == Some(JStr(it.productName))
            && Get(ms, "brand") == Some(if it.brand.Some? then JStr(it.brand.value) else JNull)
            && Get(ms, "price") == Some(if it.priceKzt.Some? then JNum(it.priceKzt.value) else JNull)
            && Get(ms, "measure") == Some(if it.unit.Some? then JStr(it.unit.value) else JNull)
  {
    PresentKey(it, 0);
    PresentKey(it, 1);
    PresentKey(it, 2);
    PresentKey(it, 3);
    PresentKey(it, 4);
    PresentKey(it, 5);
  }

  /** Each key of the written-back dict reads the member it was written with. */
  lemma PresentKey(it: Item, i: nat)
    requires i < |ProductKeys|
    ensures Get(AsProductDict(it).members, ProductKeys[i]) == Some(AsProductDict(it).members[i].value)
  {
    var ms := AsProductDict(it).members;
    assert forall j :: 0 <= j < |ms| ==> ms[j].key == ProductKeys[j];
    assert forall j :: 0 <= j < i ==> ProductKeys[j] != ProductKeys[i];
    GetAt(ms, i, ProductKeys[i]);
  }

  lemma ProductDictAbsent(it: Item)
    ensures var ms := AsProductDict(it).members;
            && Get(ms, "prices") == None && Get(ms, "unit") == None && Get(ms, "measure_unit") == None
            && Get(ms, "producer") == None && Get(ms, "title") == None
  {
    AbsentKey(it, "prices");
    AbsentKey(it, "unit");
    AbsentKey(it, "measure_unit");
    AbsentKey(it, "producer");
    AbsentKey(it, "title");
  }

  /** The keys of the written-back dict, in order. */
  const ProductKeys: seq<string> := ["id", "product_id", "name", "brand", "price", "measure"]

  /** A key the written-back dict does not carry reads as absent. */
  lemma AbsentKey(it: Item, k: string)
    requires k !in ProductKeys
    ensures Get(AsProductDict(it).members, k) == None
  {
    var ms := AsProductDict(it).members;
    assert forall j :: 0 <= j < |ms| ==> ms[j].key == ProductKeys[j];
    GetAbsent(ms, k);
  }

  /** The value under the first member whose key is k. */
  lemma {:induction false} GetAt(ms: seq<Member>, i: nat, k: string)
    requires i < |ms| && ms[i].key == k
    requires forall j :: 0 <= j < i ==> ms[j].key != k
    ensures Get(ms, k) == Some(ms[i].value)
  {
    if i > 0 {
      GetAt(ms[1..], i - 1, k);
    }
  }

  /** `price` wins whenever it is not None, even when it does not resolve;
      `prices.price` is read only when `price` is None. A price that does
      not resolve never discards the record. */
  lemma PriceFallback(ms: seq<Member>, categoryId: int, categoryName: string, source: string)
    requires IsNone(Get(ms, "price"))
    ensures var prices := Get(ms, "prices");
            PriceField(ms) == (if prices.Some? && prices.value.JObj? then Get(prices.value.members, "price") else Get(ms, "price"))
    ensures var r := BuildItem(JObj(ms), categoryId, categoryName, source);
            r.Normalized? && ToInt(PriceField(ms)).None? ==> r.item.priceKzt.None?
  {
  }

  // ---------------------------------------------------------------------------
  // _find_products_list

  /** The keys looked at, in this order, before any deeper search. */
  const PriorityKeys: seq<string> := ["data", "items", "products", "result"]

  /** A non-empty list whose first element is a dict. */
  predicate ListOfDicts(v: Option<Json>) {
    v.Some? && v.value.JArr? && |v.value.items| > 0 && v.value.items[0].JObj?
  }

  /** A bare list qualifies when its first element is a dict with an id or a name key. */
  predicate ProductsLike(xs: seq<Json>) {
    |xs| > 0 && xs[0].JObj? && (HasKey(xs[0].members, "id") || HasKey(xs[0].members, "name"))
  }

  /** The list under the first of keys whose value is a non-empty list of dicts. */
  function FirstPriorityList(ms: seq<Member>, keys: seq<string>): (r: seq<Json>)
    ensures r == [] || exists i :: 0 <= i < |keys| && ListOfDicts(Get(ms, keys[i])) && Get(ms, keys[i]).value.items == r
    ensures r == [] <==> forall i :: 0 <= i < |keys| ==> !ListOfDicts(Get(ms, keys[i]))
  {
    if keys == [] then []
    else
      var v := Get(ms, keys[0]);
      if ListOfDicts(v) then v.value.items
      else
        var r := FirstPriorityList(ms, keys[1..]);
        assert forall i :: 1 <= i < |keys| ==> keys[i] == keys[1..][i - 1];
        r
  }

  /** ArbuzSpider._find_products_list: either nothing, or a non-empty list
      whose first element is a dict. A bare list is taken exactly when it
      looks like a list of products; in a dict the priority keys come
      first, then the search over the values in order (FindInValuesFirst);
      any other value gives nothing. */
  function FindProductsList(v: Json): (r: seq<Json>)
    ensures r == [] || r[0].JObj?
    ensures v.JArr? ==> (r != [] <==> ProductsLike(v.items)) && (r != [] ==> r == v.items)
    ensures v.JObj? && FirstPriorityList(v.members, PriorityKeys) != [] ==> r == FirstPriorityList(v.members, PriorityKeys)
    ensures v.JObj? && FirstPriorityList(v.members, PriorityKeys) == [] ==> r == FindInValues(v, 0)
    ensures !v.JArr? && !v.JObj? ==> r == []
    decreases v, 1
  {
    match v
    case JArr(xs) => if ProductsLike(xs) then xs else []
    case JObj(ms) =>
      var hit := FirstPriorityList(ms, PriorityKeys);
      if hit != [] then hit else FindInValues(v, 0)
    case _ => []
  }

  /** The depth-first part: the first non-empty result over the dict's
      values from index i on, in insertion order. */
  function FindInValues(v: Json, i: nat): (r: seq<Json>)
    requires v.JObj? && i <= |v.members|
    ensures r == [] || r[0].JObj?
    decreases v, 0, |v.members| - i
  {
    if i == |v.members| then []
    else
      var found := FindProductsList(v.members[i].value);
      if found != [] then found else FindInValues(v, i + 1)
  }

  /** xs is a list the search accepts somewhere in v: v itself when it is
      a products-like list, the value under one of v's priority keys when
      that is a non-empty list of dicts, or such a list inside one of v's
      values (the search never looks inside a list's elements). */
  ghost predicate Qualifying(v: Json, xs: seq<Json>)
    decreases v
  {
    || (v == JArr(xs) && ProductsLike(xs))
    || (v.JObj? && exists k :: 0 <= k < |PriorityKeys| && Get(v.members, PriorityKeys[k]) == Some(JArr(xs)) && ListOfDicts(Some(JArr(xs))))
    || (v.JObj? && exists i :: 0 <= i < |v.members| && Qualifying(v.members[i].value, xs))
  }

  /** Whatever the search returns is a list it accepts inside the response. */
  lemma {:induction false} FoundListQualifies(v: Json)
    ensures FindProductsList(v) != [] ==> Qualifying(v, FindProductsList(v))
    decreases v, 1
  {
    match v
    case JObj(ms) =>
      var hit := FirstPriorityList(ms, PriorityKeys);
      if hit != [] {
        var k :| 0 <= k < |PriorityKeys| && ListOfDicts(Get(ms, PriorityKeys[k])) && Get(ms, PriorityKeys[k]).value.items == hit;
        assert Get(ms, PriorityKeys[k]) == Some(JArr(hit));
      } else {
        ValuesQualify(v, 0);
      }
    case _ =>
  }

  lemma {:induction false} ValuesQualify(v: Json, i: nat)
    requires v.JObj? && i <= |v.members|
    ensures FindInValues(v, i) != [] ==> Qualifying(v, FindInValues(v, i))
    decreases v, 0, |v.members| - i
  {
    if i < |v.members| {
      var found := FindProductsList(v.members[i].value);
      if found != [] {
        FoundListQualifies(v.members[i].value);
      } else {
        ValuesQualify(v, i + 1);
      }
    }
  }

  /** The deeper search takes the first value, in insertion order, where
      the search succeeds, and fails only when it fails at every value. */
  lemma FindInValuesFirst(v: Json, i: nat)
    requires v.JObj? && i <= |v.members|
    ensures FindInValues(v, i) == [] <==> forall k :: i <= k < |v.members| ==> FindProductsList(v.members[k].value) == []
    ensures FindInValues(v, i) != [] ==>
              exists j :: i <= j < |v.members| && FindInValues(v, i) == FindProductsList(v.members[j].value)
                && forall k :: i <= k < j ==> FindProductsList(v.members[k].value) == []
  {
    var rs := ValueResults(v);
    FindInValuesIsFirstNonEmpty(v, i);
    FirstNonEmptyIs(rs, i);
  }

  /** The results of the search on each of a dict's values, in order. */
  function ValueResults(v: Json): (r: seq<seq<Json>>)
    requires v.JObj?
    ensures |r| == |v.members| && forall k :: 0 <= k < |r| ==> r[k] == FindProductsList(v.members[k].value)
  {
    seq(|v.members|, k requires 0 <= k < |v.members| => FindProductsList(v.members[k].value))
  }

  /** The first non-empty entry of rs from i on, or [] when there is none. */
  function FirstNonEmpty(rs: seq<seq<Json>>, i: nat): seq<Json>
    requires i <= |rs|
    decreases |rs| - i
  {
    if i == |rs| then [] else if rs[i] != [] then rs[i] else FirstNonEmpty(rs, i + 1)
  }

  lemma {:induction false} FirstNonEmptyIs(rs: seq<seq<Json>>, i: nat)
    requires i <= |rs|
    ensures FirstNonEmpty(rs, i) == [] <==> forall k :: i <= k < |rs| ==> rs[k] == []
    ensures FirstNonEmpty(rs, i) != [] ==>
              exists j :: i <= j < |rs| && FirstNonEmpty(rs, i) == rs[j] && forall k :: i <= k < j ==> rs[k] == []
    decreases |rs| - i
  {
    if i < |rs| {
      if rs[i] == [] {
        FirstNonEmptyIs(rs, i + 1);
      }
    }
  }

  lemma {:induction false} FindInValuesIsFirstNonEmpty(v: Json, i: nat)
    requires v.JObj? && i <= |v.members|
    ensures FindInValues(v, i) == FirstNonEmpty(ValueResults(v), i)
    decreases |v.members| - i
  {
    if i < |v.members| {
      FindInValuesStep(v, i);
      FindInValuesIsFirstNonEmpty(v, i + 1);
    }
  }

  lemma FindInValuesStep(v: Json, i: nat)
    requires v.JObj? && i < |v.members|
    ensures var found := FindProductsList(v.members[i].value);
            FindInValues(v, i) == if found != [] then found else FindInValues(v, i + 1)
  {
  }

  /** The search fails only when the response holds no list it would
      accept: whenever one exists, some list is returned. */
  lemma {:induction false} FindComplete(v: Json, xs: seq<Json>)
    requires Qualifying(v, xs)
    ensures FindProductsList(v) != []
    decreases v
  {
    if v.JObj? && FirstPriorityList(v.members, PriorityKeys) == [] {
      var i :| 0 <= i < |v.members| && Qualifying(v.members[i].value, xs);
      FindComplete(v.members[i].value, xs);
      FindInValuesFirst(v, 0);
    }
  }

  /** The priority keys win over the deeper search, in their fixed order,
      and need only a dict first element (no id or name check). */
  lemma PriorityKeysFirst(ms: seq<Member>, k: nat)
    requires k < |PriorityKeys| && ListOfDicts(Get(ms, PriorityKeys[k]))
    requires forall j :: 0 <= j < k ==> !ListOfDicts(Get(ms, PriorityKeys[j]))
    ensures FindProductsList(JObj(ms)) == Get(ms, PriorityKeys[k]).value.items
  {
    FirstListAt(ms, PriorityKeys, k);
  }

  lemma {:induction false} FirstListAt(ms: seq<Member>, keys: seq<string>, k: nat)
    requires k < |keys| && ListOfDicts(Get(ms, keys[k]))
    requires forall j :: 0 <= j < k ==> !ListOfDicts(Get(ms, keys[j]))
    ensures FirstPriorityList(ms, keys) == Get(ms, keys[k]).value.items
  {
    if k > 0 {
      assert keys[1..][k - 1] == keys[k];
      FirstListAt(ms, keys[1..], k - 1);
    }
  }
}
