/** ArbuzSpider._extract_platform_configuration: locate the JSON object
    assigned to `window.platformConfiguration` in a page and cut it out by
    counting braces, ignoring braces inside double-quoted strings. */
module ArbuzConfig {
  import opened Text
  import opened Json

  const Marker := "window.platformConfiguration"

  /** The scanner's three variables: brace depth, whether it is inside a
      double-quoted string, and whether the previous character in that
      string was a backslash. */
  datatype ScanState = ScanState(depth: int, inString: bool, escape: bool)

  const Initial := ScanState(0, false, false)

  /** One iteration of the scanning loop on character ch (the early return
      on a closing brace aside). */
  function Step(st: ScanState, ch: char): (r: ScanState)
    ensures st.inString ==> r.depth == st.depth
    ensures !st.inString && ch != '{' && ch != '}' ==> r.depth == st.depth
  {
    if st.inString then
      if st.escape then st.(escape := false)
      else if ch == '\\' then st.(escape := true)
      else if ch == '"' then st.(inString := false)
      else st
    else if ch == '"' then st.(inString := true)
    else if ch == '{' then st.(depth := st.depth + 1)
    else if ch == '}' then st.(depth := st.depth - 1)
    else st
  }

  /** The state after the loop has consumed html[start..k], read left to right. */
  function StateAfter(html: string, start: nat, k: nat): ScanState
    requires start <= k <= |html|
    decreases k
  {
    if k == start then Initial else Step(StateAfter(html, start, k - 1), html[k - 1])
  }

  /** The loop returns at index k: a closing brace outside any string that
      takes depth from 1 to 0. */
  predicate ClosesAt(html: string, start: nat, k: nat)
    requires start <= k
  {
    k < |html| && html[k] == '}'
    && !StateAfter(html, start, k).inString && StateAfter(html, start, k).depth == 1
  }

  /** The loop from index i in state st, as a tail-recursive function: the
      index of the brace at which it returns, or None when the text ends first. */
  function Scan(html: string, i: nat, st: ScanState): Option<nat>
    decreases |html| - i
  {
    if i >= |html| then None
    else if !st.inString && html[i] == '}' && st.depth - 1 == 0 then Some(i)
    else Scan(html, i + 1, Step(st, html[i]))
  }

  /** The index of the opening brace: the first `{` after the first `=` at
      or after the first occurrence of the marker. */
  function BraceStart(html: string): (r: Option<nat>)
    ensures r.Some? ==> r.value < |html| && html[r.value] == '{'
  {
    match Find(html, Marker, 0)
    case None => None
    case Some(idx) => BraceAfter(html, idx)
  }

  /** The first `{` after the first `=` at or after idx. */
  function BraceAfter(html: string, idx: nat): (r: Option<nat>)
    ensures r.Some? ==> r.value < |html| && html[r.value] == '{'
  {
    match Find(html, "=", idx)
    case None => None
    case Some(eq) =>
      match Find(html, "{", eq)
      case None => None
      case Some(b) => assert html[b..b + 1] == "{"; Some(b)
  }

  /** The text handed to json.loads, if the scan gets that far. */
  function ConfigText(html: string): Option<string> {
    match BraceStart(html)
    case None => None
    case Some(b) => BalancedFrom(html, b)
  }

  /** The text from the brace at b to the brace at which the scan returns. */
  function BalancedFrom(html: string, b: nat): Option<string> {
    match Scan(html, b, Initial)
    case None => None
    case Some(j) => if b <= j < |html| then Some(html[b..j + 1]) else None
  }

  /** _extract_platform_configuration, with json.loads as the partial
      function parse (None standing for a JSONDecodeError). */
  function PlatformConfiguration(html: string, parse: string -> Option<Json>): Option<Json> {
    match ConfigText(html)
    case None => None
    case Some(text) => parse(text)
  }

  // ---------------------------------------------------------------------------
  // The scanning loop

  /** The scanning loop of _extract_platform_configuration, returning the
      balanced text instead of parsing it. */
  method ExtractCandidate(html: string) returns (r: Option<string>)
    ensures r == ConfigText(html)
    ensures r.Some? ==> |r.value| >= 2 && r.value[0] == '{' && r.value[|r.value| - 1] == '}'
  {
    var b := BraceStart(html);
    if b.None? {
      return None;
    }
    r := CutBalanced(html, b.value);
  }

  /** The loop proper, from the opening brace at start. */
  method CutBalanced(html: string, start: nat) returns (r: Option<string>)
    requires start < |html| && html[start] == '{'
    ensures r == BalancedFrom(html, start)
    ensures r.Some? ==> |r.value| >= 2 && r.value[0] == '{' && r.value[|r.value| - 1] == '}'
  {
    var st := Initial;
    var i := start;
    while i < |html|
      invariant start <= i <= |html|
      invariant st == StateAfter(html, start, i)
      invariant Scan(html, i, st) == Scan(html, start, Initial)
      invariant i > start ==> st.depth >= 1
    {
      var ch := html[i];
      if !st.inString && ch == '}' && st.depth - 1 == 0 {
        assert i > start;
        return Some(html[start..i + 1]);
      }
      st := Step(st, ch);
      i := i + 1;
    }
    return None;
  }

  /** The whole extractor: the loop, then parse on the text it cut out. */
  method ExtractPlatformConfiguration(html: string, parse: string -> Option<Json>) returns (r: Option<Json>)
    ensures r == PlatformConfiguration(html, parse)
    ensures r.Some? ==> exists text :: ConfigText(html) == Some(text) && parse(text) == r
  {
    var text := ExtractCandidate(html);
    if text.None? {
      return None;
    }
    r := parse(text.value);
  }

  // ---------------------------------------------------------------------------
  // What the scan finds

  /** The tail-recursive loop agrees with the left-to-right reading: from
      any point it returns at the first later index where ClosesAt holds,
      and returns nothing when there is none. */
  lemma {:induction false} ScanFindsFirstClose(html: string, start: nat, i: nat)
    requires start <= i <= |html|
    ensures var r := Scan(html, i, StateAfter(html, start, i));
            && (r.Some? ==>
                  && i <= r.value && ClosesAt(html, start, r.value)
                  && forall k :: i <= k < r.value ==> !ClosesAt(html, start, k))
            && (r.None? ==> forall k :: i <= k < |html| ==> !ClosesAt(html, start, k))
    decreases |html| - i
  {
    if i < |html| {
      var st := StateAfter(html, start, i);
      if !(!st.inString && html[i] == '}' && st.depth - 1 == 0) {
        assert StateAfter(html, start, i + 1) == Step(st, html[i]);
        ScanFindsFirstClose(html, start, i + 1);
      }
    }
  }

  /** Between the opening brace and the first ClosesAt index the depth never
      drops below 1. */
  lemma {:induction false} DepthPositiveBeforeClose(html: string, start: nat, k: nat)
    requires start < k <= |html| && html[start] == '{'
    requires forall m :: start <= m < k ==> !ClosesAt(html, start, m)
    ensures StateAfter(html, start, k).depth >= 1
    decreases k
  {
    if k > start + 1 {
      DepthPositiveBeforeClose(html, start, k - 1);
      assert !ClosesAt(html, start, k - 1);
    }
  }

  /** The extractor gives None exactly in the four cases: no marker, no `=`
      at or after it, no `{` after that, or depth never back to 0. */
  lemma ConfigTextNoneCases(html: string)
    ensures ConfigText(html).None? <==>
              || Find(html, Marker, 0).None?
              || Find(html, "=", Find(html, Marker, 0).value).None?
              || Find(html, "{", Find(html, "=", Find(html, Marker, 0).value).value).None?
              || forall k :: BraceStart(html).value <= k < |html| ==> !ClosesAt(html, BraceStart(html).value, k)
  {
    var b := BraceStart(html);
    if b.Some? {
      ScanFindsFirstClose(html, b.value, b.value);
      var r := Scan(html, b.value, Initial);
      if r.None? {
        assert ConfigText(html).None?;
      } else {
        assert ClosesAt(html, b.value, r.value);
        assert ConfigText(html).Some?;
      }
    }
  }

  /** A successful extraction is the text from the opening brace to the first
      closing brace outside strings at which depth returns to 0; inside it
      the depth stays at least 1. */
  lemma ConfigTextIsFirstBalancedSpan(html: string)
    requires ConfigText(html).Some?
    ensures var b := BraceStart(html).value;
            var text := ConfigText(html).value;
            var j := b + |text| - 1;
            && b < j < |html| && text == html[b..j + 1]
            && text[0] == '{' && text[|text| - 1] == '}'
            && ClosesAt(html, b, j)
            && (forall k :: b <= k < j ==> !ClosesAt(html, b, k))
            && (forall k :: b < k <= j ==> StateAfter(html, b, k).depth >= 1)
  {
    var b := BraceStart(html).value;
    ScanFindsFirstClose(html, b, b);
    var j := Scan(html, b, Initial).value;
    assert StateAfter(html, b, b) == Initial;
    assert j != b;
    forall k | b < k <= j
      ensures StateAfter(html, b, k).depth >= 1
    {
      DepthPositiveBeforeClose(html, b, k);
    }
  }

  /** A brace inside a string does not count: in {"}"} the scan returns
      at the last brace. */
  lemma QuotedBraceIgnored()
    ensures Scan("{\"}\"}", 0, Initial) == Some(4)
  {
    var h := "{\"}\"}";
    assert Scan(h, 1, ScanState(1, false, false)) == Scan(h, 2, ScanState(1, true, false));
  }

  /** An escaped quote does not end a string: in {"\"}"} the scan returns
      at the last brace. */
  lemma EscapedQuoteIgnored()
    ensures Scan("{\"\\\"}\"}", 0, Initial) == Some(6)
  {
  }

  /** An unbalanced object gives nothing. */
  lemma UnbalancedGivesNothing()
    ensures Scan("{{}", 0, Initial) == None
  {
  }
}
