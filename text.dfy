/** Character classes and the string operations of Python's str and re
    that the three spiders rely on, restated over seq<char>. */
module Text {

  datatype Option<+T> = None | Some(value: T)

  /** An ASCII decimal digit (what \d, str.isdigit and int() accept here). */
  predicate IsDigit(c: char) {
    '0' <= c <= '9'
  }

  /** Python's whitespace set: the characters str.isspace accepts, which is
      also what str.strip(), int() and the pattern \s treat as whitespace. */
  predicate IsSpace(c: char) {
    || c == ' '
    || '\t' <= c <= '\r'
    || '\U{1C}' <= c <= '\U{1F}'
    || c == '\U{85}' || c == '\U{A0}' || c == '\U{1680}'
    || '\U{2000}' <= c <= '\U{200A}'
    || c == '\U{2028}' || c == '\U{2029}' || c == '\U{202F}'
    || c == '\U{205F}' || c == '\U{3000}'
  }

  predicate AllDigits(s: string) {
    forall i :: 0 <= i < |s| ==> IsDigit(s[i])
  }

  predicate AllSpace(s: string) {
    forall i :: 0 <= i < |s| ==> IsSpace(s[i])
  }

  /** No whitespace at either end. */
  predicate Trimmed(s: string) {
    s == [] || (!IsSpace(s[0]) && !IsSpace(s[|s| - 1]))
  }

  /** Every whitespace character is a plain space and none follows another. */
  predicate Squashed(s: string) {
    forall i :: 0 <= i < |s| && IsSpace(s[i]) ==> s[i] == ' ' && (i + 1 < |s| ==> !IsSpace(s[i + 1]))
  }

  // ---------------------------------------------------------------------------
  // Digits and decimal numbers

  /** re.sub(r"[^\d]", "", s): the digits of s, in order. */
  function Digits(s: string): (r: string)
    ensures AllDigits(r) && |r| <= |s|
  {
    if s == [] then [] else (if IsDigit(s[0]) then [s[0]] else []) + Digits(s[1..])
  }

  lemma {:induction false} DigitsAppend(a: string, b: string)
    ensures Digits(a + b) == Digits(a) + Digits(b)
  {
    if a == [] {
      assert a + b == b;
    } else {
      assert (a + b)[1..] == a[1..] + b;
      DigitsAppend(a[1..], b);
    }
  }

  /** Digits keeps a digit string whole, so Digits is idempotent. */
  lemma {:induction false} DigitsOfDigits(s: string)
    requires AllDigits(s)
    ensures Digits(s) == s
  {
    if s != [] {
      DigitsOfDigits(s[1..]);
    }
  }

  lemma {:induction false} DigitsOfSpace(s: string)
    requires AllSpace(s)
    ensures Digits(s) == []
  {
    if s != [] {
      DigitsOfSpace(s[1..]);
    }
  }

  /** The character of a digit value. */
  function DigitChar(d: nat): (c: char)
    requires d < 10
    ensures IsDigit(c) && c as int - '0' as int == d
  {
    ('0' as int + d) as char
  }

  /** int(ds) for a string of ASCII digits (leading zeros allowed). */
  function DecimalValue(ds: string): nat
    requires AllDigits(ds)
  {
    if ds == [] then 0 else 10 * DecimalValue(ds[..|ds| - 1]) + (ds[|ds| - 1] as int - '0' as int)
  }

  /** str(n) for a non-negative int. */
  function NatToString(n: nat): (s: string)
    ensures AllDigits(s) && s != []
  {
    if n < 10 then [DigitChar(n)] else NatToString(n / 10) + [DigitChar(n % 10)]
  }

  /** str(i) for any int. */
  function IntToString(i: int): (s: string)
    ensures s != [] && (i >= 0 <==> AllDigits(s))
  {
    if i < 0 then
      var s := "-" + NatToString(-i);
      assert !IsDigit(s[0]);
      s
    else NatToString(i)
  }

  /** int() reads back what str() wrote. */
  lemma {:induction false} DecimalRoundTrip(n: nat)
    ensures DecimalValue(NatToString(n)) == n
  {
    if n >= 10 {
      var s := NatToString(n);
      assert s[..|s| - 1] == NatToString(n / 10);
      DecimalRoundTrip(n / 10);
    }
  }

  // ---------------------------------------------------------------------------
  // Stripping and whitespace runs

  /** The end of the whitespace run that starts at i. */
  function SpaceRunEnd(s: string, i: nat): (j: nat)
    requires i <= |s|
    ensures i <= j <= |s|
    ensures forall k :: i <= k < j ==> IsSpace(s[k])
    ensures j == |s| || !IsSpace(s[j])
    decreases |s| - i
  {
    if i < |s| && IsSpace(s[i]) then SpaceRunEnd(s, i + 1) else i
  }

  /** The start of the whitespace run that ends at j. */
  function SpaceRunStart(s: string, j: nat): (i: nat)
    requires j <= |s|
    ensures i <= j
    ensures forall k :: i <= k < j ==> IsSpace(s[k])
    ensures i == 0 || !IsSpace(s[i - 1])
  {
    if j > 0 && IsSpace(s[j - 1]) then SpaceRunStart(s, j - 1) else j
  }

  /** str.lstrip() */
  function LStrip(s: string): (r: string)
    ensures |r| <= |s| && r == s[|s| - |r|..]
    ensures r == [] || !IsSpace(r[0])
    ensures forall i :: 0 <= i < |s| - |r| ==> IsSpace(s[i])
  {
    s[SpaceRunEnd(s, 0)..]
  }

  /** str.rstrip() */
  function RStrip(s: string): (r: string)
    ensures |r| <= |s| && r == s[..|r|]
    ensures r == [] || !IsSpace(r[|r| - 1])
    ensures forall i :: |r| <= i < |s| ==> IsSpace(s[i])
  {
    s[..SpaceRunStart(s, |s|)]
  }

  /** str.strip(): the slice of s between its leading and its trailing
      whitespace, empty exactly when s is all whitespace. */
  function Strip(s: string): (r: string)
    ensures Trimmed(r)
    ensures r == [] <==> AllSpace(s)
    ensures SpaceRunEnd(s, 0) + |r| <= |s| && r == s[SpaceRunEnd(s, 0)..SpaceRunEnd(s, 0) + |r|]
    ensures AllSpace(s[..SpaceRunEnd(s, 0)]) && AllSpace(s[SpaceRunEnd(s, 0) + |r|..])
  {
    var a := SpaceRunEnd(s, 0);
    var b := SpaceRunStart(s, |s|);
    if a == |s| then []
    else
      assert a < b by {
        assert !IsSpace(s[a]);
      }
      s[a..b]
  }

  /** s is its leading whitespace, its stripped text and its trailing
      whitespace, in that order. */
  lemma StripSplit(s: string)
    ensures var a := SpaceRunEnd(s, 0);
      s == s[..a] + Strip(s) + s[a + |Strip(s)|..]
  {
    var a := SpaceRunEnd(s, 0);
    var r := Strip(s);
    var e := a + |r|;
    assert r == s[a..e];
    SliceSplit(s, a, e);
  }

  lemma SliceSplit(s: string, a: nat, e: nat)
    requires a <= e <= |s|
    ensures s == s[..a] + s[a..e] + s[e..]
  {
    assert s[..a] + s[a..e] == s[..e];
  }

  /** Whitespace holds no digits, so stripping first changes no digit. */
  lemma DigitsOfStrip(s: string)
    ensures Digits(Strip(s)) == Digits(s)
  {
    var a := SpaceRunEnd(s, 0);
    var r := Strip(s);
    StripSplit(s);
    DigitsAppend(s[..a] + r, s[a + |r|..]);
    DigitsAppend(s[..a], r);
    DigitsOfSpace(s[..a]);
    DigitsOfSpace(s[a + |r|..]);
  }

  // ---------------------------------------------------------------------------
  // The non-whitespace content of a text

  /** The characters of s that are not whitespace, in order: what stripping
      and collapsing whitespace leave untouched. */
  function NonSpace(s: string): (r: string)
    ensures |r| <= |s|
    ensures forall i :: 0 <= i < |r| ==> !IsSpace(r[i])
  {
    if s == [] then [] else (if IsSpace(s[0]) then [] else [s[0]]) + NonSpace(s[1..])
  }

  lemma {:induction false} NonSpaceAppend(a: string, b: string)
    ensures NonSpace(a + b) == NonSpace(a) + NonSpace(b)
  {
    if a == [] {
      assert a + b == b;
    } else {
      assert (a + b)[1..] == a[1..] + b;
      NonSpaceAppend(a[1..], b);
    }
  }

  lemma {:induction false} NonSpaceOfSpace(s: string)
    requires AllSpace(s)
    ensures NonSpace(s) == []
  {
    if s != [] {
      NonSpaceOfSpace(s[1..]);
    }
  }

  /** Stripping removes whitespace only. */
  lemma NonSpaceOfStrip(s: string)
    ensures NonSpace(Strip(s)) == NonSpace(s)
  {
    var a := SpaceRunEnd(s, 0);
    var r := Strip(s);
    StripSplit(s);
    NonSpaceAppend(s[..a] + r, s[a + |r|..]);
    NonSpaceAppend(s[..a], r);
    NonSpaceOfSpace(s[..a]);
    NonSpaceOfSpace(s[a + |r|..]);
  }

  /** Left-stripping removes whitespace only. */
  lemma NonSpaceOfLStrip(s: string)
    ensures NonSpace(LStrip(s)) == NonSpace(s)
  {
    var t := LStrip(s);
    var a := |s| - |t|;
    assert s == s[..a] + t;
    NonSpaceAppend(s[..a], t);
    NonSpaceOfSpace(s[..a]);
  }

  /** Stripping a trimmed string changes nothing; so Strip is idempotent. */
  lemma StripTrimmed(s: string)
    requires Trimmed(s)
    ensures Strip(s) == s
  {
    if s != [] {
      assert SpaceRunEnd(s, 0) == 0;
      assert SpaceRunStart(s, |s|) == |s|;
      assert s[0..|s|] == s;
    }
  }

  lemma StripIdempotent(s: string)
    ensures Strip(Strip(s)) == Strip(s)
  {
    StripTrimmed(Strip(s));
  }

  /** str.rstrip(c) for one character c. */
  function RStripChar(s: string, c: char): (r: string)
    ensures |r| <= |s| && r == s[..|r|]
    ensures r == [] || r[|r| - 1] != c
    ensures forall i :: |r| <= i < |s| ==> s[i] == c
  {
    if s != [] && s[|s| - 1] == c then RStripChar(s[..|s| - 1], c) else s
  }

  /** re.sub(r"\s+", " ", s): every maximal run of whitespace becomes one space. */
  function Squash(s: string): (r: string)
    ensures Squashed(r) && |r| <= |s|
    ensures s != [] ==> r != [] && r[0] == (if IsSpace(s[0]) then ' ' else s[0])
    ensures AllSpace(r) <==> AllSpace(s)
    decreases |s|
  {
    if s == [] then []
    else if IsSpace(s[0]) then
      var t := LStrip(s);
      var rest := Squash(t);
      assert AllSpace(t) <==> t == [] by {
        if t != [] { assert !IsSpace(t[0]); }
      }
      assert AllSpace(s) <==> t == [] by {
        if t != [] { assert s[|s| - |t|] == t[0]; }
      }
      assert rest == [] <==> t == [];
      var r := " " + rest;
      assert AllSpace(r) <==> rest == [] by {
        if rest != [] { assert r[1] == rest[0]; }
      }
      r
    else
      var rest := Squash(s[1..]);
      [s[0]] + rest
  }

  lemma {:induction false} SquashedSlice(s: string, i: nat, j: nat)
    requires Squashed(s) && i <= j <= |s|
    ensures Squashed(s[i..j])
  {
    var t := s[i..j];
    forall k | 0 <= k < |t| && IsSpace(t[k])
      ensures t[k] == ' ' && (k + 1 < |t| ==> !IsSpace(t[k + 1]))
    {
      assert t[k] == s[i + k];
      if k + 1 < |t| {
        assert t[k + 1] == s[i + k + 1];
      }
    }
  }

  /** A squashed string has no runs left to collapse. */
  lemma {:induction false} SquashSquashed(s: string)
    requires Squashed(s)
    ensures Squash(s) == s
    decreases |s|
  {
    if s != [] {
      var tail := s[1..];
      SquashedSlice(s, 1, |s|);
      SquashSquashed(tail);
      if IsSpace(s[0]) {
        assert s[0] == ' ' && (tail == [] || !IsSpace(tail[0])) by {
          assert 0 < |s| && IsSpace(s[0]);
          if tail != [] { assert tail[0] == s[1]; }
        }
        LStripSpaceThen(s);
      }
      assert s == [s[0]] + tail;
    }
  }

  /** re.sub(r"\s+", " ", s).strip(): runs of whitespace become one space
      and none is left at either end. */
  function Collapse(s: string): (r: string)
    ensures Trimmed(r) && Squashed(r)
    ensures r == [] <==> AllSpace(s)
    ensures NonSpace(r) == NonSpace(s)
  {
    var q := Squash(s);
    StripSquashed(q);
    NonSpaceOfSquash(s);
    NonSpaceOfStrip(q);
    Strip(q)
  }

  /** Squashing rewrites whitespace only. */
  lemma {:induction false} NonSpaceOfSquash(s: string)
    ensures NonSpace(Squash(s)) == NonSpace(s)
    decreases |s|
  {
    if s != [] {
      var r := Squash(s);
      if IsSpace(s[0]) {
        var t := LStrip(s);
        NonSpaceOfSquash(t);
        NonSpaceOfLStrip(s);
        assert r == " " + Squash(t) && r[1..] == Squash(t);
      } else {
        NonSpaceOfSquash(s[1..]);
        assert r == [s[0]] + Squash(s[1..]) && r[1..] == Squash(s[1..]);
      }
    }
  }

  /** Stripping keeps single spaces single. */
  lemma StripSquashed(q: string)
    requires Squashed(q)
    ensures Squashed(Strip(q))
  {
    var a := SpaceRunEnd(q, 0);
    if a < |q| {
      SquashedSlice(q, a, SpaceRunStart(q, |q|));
    }
  }

  /** Collapsing twice is collapsing once. */
  lemma CollapseIdempotent(s: string)
    ensures Collapse(Collapse(s)) == Collapse(s)
  {
    var c := Collapse(s);
    SquashSquashed(c);
    StripTrimmed(c);
  }

  lemma LStripSpaceThen(s: string)
    requires |s| > 0 && IsSpace(s[0]) && (|s| == 1 || !IsSpace(s[1]))
    ensures LStrip(s) == s[1..]
  {
    assert SpaceRunEnd(s, 0) == SpaceRunEnd(s, 1) == 1;
  }

  // ---------------------------------------------------------------------------
  // Searching and splitting

  /** p occurs in s at index i. */
  predicate OccursAt(s: string, p: string, i: nat) {
    i + |p| <= |s| && s[i..i + |p|] == p
  }

  /** s.find(p, start): the least index at or after start where p occurs. */
  function Find(s: string, p: string, start: nat): (r: Option<nat>)
    ensures r.Some? ==> start <= r.value && OccursAt(s, p, r.value)
    ensures forall k :: start <= k && (r.None? || k < r.value) ==> !OccursAt(s, p, k)
    decreases |s| - start
  {
    if start + |p| > |s| then None
    else if OccursAt(s, p, start) then Some(start)
    else Find(s, p, start + 1)
  }

  /** p in s */
  predicate Contains(s: string, p: string) {
    Find(s, p, 0).Some?
  }

  predicate StartsWith(s: string, p: string) {
    OccursAt(s, p, 0)
  }

  predicate EndsWith(s: string, p: string) {
    |p| <= |s| && s[|s| - |p|..] == p
  }

  /** s.split(c)[0]: the text before the first c. */
  function BeforeFirst(s: string, c: char): (r: string)
    ensures |r| <= |s| && r == s[..|r|] && c !in r
    ensures |r| < |s| ==> s[|r|] == c
  {
    if s == [] || s[0] == c then [] else [s[0]] + BeforeFirst(s[1..], c)
  }

  /** s.split(c)[-1]: the text after the last c. */
  function AfterLast(s: string, c: char): (r: string)
    ensures |r| <= |s| && r == s[|s| - |r|..] && c !in r
    ensures |r| < |s| ==> s[|s| - |r| - 1] == c
  {
    if s == [] || s[|s| - 1] == c then [] else AfterLast(s[..|s| - 1], c) + [s[|s| - 1]]
  }

  /** The longest run of digits that starts at index i. */
  function DigitRun(s: string, i: nat): (r: string)
    requires i <= |s|
    ensures AllDigits(r) && i + |r| <= |s| && r == s[i..i + |r|]
    ensures i + |r| == |s| || !IsDigit(s[i + |r|])
    decreases |s| - i
  {
    if i < |s| && IsDigit(s[i]) then [s[i]] + DigitRun(s, i + 1) else []
  }

  // ---------------------------------------------------------------------------
  // Record ids

  /** An id field after conversion: an int when the text is all digits,
      else the text itself. */
  datatype IdValue = IntId(n: nat) | TextId(text: string)

  function IdOf(s: string): (r: IdValue)
    ensures r.IntId? <==> s != [] && AllDigits(s)
    ensures r.IntId? ==> r.n == DecimalValue(s)
    ensures r.TextId? ==> r.text == s
  {
    if s != [] && AllDigits(s) then IntId(DecimalValue(s)) else TextId(s)
  }

  /** An id written by str() comes back as the same int. */
  lemma IdOfNumber(n: nat)
    ensures IdOf(NatToString(n)) == IntId(n)
  {
    DecimalRoundTrip(n);
  }

  /** Leading zeros are lost: two different segments can give one int id. */
  lemma IdOfLeadingZero()
    ensures IdOf("012") == IdOf("12") == IntId(12)
  {
    ZeroTwelve();
    Twelve();
  }

  lemma ZeroTwelve()
    ensures AllDigits("012") && DecimalValue("012") == 12
  {
    assert DecimalValue("012") == 10 * DecimalValue("01") + 2;
    assert DecimalValue("01") == 10 * DecimalValue("0") + 1;
  }

  lemma Twelve()
    ensures AllDigits("12") && DecimalValue("12") == 12
  {
    assert DecimalValue("12") == 10 * DecimalValue("1") + 2;
  }

  /** The digit run at i of a text holding the digits ds there, followed
      by a non-digit or by the end, is ds. */
  lemma {:induction false} DigitRunOfNumber(s: string, i: nat, ds: string)
    requires AllDigits(ds) && i + |ds| <= |s| && s[i..i + |ds|] == ds
    requires i + |ds| == |s| || !IsDigit(s[i + |ds|])
    ensures DigitRun(s, i) == ds
    decreases |ds|
  {
    if ds != [] {
      assert s[i + 1..i + 1 + |ds[1..]|] == ds[1..];
      DigitRunOfNumber(s, i + 1, ds[1..]);
    }
  }

  // ---------------------------------------------------------------------------
  // Numbers in free text

  /** to_int_price: the int written by the digits of the text, in order,
      ignoring every other character; None for a missing, empty or digit-free text. */
  function ToIntPrice(value: Option<string>): (r: Option<nat>)
    ensures r.Some? <==> value.Some? && Digits(value.value) != []
    ensures r.Some? ==> r.value == DecimalValue(Digits(value.value))
  {
    if value.None? || value.value == [] then None
    else
      var ds := Digits(value.value);
      if ds == [] then None else Some(DecimalValue(ds))
  }

  /** A price written by str() reads back unchanged, whatever surrounds it
      as long as that holds no digits. */
  lemma ToIntPriceReadsDecimal(n: nat, before: string, after: string)
    requires Digits(before) == [] && Digits(after) == []
    ensures ToIntPrice(Some(before + NatToString(n) + after)) == Some(n)
  {
    var s := NatToString(n);
    DigitsAppend(before, s);
    DigitsAppend(before + s, after);
    DigitsOfDigits(s);
    DecimalRoundTrip(n);
    calc {
      Digits(before + s + after);
      Digits(before + s) + Digits(after);
      Digits(before) + Digits(s) + Digits(after);
      [] + s + [];
      s;
    }
  }
}
