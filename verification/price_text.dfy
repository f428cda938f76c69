/** Reading prices out of page text: `extractPrice`, `getBasePrice`, the
    keyhole-mount `data-price` attribute and the slider read-out
    (assets/product-form-price-updater.js). */
module PriceText {
  import opened Wrappers
  import opened Text
  import opened JsNumber
  import opened NumberParsing

  /** The characters `/[^0-9.-]/g` keeps. */
  predicate IsPriceChar(c: char)
  {
    IsDigit(c) || c == '.' || c == '-'
  }

  predicate AllPriceChars(s: string)
  {
    forall i | 0 <= i < |s| :: IsPriceChar(s[i])
  }

  predicate NoPriceChars(s: string)
  {
    forall i | 0 <= i < |s| :: !IsPriceChar(s[i])
  }

  /** `s.replace(/[^0-9.-]/g, "")`: the price characters of `s`, in order. */
  function KeepPriceChars(s: string): (r: string)
    ensures AllPriceChars(r)
    ensures |r| <= |s|
  {
    if s == [] then []
    else (if IsPriceChar(s[0]) then [s[0]] else []) + KeepPriceChars(s[1..])
  }

  /** The filter distributes over concatenation. */
  lemma {:induction false} KeepPriceCharsAppend(a: string, b: string)
    ensures KeepPriceChars(a + b) == KeepPriceChars(a) + KeepPriceChars(b)
  {
    if a != [] {
      assert (a + b)[1..] == a[1..] + b;
      KeepPriceCharsAppend(a[1..], b);
    } else {
      assert a + b == b;
    }
  }

  /** The filter keeps a text made of price characters whole and removes a
      text without any entirely; with `KeepPriceCharsAppend` this pins it
      down on every input. */
  lemma {:induction false} KeepPriceCharsExact(s: string)
    ensures AllPriceChars(s) ==> KeepPriceChars(s) == s
    ensures NoPriceChars(s) ==> KeepPriceChars(s) == []
  {
    if s != [] {
      KeepPriceCharsExact(s[1..]);
    }
  }

  /** `extractPrice(text)`: never NaN. An empty text, and a text whose price
      characters do not start a number, give 0; otherwise the value
      `parseFloat` reads from the price characters. */
  function ExtractPrice(text: string): (r: real)
    ensures text == [] ==> r == 0.0
    ensures !HasNumericPrefix(KeepPriceChars(text)) ==> r == 0.0
    ensures HasNumericPrefix(KeepPriceChars(text)) ==> ParseFloat(KeepPriceChars(text)) == Val(r)
  {
    if text == [] then 0.0
    else
      match ParseFloat(KeepPriceChars(text))
      case NaN => 0.0
      case Val(v) => v
  }

  /** Filtering a printed amount with non-price text around it leaves the
      amount. */
  lemma KeepPrintedAmount(before: string, c: int, after: string)
    requires NoPriceChars(before) && NoPriceChars(after)
    ensures KeepPriceChars(before + CentsText(c) + after) == CentsText(c)
  {
    var amount := CentsText(c);
    assert AllPriceChars(amount) by {
      var d := NatDigits(Abs(c) / 100);
      assert amount == (if c < 0 then "-" else "") + d + "." + CentsDigits(c);
    }
    KeepPriceCharsAppend(before + amount, after);
    KeepPriceCharsAppend(before, amount);
    KeepPriceCharsExact(before);
    KeepPriceCharsExact(amount);
    KeepPriceCharsExact(after);
    assert [] + amount + [] == amount;
  }

  /** A price shown as a currency symbol or words around a printed amount,
      such as `$12.50` or `-5.00 USD`, is read as that amount. */
  lemma ExtractPrintedPrice(before: string, c: int, after: string)
    requires NoPriceChars(before) && NoPriceChars(after)
    ensures ExtractPrice(before + CentsText(c) + after) == c as real / 100.0
  {
    var amount := CentsText(c);
    KeepPrintedAmount(before, c, after);
    ParseCentsText(c, []);
    assert amount + [] == amount;
    assert |before + amount + after| > 0 by {
      assert |amount| > 0;
    }
  }

  /** `getBasePrice()` given the text of the first price element (`None` when
      there is none). Unlike `extractPrice` it has no NaN guard: a price text
      without a number gives NaN. */
  function BasePrice(text: Option<string>): (r: Num)
    ensures text.None? ==> r == Val(0.0)
    ensures r.NaN? <==> text.Some? && !HasNumericPrefix(KeepPriceChars(text.value))
    ensures text.Some? && r.Val? ==> r.v == ExtractPrice(text.value)
  {
    match text
    case None => Val(0.0)
    case Some(t) => ParseFloat(KeepPriceChars(t))
  }

  /** `parseFloat(checkbox.dataset.price || 0)`: a missing or empty attribute
      reads as 0; any other text goes to `parseFloat` unfiltered and may give
      NaN. */
  function MountPrice(attr: Option<string>): (r: Num)
    ensures attr.None? || attr == Some("") ==> r == Val(0.0)
    ensures r.NaN? <==> attr.Some? && attr.value != "" && !HasNumericPrefix(attr.value)
  {
    match attr
    case None => Val(0.0)
    case Some(s) => if s == "" then Val(0.0) else ParseFloat(s)
  }

  /** A `data-price` attribute holding a written number, possibly followed
      by text that does not continue it, is read as that number. */
  lemma MountPriceReadBack(lit: Literal, tail: string)
    requires lit.Valid() && !Continues(lit, tail)
    ensures MountPrice(Some(lit.Spelled() + tail)) == Val(lit.Value())
  {
    ParseWrittenLiteral(lit, tail);
    assert lit.whole != [] || lit.fraction != [];
    assert |lit.Spelled()| > 0 by {
      assert |lit.Unsigned()| >= |lit.whole| + |lit.FractionPart()|;
    }
  }

  /** A printed amount such as `12.50` in `data-price` gives its value. */
  lemma MountPriceOfAmount(c: int)
    ensures MountPrice(Some(CentsText(c))) == Val(c as real / 100.0)
  {
    ParseCentsText(c, []);
    assert CentsText(c) + [] == CentsText(c);
    assert |CentsText(c)| > 0;
  }

  /** The slider price of `handlePriceRangeChange`: the read-out text parsed
      with `parseFloat`, replaced by 0 when NaN or negative. */
  function SliderPrice(text: string): (r: real)
    ensures r >= 0.0
    ensures ParseFloat(text) == Val(r) || r == 0.0
    ensures ParseFloat(text).Val? && ParseFloat(text).v >= 0.0 ==> ParseFloat(text) == Val(r)
  {
    match ParseFloat(text)
    case Val(v) => if v >= 0.0 then v else 0.0
    case NaN => 0.0
  }
}
