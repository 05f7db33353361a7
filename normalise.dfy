/**
 * The four normalisers of the Scrape class: capacity text to megabytes, image path
 * clean-up, availability label removal and the search for a date inside shipping text.
 */
module Normalise {
  import opened Wrappers
  import opened Text

  // ---------------------------------------------------------------------------
  // capacityStringToMb
  // ---------------------------------------------------------------------------

  /** preg_replace("/[^0-9]/", '', s): the digits of `s`, in order. */
  function Digits(s: string): (r: string)
    ensures |r| <= |s|
    ensures forall i :: 0 <= i < |r| ==> IsDigit(r[i])
    ensures r == [] <==> forall i :: 0 <= i < |s| ==> !IsDigit(s[i])
  {
    if s == [] then []
    else if IsDigit(s[0]) then [s[0]] + Digits(s[1..])
    else Digits(s[1..])
  }

  predicate AllDigits(s: string) {
    forall i :: 0 <= i < |s| ==> IsDigit(s[i])
  }

  /** The number a string of decimal digits denotes (leading zeros allowed). */
  function DecimalValue(d: string): nat
    requires AllDigits(d)
  {
    if d == [] then 0
    else DecimalValue(d[..|d| - 1]) * 10 + (d[|d| - 1] as int - '0' as int)
  }

  /** The decimal rendering of `n`, without leading zeros: the inverse of DecimalValue. */
  function Decimal(n: nat): (d: string)
    ensures d != [] && AllDigits(d)
  {
    if n < 10 then ['0' + n as char] else Decimal(n / 10) + ['0' + (n % 10) as char]
  }

  /**
   * Reading the digits of a capacity text and deciding the unit. A text without
   * any digit has no result: the source then multiplies (or returns as an int)
   * the empty string, which PHP 8 rejects with a TypeError.
   */
  function CapacityStringToMb(capacity: string): (mb: Option<int>)
    ensures mb.None? <==> forall i :: 0 <= i < |capacity| ==> !IsDigit(capacity[i])
    ensures mb.Some? ==> mb.value >= 0
  {
    var digits := Digits(capacity);
    if digits == [] then None
    else if ContainsCI(capacity, "mb") then Some(DecimalValue(digits))
    else Some(DecimalValue(digits) * 1024)
  }

  lemma {:induction false} DigitsAppend(a: string, b: string)
    ensures Digits(a + b) == Digits(a) + Digits(b)
  {
    if a != [] {
      assert (a + b)[1..] == a[1..] + b;
      DigitsAppend(a[1..], b);
    } else {
      assert a + b == b;
    }
  }

  lemma {:induction false} DigitsOfDigits(d: string)
    requires AllDigits(d)
    ensures Digits(d) == d
  {
    if d != [] {
      DigitsOfDigits(d[1..]);
      assert [d[0]] + d[1..] == d;
    }
  }

  lemma {:induction false} DecimalRoundTrip(n: nat)
    ensures DecimalValue(Decimal(n)) == n
  {
    if n >= 10 {
      var d := Decimal(n);
      assert d[..|d| - 1] == Decimal(n / 10);
      DecimalRoundTrip(n / 10);
    }
  }

  /** A pattern that starts with a letter cannot begin inside a run of digits. */
  lemma {:induction false} ContainsAfterDigits(d: string, unit: string, pat: string)
    requires AllDigits(d)
    requires pat != [] && !IsDigit(pat[0])
    ensures ContainsCI(d + unit, pat) <==> ContainsCI(unit, pat)
  {
    var s := d + unit;
    if ContainsCI(s, pat) {
      var i :| 0 <= i <= |s| - |pat| && OccursAt(s, pat, i);
      assert LowerChar(s[i]) == pat[0];
      assert i >= |d|;
      forall k | 0 <= k < |pat|
        ensures LowerChar(unit[i - |d| + k]) == pat[k]
      {
        assert s[i + k] == unit[i - |d| + k];
      }
      assert OccursAt(unit, pat, i - |d|);
    }
    if ContainsCI(unit, pat) {
      var i :| 0 <= i <= |unit| - |pat| && OccursAt(unit, pat, i);
      forall k | 0 <= k < |pat|
        ensures LowerChar(s[|d| + i + k]) == pat[k]
      {
        assert s[|d| + i + k] == unit[i + k];
      }
      assert OccursAt(s, pat, |d| + i);
      assert ContainsCI(s, pat);
    }
  }

  /**
   * Round trip: a number written in decimal, followed by a unit text without digits,
   * reads back as that number of megabytes when the unit mentions "mb" in any case,
   * and as that many gigabytes (times 1024) otherwise.
   */
  lemma CapacityOfRenderedNumber(n: nat, unit: string)
    requires forall i :: 0 <= i < |unit| ==> !IsDigit(unit[i])
    ensures CapacityStringToMb(Decimal(n) + unit) == Some(if ContainsCI(unit, "mb") then n else n * 1024)
  {
    var d := Decimal(n);
    DigitsAppend(d, unit);
    DigitsOfDigits(d);
    assert Digits(unit) == [];
    assert Digits(d + unit) == d;
    DecimalRoundTrip(n);
    ContainsAfterDigits(d, unit, "mb");
  }

  /** The capacities quoted in the documentation comment of capacityStringToMb, and "128GB". */
  lemma CapacityExamples()
    ensures CapacityStringToMb("128MB") == Some(128)
    ensures CapacityStringToMb("128GB") == Some(131072)
    ensures CapacityStringToMb("128 GB") == Some(131072)
  {
    assert Decimal(128) == "128" by {
      assert Decimal(1) == "1";
      assert Decimal(12) == "1" + "2";
    }
    assert ContainsCI("MB", "mb") by {
      assert OccursAt("MB", "mb", 0);
    }
    assert !ContainsCI("GB", "mb") by {
      assert LowerChar("GB"[0]) != "mb"[0];
    }
    assert !ContainsCI(" GB", "mb") by {
      assert LowerChar(" GB"[0]) != "mb"[0] && LowerChar(" GB"[1]) != "mb"[0];
    }
    CapacityOfRenderedNumber(128, "MB");
    assert Decimal(128) + "MB" == "128MB";
    CapacityOfRenderedNumber(128, "GB");
    assert Decimal(128) + "GB" == "128GB";
    CapacityOfRenderedNumber(128, " GB");
    assert Decimal(128) + " GB" == "128 GB";
  }

  // ---------------------------------------------------------------------------
  // cleanUrl
  // ---------------------------------------------------------------------------

  /** ltrim(url, '.'): the suffix of `url` left after its leading full stops. */
  function CleanUrl(url: string): (r: string)
    ensures |r| <= |url| && r == url[|url| - |r|..]
    ensures forall i :: 0 <= i < |url| - |r| ==> url[i] == '.'
    ensures r == [] || r[0] != '.'
    decreases |url|
  {
    if |url| > 0 && url[0] == '.' then CleanUrl(url[1..]) else url
  }

  function Dots(n: nat): (s: string)
    ensures |s| == n && forall i :: 0 <= i < n ==> s[i] == '.'
  {
    seq(n, _ => '.')
  }

  /** Whatever number of full stops precedes a path that does not start with one,
      CleanUrl gives back exactly that path. */
  lemma {:induction false} CleanUrlOfDottedPath(n: nat, path: string)
    requires path == [] || path[0] != '.'
    ensures CleanUrl(Dots(n) + path) == path
  {
    if n > 0 {
      assert (Dots(n) + path)[1..] == Dots(n - 1) + path;
      CleanUrlOfDottedPath(n - 1, path);
    } else {
      assert Dots(0) + path == path;
    }
  }

  lemma CleanUrlIdempotent(url: string)
    ensures CleanUrl(CleanUrl(url)) == CleanUrl(url)
  {
  }

  // ---------------------------------------------------------------------------
  // trimAvailability
  // ---------------------------------------------------------------------------

  const AvailabilityLabel: string := "availability:"

  /** trim(str_ireplace('availability:', '', trim(text))) */
  function TrimAvailability(text: string): (r: string)
    ensures IsTrimmed(r)
  {
    Trim(RemoveAllCI(Trim(text), AvailabilityLabel))
  }

  /** Without the label (in any case) the text is only trimmed. */
  lemma TrimAvailabilityWithoutLabel(text: string)
    requires !ContainsCI(text, AvailabilityLabel)
    ensures TrimAvailability(text) == Trim(text)
  {
    var t := Trim(text);
    var a := |text| - |TrimLeft(text)|;
    if ContainsCI(t, AvailabilityLabel) {
      ContainsInSlice(text, a, a + |t|, AvailabilityLabel);
    }
    RemoveAllAbsent(t, AvailabilityLabel);
    TrimOfTrimmed(t);
  }

  /** A text that starts with the label (in any case) and has no other occurrence of it
      comes back as the trimmed rest: the label is trimmed from the beginning. */
  lemma TrimAvailabilityOfLabelled(lab: string, s: string)
    requires |lab| == |AvailabilityLabel| && Lower(lab) == AvailabilityLabel
    requires !ContainsCI(s, AvailabilityLabel)
    ensures TrimAvailability(lab + s) == Trim(s)
  {
    assert LowerChar(lab[0]) == 'a' && LowerChar(lab[|lab| - 1]) == ':' by {
      assert Lower(lab)[0] == LowerChar(lab[0]);
      assert Lower(lab)[|lab| - 1] == LowerChar(lab[|lab| - 1]);
    }
    var t := TrimRight(s);
    TrimAfterHead(lab, s);
    RemoveLeadingOccurrence(lab, t, AvailabilityLabel);
    if ContainsCI(t, AvailabilityLabel) {
      ContainsInSlice(s, 0, |t|, AvailabilityLabel);
    }
    RemoveAllAbsent(t, AvailabilityLabel);
    TrimOfTrimRight(s);
  }

  // ---------------------------------------------------------------------------
  // trimUntilValidDate
  // ---------------------------------------------------------------------------

  /** `!$time` is false: strtotime gave a timestamp other than 0. */
  predicate Accepts(time: Option<int>) {
    time.Some? && time.value != 0
  }

  /** The suffix `text[k..]` is handed to the parser: the whole text always, a
      shorter suffix only while it still has at least two characters (a character
      stands for one byte of the PHP string). */
  predicate Tried(text: string, k: int) {
    k == 0 || 1 <= k <= |text| - 2
  }

  /** The date of the first accepted suffix `text[j..]` with `k <= j <= |text| - 2`. */
  function DateFrom(text: string, k: nat, parse: string -> Option<int>): Option<int>
    requires 1 <= k
    decreases |text| - k
  {
    if k > |text| - 2 then None
    else if Accepts(parse(text[k..])) then Some(parse(text[k..]).value)
    else DateFrom(text, k + 1, parse)
  }

  /** Reference definition of trimUntilValidDate, by index of the suffix tried. */
  function FirstValidDate(text: string, parse: string -> Option<int>): Option<int> {
    if Accepts(parse(text)) then Some(parse(text).value) else DateFrom(text, 1, parse)
  }

  lemma {:induction false} DateFromIsFirstAccepted(text: string, k: nat, parse: string -> Option<int>)
    requires 1 <= k
    ensures DateFrom(text, k, parse).Some? <==>
              exists j :: k <= j <= |text| - 2 && Accepts(parse(text[j..]))
    ensures DateFrom(text, k, parse).Some? ==>
              exists j :: k <= j <= |text| - 2 && Accepts(parse(text[j..]))
                       && DateFrom(text, k, parse).value == parse(text[j..]).value
                       && forall i :: k <= i < j ==> !Accepts(parse(text[i..]))
    decreases |text| - k
  {
    if k <= |text| - 2 && !Accepts(parse(text[k..])) {
      DateFromIsFirstAccepted(text, k + 1, parse);
    }
  }

  /**
   * trimUntilValidDate returns a date exactly when some tried suffix is accepted,
   * and then it is the timestamp of the first (longest) accepted one.
   */
  lemma FirstValidDateIsFirstAccepted(text: string, parse: string -> Option<int>)
    ensures FirstValidDate(text, parse).Some? <==>
              exists k :: Tried(text, k) && Accepts(parse(text[k..]))
    ensures FirstValidDate(text, parse).Some? ==>
              exists k :: Tried(text, k) && Accepts(parse(text[k..]))
                       && FirstValidDate(text, parse).value == parse(text[k..]).value
                       && forall j :: Tried(text, j) && j < k ==> !Accepts(parse(text[j..]))
  {
    assert text[0..] == text;
    if !Accepts(parse(text)) {
      DateFromIsFirstAccepted(text, 1, parse);
    }
  }

  /**
   * The loop of trimUntilValidDate: drop one leading character (substr($s, 1)) until
   * the parser accepts the rest, giving up once the rest has at most one character.
   * The accepted text is parsed a second time for the DateTime built from '@' and the
   * timestamp; a Unix timestamp is the date here.
   */
  method TrimUntilValidDate(shippingText: string, parse: string -> Option<int>) returns (date: Option<int>)
    ensures date == FirstValidDate(shippingText, parse)
  {
    var text := shippingText;
    var time := parse(text);
    ghost var k := 0;
    while !Accepts(time)
      invariant 0 <= k <= |shippingText| && text == shippingText[k..]
      invariant time == parse(text)
      invariant k == 0 || (k <= |shippingText| - 2 && FirstValidDate(shippingText, parse) == DateFrom(shippingText, k, parse))
      decreases |text|
    {
      if text == [] {
        return None;
      }
      text := text[1..];
      k := k + 1;
      if |text| <= 1 {
        return None;
      }
      time := parse(text);
    }
    date := Some(parse(text).value);
  }
}
