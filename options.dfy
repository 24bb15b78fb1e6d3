/** The "WxH" window-size option: the text is split at its first 'x' and
    each half is read as an unsigned decimal number the way std::stoul reads
    it, from its leading run of digits. */
module Options {
  import opened Wrappers

  /** InvalidArgument stands for the std::invalid_argument that std::stoul
      throws when a text does not start with a number. */
  datatype Result<T> = Ok(value: T) | InvalidArgument

  predicate IsDigit(c: char)
  {
    '0' <= c <= '9'
  }

  predicate AllDigits(s: string)
  {
    forall k :: 0 <= k < |s| ==> IsDigit(s[k])
  }

  /** std::string::find: the position of the first c, or None for npos. */
  function Find(s: string, c: char): (r: Option<nat>)
    ensures r.None? <==> c !in s
    ensures r.Some? ==> r.value < |s| && s[r.value] == c && c !in s[..r.value]
  {
    if s == [] then None
    else if s[0] == c then Some(0)
    else
      match Find(s[1..], c)
      case None => None
      case Some(i) =>
        assert s[..i + 1] == [s[0]] + s[1..][..i];
        Some(i + 1)
  }

  /** window_size.substr(0, split_pos): everything before the split, or the
      whole text when split_pos is npos (a count past the end is clipped). */
  function TextBefore(s: string, splitPos: Option<nat>): (r: string)
    requires splitPos.Some? ==> splitPos.value <= |s|
    ensures |r| <= |s| && r == s[..|r|]
    ensures splitPos.Some? ==> |r| == splitPos.value
    ensures splitPos.None? ==> r == s
  {
    match splitPos
    case None => s
    case Some(i) => s[..i]
  }

  /** window_size.substr(split_pos + 1) in size_t arithmetic: npos + 1 wraps
      around to 0, so without a split the whole text is taken again. */
  function TextAfter(s: string, splitPos: Option<nat>): (r: string)
    requires splitPos.Some? ==> splitPos.value < |s|
    ensures |r| <= |s| && r == s[|s| - |r|..]
    ensures splitPos.Some? ==> |r| == |s| - splitPos.value - 1
    ensures splitPos.None? ==> r == s
  {
    match splitPos
    case None => s
    case Some(i) => s[i + 1..]
  }

  /** The longest prefix of s made of decimal digits. */
  function LeadingDigits(s: string): (ds: string)
    ensures |ds| <= |s| && ds == s[..|ds|]
    ensures AllDigits(ds)
    ensures |ds| < |s| ==> !IsDigit(s[|ds|])
  {
    if s == [] || !IsDigit(s[0]) then []
    else [s[0]] + LeadingDigits(s[1..])
  }

  /** The number a string of decimal digits denotes, most significant first. */
  function DecimalValue(ds: string): (v: nat)
    requires AllDigits(ds)
    ensures v < Pow10(|ds|)
  {
    if ds == [] then 0
    else 10 * DecimalValue(ds[..|ds| - 1]) + (ds[|ds| - 1] as int - '0' as int)
  }

  /** 10 to the power k. */
  function Pow10(k: nat): (p: nat)
    ensures p > 0
  {
    if k == 0 then 1 else 10 * Pow10(k - 1)
  }

  /** std::stoul on a text: the value of its leading digits, or an error when
      it does not start with a digit. */
  function Stoul(s: string): (r: Result<nat>)
    ensures r.InvalidArgument? <==> s == [] || !IsDigit(s[0])
  {
    var ds := LeadingDigits(s);
    if ds == [] then InvalidArgument else Ok(DecimalValue(ds))
  }

  /** getScreenDimensionsFromOption: (width, height) from "WxH". A text that
      does not start with a digit is always refused. */
  function ScreenDimensionsFromOption(windowSize: string): (r: Result<(nat, nat)>)
    ensures r.Ok? ==> windowSize != [] && IsDigit(windowSize[0])
  {
    var splitPos := Find(windowSize, 'x');
    var widthStr := TextBefore(windowSize, splitPos);
    var heightStr := TextAfter(windowSize, splitPos);
    match (Stoul(widthStr), Stoul(heightStr))
    case (Ok(w), Ok(h)) => Ok((w, h))
    case _ => InvalidArgument
  }

  /** The decimal numeral of n, without leading zeros. */
  function Decimal(n: nat): (ds: string)
    ensures |ds| > 0 && AllDigits(ds)
    ensures DecimalValue(ds) == n
    decreases n
  {
    var last := ['0' + (n % 10) as char];
    if n < 10 then last
    else
      var ds := Decimal(n / 10) + last;
      assert ds[..|ds| - 1] == Decimal(n / 10);
      ds
  }

  /** A digit run ended by a non-digit (or by the end) is read whole. */
  lemma {:induction false} LeadingDigitsOf(ds: string, rest: string)
    requires AllDigits(ds) && (rest == [] || !IsDigit(rest[0]))
    ensures LeadingDigits(ds + rest) == ds
  {
    if ds != [] {
      assert (ds + rest)[1..] == ds[1..] + rest;
      LeadingDigitsOf(ds[1..], rest);
    } else {
      assert ds + rest == rest;
    }
  }

  /** The first 'x' after a run of digits is the one right after it. */
  lemma FindAfterDigits(w: string, rest: string)
    requires AllDigits(w)
    ensures Find(w + "x" + rest, 'x') == Some(|w|)
  {
    var s := w + "x" + rest;
    assert s[|w|] == 'x';
    assert s[..|w|] == w;
  }

  /** Parsing "W" + "x" + "H" + tail, for digit strings W and H and a tail
      that does not continue H's digits, yields the values of W and H: the
      split is at the first 'x' and only the leading digits of each half count. */
  lemma ParseDigits(w: string, h: string, tail: string)
    requires w != [] && h != [] && AllDigits(w) && AllDigits(h)
    requires tail == [] || !IsDigit(tail[0])
    ensures ScreenDimensionsFromOption(w + "x" + h + tail) == Ok((DecimalValue(w), DecimalValue(h)))
  {
    var s := w + "x" + h + tail;
    assert s == w + "x" + (h + tail);
    FindAfterDigits(w, h + tail);
    assert TextBefore(s, Some(|w|)) == w + [];
    LeadingDigitsOf(w, []);
    assert TextAfter(s, Some(|w|)) == h + tail;
    LeadingDigitsOf(h, tail);
  }

  /** Round trip: printing two numbers as "WxH" and parsing gives them back. */
  lemma RoundTrip(width: nat, height: nat)
    ensures ScreenDimensionsFromOption(Decimal(width) + "x" + Decimal(height)) == Ok((width, height))
  {
    ParseDigits(Decimal(width), Decimal(height), []);
    assert Decimal(width) + "x" + Decimal(height) + [] == Decimal(width) + "x" + Decimal(height);
  }

  /** Without an 'x' both halves are the whole text, so width equals height. */
  lemma NoSeparator(s: string)
    requires 'x' !in s
    ensures ScreenDimensionsFromOption(s).Ok? <==> Stoul(s).Ok?
    ensures ScreenDimensionsFromOption(s).Ok? ==>
              ScreenDimensionsFromOption(s).value == (Stoul(s).value, Stoul(s).value)
  {
  }

  /** The split is at the first 'x': the width is read from the text before
      it, the height from the text after it, and either failing fails. */
  lemma SplitAtFirst(s: string, i: nat)
    requires i < |s| && s[i] == 'x' && 'x' !in s[..i]
    ensures ScreenDimensionsFromOption(s).Ok? <==> Stoul(s[..i]).Ok? && Stoul(s[i + 1..]).Ok?
    ensures ScreenDimensionsFromOption(s).Ok? ==>
              ScreenDimensionsFromOption(s).value == (Stoul(s[..i]).value, Stoul(s[i + 1..]).value)
  {
    assert Find(s, 'x') == Some(i);
  }

  /** A half that does not start with a digit makes std::stoul throw. */
  lemma MissingNumber(w: string, h: string)
    requires 'x' !in w
    requires w == [] || !IsDigit(w[0]) || h == [] || !IsDigit(h[0])
    ensures ScreenDimensionsFromOption(w + "x" + h) == InvalidArgument
  {
    var s := w + "x" + h;
    assert s[..|w|] == w;
    assert s[|w| + 1..] == h;
    SplitAtFirst(s, |w|);
  }

  lemma FullHdValues()
    ensures DecimalValue("1920") == 1920 && DecimalValue("1080") == 1080
  {
    assert "1920" == Decimal(1920) && "1080" == Decimal(1080);
  }

  lemma SvgaValues()
    ensures DecimalValue("800") == 800 && DecimalValue("600") == 600
  {
    assert "800" == Decimal(800) && "600" == Decimal(600);
  }

  /** The window size game_of_life's option test parses. */
  lemma ExampleFullHd()
    ensures ScreenDimensionsFromOption("1920x1080") == Ok((1920, 1080))
  {
    var w, h := "1920", "1080";
    assert w + "x" + h + [] == "1920x1080";
    ParseDigits(w, h, []);
    FullHdValues();
  }

  /** Text after the height's digits, a second 'x' included, is ignored. */
  lemma ExampleTrailing()
    ensures ScreenDimensionsFromOption("800x600x3") == Ok((800, 600))
  {
    var w, h, tail := "800", "600", "x3";
    assert w + "x" + h + tail == "800x600x3";
    ParseDigits(w, h, tail);
    SvgaValues();
  }

  /** A missing width or height makes std::stoul throw. */
  lemma ExampleMissing()
    ensures ScreenDimensionsFromOption("x600") == InvalidArgument
    ensures ScreenDimensionsFromOption("800x") == InvalidArgument
  {
    MissingNumber([], "600");
    assert [] + "x" + "600" == "x600";
    MissingNumber("800", []);
    assert "800" + "x" + [] == "800x";
  }
}
