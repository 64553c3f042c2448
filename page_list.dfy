/**
 * The page-number argument of capture mode: `args[1].split(",")`, each
 * segment trimmed and read with `parseInt(segment, 10)`; the whole list is
 * refused when any segment reads as `NaN`.
 */
module PageList {
  import opened Wrappers
  import opened Decimal

  /** `s.split(",")`: the segments between commas, in order. */
  function Split(s: string): (parts: seq<string>)
    ensures |parts| >= 1
    ensures forall i :: 0 <= i < |parts| ==> ',' !in parts[i]
  {
    if s == [] then [""]
    else
      var rest := Split(s[1..]);
      if s[0] == ',' then
        assert ([""] + rest)[1..] == rest;
        [""] + rest
      else
        var parts := [[s[0]] + rest[0]] + rest[1..];
        assert parts[1..] == rest[1..];
        parts
  }

  /** Joining the segments with commas gives back the argument. */
  lemma {:induction false} JoinSplit(s: string)
    ensures Join(Split(s)) == s
    decreases |s|
  {
    if s != [] {
      var rest := Split(s[1..]);
      JoinSplit(s[1..]);
      if s[0] == ',' {
        SplitAtComma(s);
        JoinAfterEmpty(rest);
      } else {
        SplitGlued(s);
        JoinGlued(s[0], rest);
      }
      assert [s[0]] + s[1..] == s;
    }
  }

  lemma JoinAfterEmpty(rest: seq<string>)
    requires |rest| >= 1
    ensures Join([""] + rest) == "," + Join(rest)
  {
    var parts := [""] + rest;
    assert parts[1..] == rest;
  }

  lemma JoinGlued(c: char, rest: seq<string>)
    requires |rest| >= 1
    ensures Join([[c] + rest[0]] + rest[1..]) == [c] + Join(rest)
  {
    var parts := [[c] + rest[0]] + rest[1..];
    assert parts[0] == [c] + rest[0];
    if |rest| > 1 {
      assert parts[1..] == rest[1..];
      JoinUnfold(parts);
      JoinUnfold(rest);
      Assoc([c], rest[0], "," + Join(rest[1..]));
    }
  }

  lemma JoinUnfold(parts: seq<string>)
    requires |parts| > 1
    ensures Join(parts) == parts[0] + ("," + Join(parts[1..]))
  {
  }

  lemma Assoc<T>(a: seq<T>, b: seq<T>, d: seq<T>)
    ensures a + b + d == a + (b + d)
  {
  }

  /** `parts.join(",")`. */
  function Join(parts: seq<string>): string
    requires |parts| >= 1
  {
    if |parts| == 1 then parts[0] else parts[0] + ("," + Join(parts[1..]))
  }

  /** Splitting a comma-free list joined with commas gives the list back. */
  lemma {:induction false} SplitJoin(parts: seq<string>)
    requires |parts| >= 1
    requires forall i :: 0 <= i < |parts| ==> ',' !in parts[i]
    ensures Split(Join(parts)) == parts
    decreases |parts|
  {
    if |parts| == 1 {
      SplitCommaFree(parts[0], []);
      assert parts[0] + [] == parts[0] && parts[0] + "" == parts[0];
      assert Split([]) == [""];
      assert [parts[0]] == parts;
    } else {
      SplitJoin(parts[1..]);
      var rest := Join(parts[1..]);
      assert parts[0] + "," + rest == parts[0] + ("," + rest);
      SplitCommaFree(parts[0], "," + rest);
      assert Split("," + rest) == [""] + parts[1..] by {
        assert ("," + rest)[1..] == rest;
      }
      var split := [""] + parts[1..];
      assert split[0] == "" && split[1..] == parts[1..];
      assert parts[0] + "" == parts[0];
      assert [parts[0]] + parts[1..] == parts;
    }
  }

  /** A comma-free head glues onto the first segment of what follows it. */
  lemma {:induction false} SplitCommaFree(head: string, tail: string)
    requires ',' !in head
    ensures Split(head + tail) == [head + Split(tail)[0]] + Split(tail)[1..]
    decreases |head|
  {
    if head == [] {
      var split := Split(tail);
      assert head + tail == tail;
      assert head + split[0] == split[0];
      assert [split[0]] + split[1..] == split;
    } else {
      var st := Split(tail);
      SplitCommaFree(head[1..], tail);
      var rest := Split(head[1..] + tail);
      assert rest == [head[1..] + st[0]] + st[1..];
      assert rest[0] == head[1..] + st[0] && rest[1..] == st[1..];
      assert (head + tail)[1..] == head[1..] + tail;
      assert (head + tail)[0] == head[0] && head[0] != ',';
      SplitGlued(head + tail);
      Assoc([head[0]], head[1..], st[0]);
      assert [head[0]] + head[1..] == head;
    }
  }

  lemma SplitAtComma(s: string)
    requires s != [] && s[0] == ','
    ensures Split(s) == [""] + Split(s[1..])
  {
  }

  lemma SplitGlued(s: string)
    requires s != [] && s[0] != ','
    ensures Split(s) == [[s[0]] + Split(s[1..])[0]] + Split(s[1..])[1..]
  {
  }

  /**
   * The characters `String.prototype.trim` and `parseInt` skip: the
   * ECMAScript WhiteSpace and LineTerminator code points.
   */
  predicate IsSpace(c: char) {
    c == '\t' || c == '\n' || c == '\U{000B}' || c == '\U{000C}' || c == '\r' || c == ' '
    || c == '\U{00A0}' || c == '\U{1680}' || ('\U{2000}' <= c <= '\U{200A}')
    || c == '\U{2028}' || c == '\U{2029}' || c == '\U{202F}' || c == '\U{205F}'
    || c == '\U{3000}' || c == '\U{FEFF}'
  }

  /** `s` with its leading white space removed. */
  function TrimStart(s: string): (t: string)
    ensures |t| <= |s|
  {
    if s != [] && IsSpace(s[0]) then TrimStart(s[1..]) else s
  }

  /** `TrimStart` removes exactly the white space at the start. */
  lemma {:induction false} TrimStartRemovesLeadingSpace(s: string)
    ensures var t := TrimStart(s);
      && t == s[|s| - |t|..]
      && (t == [] || !IsSpace(t[0]))
      && forall i :: 0 <= i < |s| - |t| ==> IsSpace(s[i])
  {
    if s != [] && IsSpace(s[0]) {
      TrimStartRemovesLeadingSpace(s[1..]);
    }
  }

  /** `s` with its trailing white space removed. */
  function TrimEnd(s: string): (t: string)
    ensures |t| <= |s|
  {
    if s != [] && IsSpace(s[|s| - 1]) then TrimEnd(s[..|s| - 1]) else s
  }

  /** `TrimEnd` removes exactly the white space at the end. */
  lemma {:induction false} TrimEndRemovesTrailingSpace(s: string)
    ensures var t := TrimEnd(s);
      && t == s[..|t|]
      && (t == [] || !IsSpace(t[|t| - 1]))
      && forall i :: |t| <= i < |s| ==> IsSpace(s[i])
  {
    if s != [] && IsSpace(s[|s| - 1]) {
      TrimEndRemovesTrailingSpace(s[..|s| - 1]);
    }
  }

  /** `s.trim()`. */
  function Trim(s: string): string {
    TrimEnd(TrimStart(s))
  }

  /** The longest run of decimal digits at the start of `s`. */
  function DigitPrefix(s: string): (d: string)
    ensures |d| <= |s| && AllDigits(d)
  {
    if s != [] && IsDigit(s[0]) then [s[0]] + DigitPrefix(s[1..]) else []
  }

  /** `DigitPrefix` is a prefix, and no digit follows it. */
  lemma {:induction false} DigitPrefixIsLongest(s: string)
    ensures var d := DigitPrefix(s);
      d == s[..|d|] && (|d| == |s| || !IsDigit(s[|d|]))
  {
    if s != [] && IsDigit(s[0]) {
      DigitPrefixIsLongest(s[1..]);
    }
  }

  /** The leading digits of `s` as a number, or `None` when there are none. */
  function ReadDigits(s: string): Option<nat> {
    var digits := DigitPrefix(s);
    if digits == [] then None else Some(DigitsValue(digits))
  }

  /** The value of a numeral read after a '-'. */
  function Negated(n: nat): (r: int)
    ensures r <= 0
  {
    -(n as int)
  }

  /** An optional '+' or '-' and then the leading digits. */
  function ReadSigned(t: string): Option<int> {
    var signed := t != [] && (t[0] == '-' || t[0] == '+');
    var negative := t != [] && t[0] == '-';
    match ReadDigits(if signed then t[1..] else t)
    case None => None
    case Some(n) => Some(if negative then Negated(n) else n as int)
  }

  /**
   * `parseInt(s, 10)`: leading white space skipped, an optional '+' or '-',
   * then the longest run of decimal digits; `None` (for `NaN`) when that run
   * is empty. Whatever follows the digits is ignored.
   */
  function ParseInt(s: string): Option<int> {
    ReadSigned(TrimStart(s))
  }

  /**
   * What `parseInt` reads from a segment made of an optional sign, a run of
   * digits and anything that does not start with a digit.
   */
  lemma ParseIntOfNumeral(sign: string, digits: string, rest: string)
    requires sign == "" || sign == "-" || sign == "+"
    requires digits != [] && AllDigits(digits)
    requires rest == [] || !IsDigit(rest[0])
    ensures ParseInt(sign + digits + rest) == Some(if sign == "-" then Negated(DigitsValue(digits)) else DigitsValue(digits))
  {
    if sign == "" {
      assert sign + digits + rest == digits + rest;
      ParseIntOfUnsignedNumeral(digits, rest);
    } else if sign == "-" {
      assert sign + digits + rest == ['-'] + (digits + rest);
      ParseIntOfNegativeNumeral(digits, rest);
    } else {
      assert sign + digits + rest == ['+'] + (digits + rest);
      ParseIntOfPositiveNumeral(digits, rest);
    }
  }

  lemma ParseIntOfUnsignedNumeral(digits: string, rest: string)
    requires digits != [] && AllDigits(digits)
    requires rest == [] || !IsDigit(rest[0])
    ensures ParseInt(digits + rest) == Some(DigitsValue(digits) as int)
  {
    var s := digits + rest;
    ReadDigitsOf(digits, rest);
    var c := s[0];
    assert c == digits[0] && IsDigit(c);
    assert TrimStart(s) == s by {
      assert !IsSpace(c);
    }
    assert c != '-' && c != '+';
  }

  lemma ParseIntOfNegativeNumeral(digits: string, rest: string)
    requires digits != [] && AllDigits(digits)
    requires rest == [] || !IsDigit(rest[0])
    ensures ParseInt(['-'] + (digits + rest)) == Some(Negated(DigitsValue(digits)))
  {
    var body := digits + rest;
    var s := ['-'] + body;
    assert s[0] == '-' && s[1..] == body;
    assert TrimStart(s) == s by {
      assert !IsSpace('-');
    }
    ReadDigitsOf(digits, rest);
  }

  lemma ParseIntOfPositiveNumeral(digits: string, rest: string)
    requires digits != [] && AllDigits(digits)
    requires rest == [] || !IsDigit(rest[0])
    ensures ParseInt(['+'] + (digits + rest)) == Some(DigitsValue(digits) as int)
  {
    var body := digits + rest;
    var s := ['+'] + body;
    assert s[0] == '+' && s[1..] == body;
    assert TrimStart(s) == s by {
      assert !IsSpace('+');
    }
    ReadDigitsOf(digits, rest);
  }

  lemma ReadDigitsOf(digits: string, rest: string)
    requires digits != [] && AllDigits(digits)
    requires rest == [] || !IsDigit(rest[0])
    ensures ReadDigits(digits + rest) == Some(DigitsValue(digits))
  {
    DigitPrefixOf(digits, rest);
  }

  lemma {:induction false} DigitPrefixOf(digits: string, rest: string)
    requires AllDigits(digits)
    requires rest == [] || !IsDigit(rest[0])
    ensures DigitPrefix(digits + rest) == digits
    decreases |digits|
  {
    if digits == [] {
      assert digits + rest == rest;
    } else {
      assert (digits + rest)[1..] == digits[1..] + rest;
      DigitPrefixOf(digits[1..], rest);
    }
  }

  /**
   * A segment with no digit after the optional white space and sign reads
   * as `NaN`.
   */
  lemma ParseIntNaN(s: string)
    ensures ParseInt(s).None? <==>
      var t := TrimStart(s);
      var body := if t != [] && (t[0] == '-' || t[0] == '+') then t[1..] else t;
      body == [] || !IsDigit(body[0])
  {
    var t := TrimStart(s);
    var body := if t != [] && (t[0] == '-' || t[0] == '+') then t[1..] else t;
    assert ReadDigits(body).None? <==> body == [] || !IsDigit(body[0]);
  }

  /** One segment of the list: `parseInt(segment.trim(), 10)`. */
  function ParseSegment(segment: string): Option<int> {
    ParseInt(Trim(segment))
  }

  /**
   * `parts.map(p => parseInt(p.trim(), 10))`, refused as a whole when some
   * element is `NaN`.
   */
  function ParseSegments(parts: seq<string>): (r: Option<seq<int>>)
    ensures r.Some? <==> forall i :: 0 <= i < |parts| ==> ParseSegment(parts[i]).Some?
    ensures r.Some? ==> |r.value| == |parts|
    ensures r.Some? ==> forall i :: 0 <= i < |parts| ==> Some(r.value[i]) == ParseSegment(parts[i])
  {
    var parsed := seq(|parts|, i requires 0 <= i < |parts| => ParseSegment(parts[i]));
    assert forall i :: 0 <= i < |parts| ==> parsed[i] == ParseSegment(parts[i]);
    if exists i :: 0 <= i < |parsed| && parsed[i].None? then None
    else Some(seq(|parsed|, i requires 0 <= i < |parsed| => parsed[i].value))
  }

  /**
   * Lines 131-135: the list, one number per comma-separated segment in
   * order, or `None` when some segment is not a number.
   */
  function ParsePageList(arg: string): Option<seq<int>> {
    ParseSegments(Split(arg))
  }

  /** The comma-separated decimal form of a list of page numbers. */
  function Numerals(pages: seq<nat>): (parts: seq<string>)
    ensures |parts| == |pages|
    ensures forall i :: 0 <= i < |pages| ==> parts[i] == DecimalString(pages[i])
  {
    seq(|pages|, i requires 0 <= i < |pages| => DecimalString(pages[i]))
  }

  /** A printed page number reads back as itself. */
  lemma ParseSegmentOfNumeral(n: nat)
    ensures ParseSegment(DecimalString(n)) == Some(n as int)
  {
    var d := DecimalString(n);
    TrimDigits(d);
    assert d + "" == d;
    ParseIntOfUnsignedNumeral(d, "");
    DecimalRoundTrip(n);
  }

  /** Digits are not white space, so trimming leaves a numeral alone. */
  lemma TrimDigits(d: string)
    requires d != [] && AllDigits(d)
    ensures Trim(d) == d
  {
    assert IsDigit(d[0]) && IsDigit(d[|d| - 1]);
    assert TrimStart(d) == d;
  }

  /** Writing a non-empty list as "1,2,3" and parsing it gives the list back. */
  lemma ParseFormattedList(pages: seq<nat>)
    requires |pages| >= 1
    ensures ParsePageList(Join(Numerals(pages))) == Some(pages)
  {
    var parts := Numerals(pages);
    forall i | 0 <= i < |parts| ensures ',' !in parts[i] {
      assert AllDigits(parts[i]);
    }
    SplitJoin(parts);
    forall i | 0 <= i < |parts| ensures ParseSegment(parts[i]) == Some(pages[i] as int) {
      ParseSegmentOfNumeral(pages[i]);
    }
    var r := ParsePageList(Join(parts));
    assert r.Some?;
    assert r.value == pages;
  }

  /** Leading white space and trailing junk around the digits are ignored ... */
  lemma ParseSegmentIgnoresJunk()
    ensures ParseSegment(" 3abc") == Some(3)
  {
    var t := "3abc";
    assert " 3abc"[1..] == t;
    assert TrimStart(t) == t;
    assert TrimStart(" 3abc") == t;
    assert TrimEnd(t) == t;
    assert "" + "3" + "abc" == t;
    ParseIntOfNumeral("", "3", "abc");
    assert DigitsValue("3") == 3;
  }

  /** ... and a minus sign is kept. */
  lemma ParseSegmentKeepsSign()
    ensures ParseSegment("-2") == Some(-2)
  {
    var t := "-2";
    assert TrimStart(t) == t;
    assert TrimEnd(t) == t;
    assert "-" + "2" + "" == t;
    ParseIntOfNumeral("-", "2", "");
    assert DigitsValue("2") == 2;
  }

  /** An empty segment rejects the whole list. */
  lemma EmptySegmentRejectsList()
    ensures ParsePageList("1,,2") == None
    ensures ParsePageList("") == None
  {
    SplitJoin(["1", "", "2"]);
    assert Join(["1", "", "2"]) == "1,,2";
    assert ParseSegment("") == None;
  }
}
