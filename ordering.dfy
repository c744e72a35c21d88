/**
 * The order the gallery lists entries in (aLessBNumberFirst in pc/main.go): a file name is
 * compared by its stem, the name without its final extension; stems that strconv.Atoi
 * accepts come first, by value, and the others follow in strings.Compare order.
 */
module Ordering {
  import opened Wrappers
  import opened Strings
  import opened Paths

  const MinInt64: int := -0x8000_0000_0000_0000
  const MaxInt64: int := 0x7FFF_FFFF_FFFF_FFFF

  predicate IsDigit(c: char) {
    '0' <= c <= '9'
  }

  predicate AllDigits(s: string) {
    forall i :: 0 <= i < |s| ==> IsDigit(s[i])
  }

  /** The value of a string of decimal digits, leading zeros allowed. */
  function DigitsValue(s: string): nat
    requires AllDigits(s)
  {
    if s == [] then 0
    else DigitsValue(s[..|s| - 1]) * 10 + (s[|s| - 1] as int - '0' as int)
  }

  /**
   * strconv.Atoi on a 64-bit platform: an optional '+' or '-', then one or more decimal
   * digits, whose value must fit in an int; anything else is an error.
   */
  function Atoi(s: string): (r: Option<int>)
    ensures r.Some? ==> MinInt64 <= r.value <= MaxInt64
    ensures r.Some? ==> s != [] && (AllDigits(s) || ((s[0] == '+' || s[0] == '-') && AllDigits(s[1..])))
  {
    var signed := s != [] && (s[0] == '+' || s[0] == '-');
    var digits := if signed then s[1..] else s;
    if digits == [] || !AllDigits(digits) then None
    else
      var n: int := DigitsValue(digits);
      var v := if signed && s[0] == '-' then -n else n;
      if MinInt64 <= v <= MaxInt64 then Some(v) else None
  }

  /** The decimal rendering of a natural number, without leading zeros. */
  function Decimal(n: nat): (s: string)
    ensures s != [] && AllDigits(s)
  {
    if n < 10 then [('0' as int + n) as char]
    else Decimal(n / 10) + [('0' as int + n % 10) as char]
  }

  /** strconv.Itoa */
  function Itoa(n: int): string {
    if n < 0 then "-" + Decimal(-n) else Decimal(n)
  }

  lemma {:induction false} DecimalValue(n: nat)
    ensures DigitsValue(Decimal(n)) == n
  {
    if n >= 10 {
      DecimalValue(n / 10);
      var s := Decimal(n);
      assert s[..|s| - 1] == Decimal(n / 10);
    }
  }

  /** Atoi reads back every int that Itoa renders. */
  lemma AtoiItoa(n: int)
    requires MinInt64 <= n <= MaxInt64
    ensures Atoi(Itoa(n)) == Some(n)
  {
    if n < 0 {
      DecimalValue(-n);
      AtoiNegative(Decimal(-n));
    } else {
      DecimalValue(n);
      AtoiDigits(Decimal(n));
    }
  }

  /** A non-empty digit string in range reads as its value. */
  lemma AtoiDigits(s: string)
    requires s != [] && AllDigits(s) && DigitsValue(s) <= MaxInt64
    ensures Atoi(s) == Some(DigitsValue(s))
  {
    assert IsDigit(s[0]);
  }

  /** A minus sign before a non-empty digit string in range reads as the negated value. */
  lemma AtoiNegative(s: string)
    requires s != [] && AllDigits(s) && DigitsValue(s) <= -MinInt64
    ensures Atoi("-" + s) == Some(-(DigitsValue(s) as int))
  {
    assert ("-" + s)[1..] == s;
  }

  /** A decimal rendering outside the 64-bit range is refused, with or without a minus sign. */
  lemma AtoiOverflow(n: nat)
    ensures n > MaxInt64 ==> Atoi(Decimal(n)) == None
    ensures n > -MinInt64 ==> Atoi("-" + Decimal(n)) == None
  {
    DecimalValue(n);
    assert ("-" + Decimal(n))[1..] == Decimal(n);
  }

  /** Leading zeros and a plus sign are accepted. */
  lemma AtoiAcceptsExamples()
    ensures Atoi("02") == Some(2) && Atoi("+7") == Some(7) && Atoi("-10") == Some(-10)
  {
    assert DigitsValue("0") == 0;
    assert DigitsValue("02") == 2;
    assert "+7"[1..] == "7" && DigitsValue("7") == 7;
    assert "-10"[1..] == "10";
    assert DigitsValue("1") == 1;
    assert DigitsValue("10") == 10;
  }

  /** An empty string, a lone sign and a trailing letter are refused. */
  lemma AtoiRefusesExamples()
    ensures Atoi("") == None && Atoi("-") == None && Atoi("1a") == None
  {
    assert !IsDigit("1a"[1]);
  }

  /** What a file name is compared by: the value of a numeric stem, or the stem itself. */
  datatype SortKey = Number(n: int) | Text(stem: string)

  function KeyOf(name: string): SortKey {
    var stem := StripExt(name);
    match Atoi(stem)
    case Some(n) => Number(n)
    case None => Text(stem)
  }

  /** aLessBNumberFirst on the file names of two entries. */
  function NumberFirstLess(a: string, b: string): bool {
    var aName, bName := StripExt(a), StripExt(b);
    var aNum, bNum := Atoi(aName), Atoi(bName);
    if aNum.None? && bNum.None? then LexLess(aName, bName)
    else if aNum.None? != bNum.None? then aNum.Some?
    else aNum.value < bNum.value
  }

  /** Numbers by value before texts, texts in string order. */
  predicate KeyLess(x: SortKey, y: SortKey) {
    match (x, y)
    case (Number(m), Number(n)) => m < n
    case (Number(_), Text(_)) => true
    case (Text(_), Number(_)) => false
    case (Text(s), Text(u)) => LexLess(s, u)
  }

  /** The comparison orders names by their keys. */
  lemma NumberFirstByKey(a: string, b: string)
    ensures NumberFirstLess(a, b) <==> KeyLess(KeyOf(a), KeyOf(b))
  {
  }

  lemma NumberFirstIrreflexive(a: string)
    ensures !NumberFirstLess(a, a)
  {
    LexLessIrreflexive(StripExt(a));
  }

  lemma NumberFirstTransitive(a: string, b: string, c: string)
    requires NumberFirstLess(a, b) && NumberFirstLess(b, c)
    ensures NumberFirstLess(a, c)
  {
    NumberFirstByKey(a, b);
    NumberFirstByKey(b, c);
    NumberFirstByKey(a, c);
    if KeyOf(a).Text? {
      LexLessTransitive(KeyOf(a).stem, KeyOf(b).stem, KeyOf(c).stem);
    }
  }

  /** Two names neither of which precedes the other are those with the same key. */
  lemma NumberFirstEquivalent(a: string, b: string)
    ensures !NumberFirstLess(a, b) && !NumberFirstLess(b, a) <==> KeyOf(a) == KeyOf(b)
  {
    NumberFirstByKey(a, b);
    NumberFirstByKey(b, a);
    if KeyOf(a) == KeyOf(b) {
      NumberFirstIrreflexive(a);
    } else if KeyOf(a).Text? && KeyOf(b).Text? {
      LexLessTotal(KeyOf(a).stem, KeyOf(b).stem);
    }
  }

  /** Being neither before nor after is transitive, so the order is a strict weak order. */
  lemma NumberFirstEquivalenceTransitive(a: string, b: string, c: string)
    requires !NumberFirstLess(a, b) && !NumberFirstLess(b, a)
    requires !NumberFirstLess(b, c) && !NumberFirstLess(c, b)
    ensures !NumberFirstLess(a, c) && !NumberFirstLess(c, a)
  {
    NumberFirstEquivalent(a, b);
    NumberFirstEquivalent(b, c);
    NumberFirstEquivalent(a, c);
  }

  /** Not preceding is transitive too, as a sort that only asks `less` relies on. */
  lemma NumberFirstNotLessTransitive(a: string, b: string, c: string)
    requires !NumberFirstLess(a, b) && !NumberFirstLess(b, c)
    ensures !NumberFirstLess(a, c)
  {
    if NumberFirstLess(a, c) {
      if NumberFirstLess(c, b) {
        NumberFirstTransitive(a, c, b);
      } else {
        NumberFirstEquivalent(b, c);
        NumberFirstByKey(a, c);
        NumberFirstByKey(a, b);
      }
    }
  }

  /** A name with a numeric stem precedes every name without one. */
  lemma NumbersFirst(a: string, b: string)
    requires Atoi(StripExt(a)).Some? && Atoi(StripExt(b)).None?
    ensures NumberFirstLess(a, b) && !NumberFirstLess(b, a)
  {
  }

  /** A name without a '.' that is a digit string in range has its value as key. */
  lemma KeyOfDigits(s: string)
    requires '.' !in s && s != [] && AllDigits(s) && DigitsValue(s) <= MaxInt64
    ensures KeyOf(s) == Number(DigitsValue(s))
  {
    ExtNone(s);
    assert StripExt(s) == s[..|s|] == s;
    AtoiDigits(s);
  }

  /** A name `stem.e` whose stem is a digit string in range has the stem's value as key. */
  lemma KeyOfNumbered(stem: string, e: string)
    requires '.' !in e && '/' !in e && stem != [] && AllDigits(stem) && DigitsValue(stem) <= MaxInt64
    ensures KeyOf(stem + "." + e) == Number(DigitsValue(stem))
  {
    ExtOfDotted(stem, e);
    AtoiDigits(stem);
  }

  lemma KeyOfTwoPng()
    ensures KeyOf("2.png") == Number(2)
  {
    assert DigitsValue("2") == 2;
    KeyOfNumbered("2", "png");
    assert "2" + "." + "png" == "2.png";
  }

  lemma KeyOfTenPng()
    ensures KeyOf("10.png") == Number(10)
  {
    assert DigitsValue("1") == 1 && DigitsValue("10") == 10;
    KeyOfNumbered("10", "png");
    assert "10" + "." + "png" == "10.png";
  }

  /** Numeric stems compare by value: "2.png" precedes "10.png". */
  lemma NumberFirstByValue()
    ensures NumberFirstLess("2.png", "10.png") && !NumberFirstLess("10.png", "2.png")
  {
    KeyOfTwoPng();
    KeyOfTenPng();
    NumberFirstByKey("2.png", "10.png");
    NumberFirstByKey("10.png", "2.png");
  }

  /** "02" and "2" have the same value, so neither precedes the other. */
  lemma NumberFirstLeadingZeros()
    ensures !NumberFirstLess("02", "2") && !NumberFirstLess("2", "02")
  {
    assert DigitsValue("0") == 0 && DigitsValue("02") == 2 && DigitsValue("2") == 2;
    KeyOfDigits("02");
    KeyOfDigits("2");
    NumberFirstByKey("02", "2");
    NumberFirstByKey("2", "02");
  }

  /** Only the final extension is dropped: "a.tar.gz" compares as the text "a.tar". */
  lemma KeyOfDoubleExtension()
    ensures StripExt("a.tar.gz") == "a.tar" && KeyOf("a.tar.gz") == Text("a.tar")
  {
    ExtOfDotted("a.tar", "gz");
    assert "a.tar" + "." + "gz" == "a.tar.gz";
    assert !IsDigit("a.tar"[0]);
  }

  /** ".png" compares as the empty stem, which is not a number, so "1.png" precedes it. */
  lemma KeyOfDotFile()
    ensures KeyOf(".png") == Text("") && NumberFirstLess("1.png", ".png")
  {
    ExtOfDotted("", "png");
    ExtOfDotted("1", "png");
    assert "" + "." + "png" == ".png" && "1" + "." + "png" == "1.png";
    assert DigitsValue("1") == 1;
    AtoiDigits("1");
  }
}
