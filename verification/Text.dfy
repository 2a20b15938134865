/** Lines, line splitting and decimal numbers: the text layer every other module is built on.
    A byte of the original is a `char` here; no operation looks inside one. */
module Text {

  datatype Option<+T> = None | Some(value: T)

  /** A field that fits on one line. */
  predicate OneLine(s: string) {
    '\n' !in s
  }

  predicate AllOneLine(lines: seq<string>) {
    forall i :: 0 <= i < |lines| ==> OneLine(lines[i])
  }

  /** Empty, or ending in a newline. */
  predicate Terminated(s: string) {
    s == "" || s[|s| - 1] == '\n'
  }

  /** Position of the first `c`, or the length of `s`. */
  function Find(s: string, c: char): (i: nat)
    ensures i <= |s|
    ensures c !in s[..i]
    ensures i < |s| ==> s[i] == c
  {
    if s == "" || s[0] == c then 0
    else
      var k := Find(s[1..], c);
      assert s[..k + 1] == [s[0]] + s[1..][..k];
      k + 1
  }

  lemma FindFirst(a: string, c: char, b: string)
    requires c !in a
    ensures Find(a + [c] + b, c) == |a|
  {
    var s := a + [c] + b;
    var i := Find(s, c);
    assert s[|a|] == c;
    assert forall j :: 0 <= j < |a| ==> s[j] == a[j];
    forall j | 0 <= j < i ensures s[j] != c {
      assert s[..i][j] != c;
    }
  }

  lemma FindNone(a: string, c: char)
    requires c !in a
    ensures Find(a, c) == |a|
  {
  }

  /** Every line followed by a newline. This is how chunks and body lines are glued together again. */
  function JoinLines(lines: seq<string>): string {
    if lines == [] then "" else lines[0] + "\n" + JoinLines(lines[1..])
  }

  lemma NoLines(rest: string)
    ensures JoinLines([]) + rest == rest
  {
  }

  lemma {:induction false} JoinLinesConcat(a: seq<string>, b: seq<string>)
    ensures JoinLines(a + b) == JoinLines(a) + JoinLines(b)
  {
    if a == [] {
      assert a + b == b;
    } else {
      assert (a + b)[1..] == a[1..] + b;
      JoinLinesConcat(a[1..], b);
    }
  }

  lemma JoinLinesOne(line: string)
    ensures JoinLines([line]) == line + "\n"
  {
    assert [line][1..] == [];
  }

  lemma JoinLinesSnoc(a: seq<string>, line: string)
    ensures JoinLines(a + [line]) == JoinLines(a) + line + "\n"
  {
    JoinLinesConcat(a, [line]);
    JoinLinesOne(line);
  }

  lemma {:induction false} JoinLinesTerminated(lines: seq<string>)
    ensures Terminated(JoinLines(lines))
  {
    if lines != [] {
      JoinLinesTerminated(lines[1..]);
    }
  }

  lemma FindInTerminated(s: string)
    requires Terminated(s) && s != ""
    ensures Find(s, '\n') < |s|
  {
    assert s[..|s|] == s;
    assert s[|s| - 1] in s;
  }

  lemma TerminatedSuffix(s: string, k: nat)
    requires Terminated(s) && k <= |s|
    ensures Terminated(s[k..])
  {
  }

  /** The lines of a newline-terminated text. */
  function SplitLines(s: string): (lines: seq<string>)
    requires Terminated(s)
    ensures AllOneLine(lines)
    decreases |s|
  {
    if s == "" then []
    else
      var i := Find(s, '\n');
      FindInTerminated(s);
      TerminatedSuffix(s, i + 1);
      [s[..i]] + SplitLines(s[i + 1..])
  }

  lemma CutAt(s: string, i: nat)
    requires i < |s| && s[i] == '\n'
    ensures s == s[..i] + "\n" + s[i + 1..]
  {
  }

  /** Joining a line list with more text behind it, line by line. */
  lemma JoinLinesCons(lines: seq<string>, t: string)
    requires lines != []
    ensures JoinLines(lines) + t == lines[0] + "\n" + (JoinLines(lines[1..]) + t)
  {
  }

  lemma {:induction false} SplitThenJoin(s: string)
    requires Terminated(s)
    ensures JoinLines(SplitLines(s)) == s
    decreases |s|
  {
    if s != "" {
      var i := Find(s, '\n');
      FindInTerminated(s);
      TerminatedSuffix(s, i + 1);
      CutAt(s, i);
      hide Find, Terminated, JoinLines;
      var line, rest := s[..i], s[i + 1..];
      SplitThenJoin(rest);
      JoinLinesConcat([line], SplitLines(rest));
      JoinLinesOne(line);
    }
  }

  lemma {:induction false} JoinThenSplit(lines: seq<string>)
    requires AllOneLine(lines)
    ensures Terminated(JoinLines(lines))
    ensures SplitLines(JoinLines(lines)) == lines
  {
    JoinLinesTerminated(lines);
    if lines != [] {
      var s := JoinLines(lines);
      JoinLinesTerminated(lines[1..]);
      JoinThenSplit(lines[1..]);
      FindFirst(lines[0], '\n', JoinLines(lines[1..]));
      assert s == lines[0] + ['\n'] + JoinLines(lines[1..]);
      assert s[|lines[0]| + 1..] == JoinLines(lines[1..]);
      assert s[..|lines[0]|] == lines[0];
    }
  }

  // ---------------------------------------------------------------- decimal numbers

  const INT_MIN: int := -0x8000_0000
  const INT_MAX: int := 0x7fff_ffff
  const TIME_MIN: int := -0x8000_0000_0000_0000
  const TIME_MAX: int := 0x7fff_ffff_ffff_ffff

  predicate IsDigit(c: char) {
    '0' <= c <= '9'
  }

  predicate AllDigits(s: string) {
    forall i :: 0 <= i < |s| ==> IsDigit(s[i])
  }

  function DigitsValue(s: string): nat
    requires AllDigits(s)
  {
    if s == "" then 0
    else 10 * DigitsValue(s[..|s| - 1]) + (s[|s| - 1] as int - '0' as int)
  }

  /** `boost::lexical_cast` from text: an optional sign, one or more digits, and a value that fits the
      target type; anything else is a bad cast. */
  function ParseInt(s: string, min: int, max: int): (r: Option<int>)
    ensures r.Some? ==> min <= r.value <= max
  {
    var digits := if s != "" && (s[0] == '-' || s[0] == '+') then s[1..] else s;
    if digits == "" || !AllDigits(digits) then None
    else
      var v: int := if s[0] == '-' then 0 - DigitsValue(digits) else DigitsValue(digits);
      if min <= v <= max then Some(v) else None
  }

  function ParseInt32(s: string): (r: Option<int>) {
    ParseInt(s, INT_MIN, INT_MAX)
  }

  function PrintNat(n: nat): (s: string)
    ensures s != "" && AllDigits(s)
  {
    if n < 10 then [n as char + '0'] else PrintNat(n / 10) + [(n % 10) as char + '0']
  }

  /** `boost::lexical_cast` to text: canonical decimal. */
  function PrintInt(n: int): string {
    if n < 0 then "-" + PrintNat(-n) else PrintNat(n)
  }

  lemma {:induction false} DigitsOfPrintNat(n: nat)
    ensures DigitsValue(PrintNat(n)) == n
  {
    var s := PrintNat(n);
    if n < 10 {
      assert s[..|s| - 1] == "";
    } else {
      DigitsOfPrintNat(n / 10);
      assert s[..|s| - 1] == PrintNat(n / 10);
    }
  }

  lemma ParsePrintInt(n: int, min: int, max: int)
    requires min <= n <= max
    ensures ParseInt(PrintInt(n), min, max) == Some(n)
  {
    hide PrintNat, DigitsValue;
    if n < 0 {
      DigitsOfPrintNat(-n);
      assert PrintInt(n)[1..] == PrintNat(-n);
    } else {
      DigitsOfPrintNat(n);
      assert IsDigit(PrintNat(n)[0]);
    }
  }

  /** A printed number is a plain token: digits and at most a leading minus. */
  lemma PrintIntChars(n: int)
    ensures PrintInt(n) != ""
    ensures forall i :: 0 <= i < |PrintInt(n)| ==> IsDigit(PrintInt(n)[i]) || PrintInt(n)[i] == '-'
  {
  }

  lemma PrintIntOneLine(n: int)
    ensures OneLine(PrintInt(n))
  {
    PrintIntChars(n);
  }

  function Pow10(k: nat): (r: nat)
    ensures r >= 1
  {
    if k == 0 then 1 else 10 * Pow10(k - 1)
  }

  lemma {:induction false} DigitCount(n: nat, k: nat)
    requires k >= 1 && n < Pow10(k)
    ensures |PrintNat(n)| <= k
    decreases k
  {
    if n >= 10 {
      DigitCount(n / 10, k - 1);
    }
  }

  lemma PrintNatShort(n: nat)
    requires n <= INT_MAX
    ensures |PrintNat(n)| <= 10
  {
    assert Pow10(10) == 10000000000 by {
      assert Pow10(5) == 100000;
    }
    DigitCount(n, 10);
  }

  /** The first digits of a printed number are a printed number. */
  lemma {:induction false} PrintNatPrefix(n: nat, k: nat) returns (m: nat)
    requires 1 <= k <= |PrintNat(n)|
    ensures PrintNat(n)[..k] == PrintNat(m) && (k == |PrintNat(n)| ==> m == n)
    ensures m <= n && (n > 0 ==> m > 0)
  {
    if k == |PrintNat(n)| {
      m := n;
      assert PrintNat(n)[..k] == PrintNat(n);
    } else {
      m := PrintNatPrefix(n / 10, k);
      assert PrintNat(n)[..k] == PrintNat(n / 10)[..k];
    }
  }

  lemma TooManyForInt(n: nat)
    requires n > INT_MAX
    ensures ParseInt32(PrintNat(n)) == None
  {
    DigitsOfPrintNat(n);
    assert IsDigit(PrintNat(n)[0]);
  }

  /** A count beyond the int range does not convert, nor does as much of it as fits a line. */
  lemma LongCount(n: nat, k: nat)
    requires n > INT_MAX && k <= |PrintNat(n)| && (k == |PrintNat(n)| || k > 10)
    ensures ParseInt32(PrintNat(n)[..k]) == None
  {
    hide ParseInt;
    var m := PrintNatPrefix(n, k);
    if m <= INT_MAX {
      PrintNatShort(m);
    }
    TooManyForInt(m);
  }

  // ---------------------------------------------------------------- which texts are numbers

  lemma {:induction false} ZeroInFront(digits: string)
    requires AllDigits(digits)
    ensures AllDigits("0" + digits) && DigitsValue("0" + digits) == DigitsValue(digits)
    decreases |digits|
  {
    var s := "0" + digits;
    forall i | 0 <= i < |s| ensures IsDigit(s[i]) {
      assert i > 0 ==> s[i] == digits[i - 1];
    }
    if digits == "" {
      assert s[..|s| - 1] == "";
    } else {
      var front := digits[..|digits| - 1];
      ZeroInFront(front);
      assert s[..|s| - 1] == "0" + front;
    }
  }

  /** Digits convert to their value, a plus in front changes nothing, a minus the sign, and a zero in front nothing. */
  lemma SignedDigits(digits: string, min: int, max: int)
    requires digits != "" && AllDigits(digits) && min <= 0 <= max
    ensures ParseInt(digits, min, max) == if DigitsValue(digits) <= max then Some(DigitsValue(digits)) else None
    ensures ParseInt("+" + digits, min, max) == ParseInt(digits, min, max) == ParseInt("0" + digits, min, max)
    ensures ParseInt("-" + digits, min, max)
         == if min <= 0 - DigitsValue(digits) then Some(0 - DigitsValue(digits)) else None
  {
    hide DigitsValue;
    assert IsDigit(digits[0]);
    assert ("+" + digits)[1..] == digits && ("-" + digits)[1..] == digits;
    ZeroInFront(digits);
    assert ("0" + digits)[0] == '0';
  }

  /** Nothing else converts: no empty text, no sign alone, and no text with any other character in it. */
  lemma OnlyDigits(s: string, i: nat, min: int, max: int)
    requires i < |s| ==> !IsDigit(s[i]) && (i == 0 ==> s[0] != '-' && s[0] != '+')
    requires i >= |s| ==> s == "" || s == "-" || s == "+"
    ensures ParseInt(s, min, max) == None
  {
    hide DigitsValue;
    if i < |s| {
      if s[0] == '-' || s[0] == '+' {
        assert s[1..][i - 1] == s[i];
      }
    } else {
      assert s != "" ==> s[1..] == "";
    }
  }

  /** An int has 32 bits. */
  lemma IntBounds()
    ensures ParseInt32("2147483647") == Some(2147483647) && ParseInt32("2147483648") == None
    ensures ParseInt32("-2147483648") == Some(-2147483648) && ParseInt32("-2147483649") == None
  {
    PrintedBounds();
    hide PrintInt;
    ParsePrintInt(2147483647, INT_MIN, INT_MAX);
    ParsePrintInt(-2147483648, INT_MIN, INT_MAX);
    TooManyForInt(2147483648);
    TooFewForInt();
  }

  lemma OneMoreDigit(n: nat, d: nat, s: string)
    requires n > 0 && d < 10 && PrintNat(n) == s
    ensures PrintNat(10 * n + d) == s + [d as char + '0']
  {
  }

  lemma PrintedBounds()
    ensures PrintInt(2147483647) == "2147483647" && PrintInt(-2147483648) == "-2147483648"
    ensures PrintNat(2147483648) == "2147483648" && PrintNat(2147483649) == "2147483649"
  {
    hide PrintNat;
    PrintedStart();
    OneMoreDigit(21474836, 4, "21474836");
    OneMoreDigit(214748364, 7, "214748364");
    OneMoreDigit(214748364, 8, "214748364");
    OneMoreDigit(214748364, 9, "214748364");
  }

  lemma PrintedStart()
    ensures PrintNat(21474836) == "21474836"
  {
    assert PrintNat(2) == "2";
    hide PrintNat;
    OneMoreDigit(2, 1, "2");
    OneMoreDigit(21, 4, "21");
    OneMoreDigit(214, 7, "214");
    OneMoreDigit(2147, 4, "2147");
    OneMoreDigit(21474, 8, "21474");
    OneMoreDigit(214748, 3, "214748");
    OneMoreDigit(2147483, 6, "2147483");
  }

  lemma TooFewForInt()
    ensures ParseInt32("-2147483649") == None
  {
    hide PrintNat, DigitsValue, ParseInt;
    PrintedBounds();
    DigitsOfPrintNat(2147483649);
    SignedDigits(PrintNat(2147483649), INT_MIN, INT_MAX);
    assert "-" + "2147483649" == "-2147483649";
  }
}
