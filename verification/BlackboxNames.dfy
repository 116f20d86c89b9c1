/**
 Names of blackbox logs: "LOG" + five digits + ".BFL", and the number the
 directory scan reads back out of a name with atoi().
 */
module BlackboxNames {

  const LOG_NUMBER_LIMIT := 100000

  predicate IsDigit(c: char) {
    '0' <= c <= '9'
  }

  predicate IsSpace(c: char) {
    c == ' ' || 9 <= c as int <= 13
  }

  function DigitChar(d: nat): char
    requires d < 10
  {
    ('0' as int + d) as char
  }

  function DigitValue(c: char): nat
    requires IsDigit(c)
  {
    c as int - '0' as int
  }

  /** printf's "%05d" for the numbers a log can carry. */
  function FiveDigits(n: nat): string
    requires n < LOG_NUMBER_LIMIT
  {
    [DigitChar(n / 10000), DigitChar(n / 1000 % 10), DigitChar(n / 100 % 10), DigitChar(n / 10 % 10), DigitChar(n % 10)]
  }

  function LogName(n: nat): string
    requires n < LOG_NUMBER_LIMIT
  {
    "LOG" + FiveDigits(n) + ".BFL"
  }

  /** The source checks length, prefix and suffix; it does not check that the middle is digits. */
  predicate IsLogName(name: string) {
    |name| == 12 && name[..3] == "LOG" && name[8] == '.' && name[9..] == "BFL"
  }

  /** Exactly the names "LOG" + five characters + ".BFL". */
  lemma LogNamesAre(name: string)
    ensures IsLogName(name) <==> exists middle: string :: |middle| == 5 && name == "LOG" + middle + ".BFL"
  {
    if IsLogName(name) {
      assert name[8..] == [name[8]] + name[9..];
      assert name == name[..3] + name[3..8] + name[8..];
      assert |name[3..8]| == 5 && name == "LOG" + name[3..8] + ".BFL";
    } else if middle: string :| |middle| == 5 && name == "LOG" + middle + ".BFL" {
      NameParts(middle);
    }
  }

  /** atoi(): optional white space, optional sign, then digits up to the first other character. */
  function Atoi(s: string): int {
    if s != [] && IsSpace(s[0]) then Atoi(s[1..])
    else if s != [] && s[0] == '-' then -DigitsValue(s[1..], 0)
    else if s != [] && s[0] == '+' then DigitsValue(s[1..], 0)
    else DigitsValue(s, 0)
  }

  function DigitsValue(s: string, value: int): int {
    if s == [] || !IsDigit(s[0]) then value else DigitsValue(s[1..], 10 * value + DigitValue(s[0]))
  }

  /** The number that decimal digits spell. */
  function Decimal(digits: string): nat
    requires forall c | c in digits :: IsDigit(c)
  {
    if digits == "" then 0 else 10 * Decimal(digits[..|digits| - 1]) + DigitValue(digits[|digits| - 1])
  }

  lemma {:induction false} DigitsSpell(before: string, after: string, rest: string)
    requires forall c | c in before + after :: IsDigit(c)
    requires rest != "" ==> !IsDigit(rest[0])
    ensures DigitsValue(after + rest, Decimal(before)) == Decimal(before + after)
    decreases |after|
  {
    if after == "" {
      assert after + rest == rest && before + after == before;
    } else {
      var more := before + [after[0]];
      assert more + after[1..] == before + after;
      assert more[..|more| - 1] == before;
      assert (after + rest)[1..] == after[1..] + rest;
      DigitsSpell(more, after[1..], rest);
    }
  }

  lemma {:induction false} BlanksAreSkipped(blanks: string, s: string)
    requires forall c | c in blanks :: IsSpace(c)
    ensures Atoi(blanks + s) == Atoi(s)
    decreases |blanks|
  {
    if blanks == "" {
      assert blanks + s == s;
    } else {
      assert (blanks + s)[0] in blanks && (blanks + s)[1..] == blanks[1..] + s;
      BlanksAreSkipped(blanks[1..], s);
    }
  }

  lemma DigitsAreRead(digits: string, rest: string)
    requires forall c | c in digits :: IsDigit(c)
    requires rest != "" ==> !IsDigit(rest[0])
    ensures DigitsValue(digits + rest, 0) == Decimal(digits)
  {
    assert "" + digits == digits;
    DigitsSpell("", digits, rest);
  }

  /**
   The scan reads the digits up to the first other character, behind blanks and possibly a
   sign; without digits it reads 0.
   */
  lemma AtoiReads(blanks: string, digits: string, rest: string)
    requires (forall c | c in blanks :: IsSpace(c)) && (forall c | c in digits :: IsDigit(c))
    requires rest != "" ==> !IsDigit(rest[0])
    ensures Atoi(blanks + (['-'] + (digits + rest))) == -(Decimal(digits) as int)
    ensures Atoi(blanks + (['+'] + (digits + rest))) == Decimal(digits)
    ensures digits != "" ==> Atoi(blanks + (digits + rest)) == Decimal(digits)
  {
    BlanksAreSkipped(blanks, ['-'] + (digits + rest));
    BlanksAreSkipped(blanks, ['+'] + (digits + rest));
    BlanksAreSkipped(blanks, digits + rest);
    DigitsAreRead(digits, rest);
    hide Decimal, DigitsValue;
    assert (['-'] + (digits + rest))[1..] == digits + rest;
    assert (['+'] + (digits + rest))[1..] == digits + rest;
    if digits != "" {
      assert (digits + rest)[0] == digits[0] && digits[0] in digits;
    }
  }

  /** The number sitlBlackboxCollect() gives to a directory entry. */
  function NumberOf(name: string): int
    requires IsLogName(name)
  {
    Atoi(name[3..])
  }

  lemma {:induction false} FiveDigitsValue(a: nat, b: nat, c: nat, d: nat, e: nat)
    requires a < 10 && b < 10 && c < 10 && d < 10 && e < 10
    ensures Atoi([DigitChar(a), DigitChar(b), DigitChar(c), DigitChar(d), DigitChar(e)] + ".BFL")
         == 10000 * a + 1000 * b + 100 * c + 10 * d + e
  {
    var s := [DigitChar(a), DigitChar(b), DigitChar(c), DigitChar(d), DigitChar(e)] + ".BFL";
    var v1 := a;
    var v2 := 10 * v1 + b;
    var v3 := 10 * v2 + c;
    var v4 := 10 * v3 + d;
    var v5 := 10 * v4 + e;
    assert s[5..][0] == '.';
    assert DigitsValue(s[5..], v5) == v5;
    assert s[4..][0] == DigitChar(e) && s[4..][1..] == s[5..];
    assert DigitsValue(s[4..], v4) == v5;
    assert s[3..][0] == DigitChar(d) && s[3..][1..] == s[4..];
    assert DigitsValue(s[3..], v3) == v5;
    assert s[2..][0] == DigitChar(c) && s[2..][1..] == s[3..];
    assert DigitsValue(s[2..], v2) == v5;
    assert s[1..][0] == DigitChar(b) && s[1..][1..] == s[2..];
    assert DigitsValue(s[1..], v1) == v5;
    assert s[0] == DigitChar(a);
  }

  lemma DigitsMakeTheNumber(n: nat)
    requires n < LOG_NUMBER_LIMIT
    ensures n == 10000 * (n / 10000) + 1000 * (n / 1000 % 10) + 100 * (n / 100 % 10) + 10 * (n / 10 % 10) + n % 10
  {
    var a := n / 10;
    var b := a / 10;
    var c := b / 10;
    assert b == n / 100;
    assert c == n / 1000;
    assert c / 10 == n / 10000;
  }

  /** Scanning a name this layer wrote gives back the number it was written with. */
  lemma LogNameRoundTrip(n: nat)
    requires n < 100000
    ensures IsLogName(LogName(n))
    ensures NumberOf(LogName(n)) == n
  {
    DigitsMakeTheNumber(n);
    FiveDigitsValue(n / 10000, n / 1000 % 10, n / 100 % 10, n / 10 % 10, n % 10);
    NameParts(FiveDigits(n));
  }

  lemma NameParts(digits: string)
    requires |digits| == 5
    ensures IsLogName("LOG" + digits + ".BFL")
    ensures ("LOG" + digits + ".BFL")[3..] == digits + ".BFL"
  {
    var name := "LOG" + digits + ".BFL";
    assert name[..3] == "LOG";
    assert name[9..] == "BFL";
  }

  lemma LogNamesDistinct(m: nat, n: nat)
    requires m < LOG_NUMBER_LIMIT && n < LOG_NUMBER_LIMIT && m != n
    ensures LogName(m) != LogName(n)
  {
    hide LogName;
    LogNameRoundTrip(m);
    LogNameRoundTrip(n);
  }
}
