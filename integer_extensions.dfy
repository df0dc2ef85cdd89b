/**
 * `IntegerExtensions`: deciding whether a string holds a 32-bit integer and
 * reading it, with the grammar of `Integer.parseInt` (radix 10, ASCII digits).
 */
module IntegerExtensions {
  import opened Common
  import opened JavaStrings

  const IntMin: int := -0x8000_0000
  const IntMax: int := 0x7FFF_FFFF

  predicate IsDigit(c: char) {
    '0' <= c <= '9'
  }

  predicate AllDigits(s: string) {
    forall i :: 0 <= i < |s| ==> IsDigit(s[i])
  }

  function DigitValue(c: char): nat
    requires IsDigit(c)
  {
    c as int - '0' as int
  }

  function DigitChar(d: nat): (c: char)
    requires d < 10
    ensures IsDigit(c) && DigitValue(c) == d
  {
    ('0' as int + d) as char
  }

  /** The number a digit string denotes, most significant digit first. */
  function DigitsValue(s: string): nat
    requires AllDigits(s)
    decreases |s|
  {
    if s == [] then 0 else DigitsValue(s[..|s| - 1]) * 10 + DigitValue(s[|s| - 1])
  }

  /** The shortest decimal rendering of a natural number. */
  function NatDigits(n: nat): (s: string)
    ensures s != [] && AllDigits(s)
    ensures s[0] == '0' ==> n == 0
    decreases n
  {
    if n < 10 then [DigitChar(n)] else NatDigits(n / 10) + [DigitChar(n % 10)]
  }

  /** `Integer.toString(n)`. */
  function ToDecimal(n: int): (s: string)
    ensures s != []
  {
    if n < 0 then "-" + NatDigits(-n) else NatDigits(n)
  }

  /** The syntax `Integer.parseInt` accepts: an optional sign, then at least one digit. */
  predicate IsIntegerLiteral(s: string) {
    if s != [] && (s[0] == '-' || s[0] == '+') then |s| > 1 && AllDigits(s[1..])
    else s != [] && AllDigits(s)
  }

  /** The mathematical value of a literal, before the range check. */
  function LiteralValue(s: string): int
    requires IsIntegerLiteral(s)
  {
    if s[0] == '-' then -(DigitsValue(s[1..]) as int)
    else if s[0] == '+' then DigitsValue(s[1..])
    else DigitsValue(s)
  }

  /**
   * `Integer.parseInt(s)`: `None` stands for the NumberFormatException thrown
   * for a malformed literal or for one outside the 32-bit range.
   */
  function ParseInt(s: string): (r: Option<int>)
    ensures r.Some? <==> IsIntegerLiteral(s) && IntMin <= LiteralValue(s) <= IntMax
    ensures r.Some? ==> r.value == LiteralValue(s)
  {
    if !IsIntegerLiteral(s) then None
    else
      var v := LiteralValue(s);
      if IntMin <= v <= IntMax then Some(v) else None
  }

  /** Reading back a rendered natural number gives the number. */
  lemma {:induction false} DigitsValueOfNatDigits(n: nat)
    ensures DigitsValue(NatDigits(n)) == n
    decreases n
  {
    if n >= 10 {
      var s := NatDigits(n);
      DigitsValueOfNatDigits(n / 10);
      assert s[..|s| - 1] == NatDigits(n / 10);
    }
  }

  /** `parseInt(Integer.toString(n)) == n` for every 32-bit `n`. */
  lemma ParseDecimal(n: int)
    requires IntMin <= n <= IntMax
    ensures ParseInt(ToDecimal(n)) == Some(n)
  {
    var s := ToDecimal(n);
    if n < 0 {
      DigitsValueOfNatDigits(-n);
      assert s[1..] == NatDigits(-n);
    } else {
      DigitsValueOfNatDigits(n);
    }
  }

  /**
   * `isIntegerStr(strNum)`: `None` is Java's `null`, which is not an integer;
   * otherwise the trimmed string must parse.
   */
  function IsIntegerStr(s: Option<string>): (b: bool)
    ensures s.None? ==> !b
    ensures s.Some? ==> (b <==> ParseInt(Trim(s.value)).Some?)
  {
    match s
    case None => false
    case Some(str) => ParseInt(Trim(str)).Some?
  }

  /**
   * `tryParseInt(strNum)`: the value of the trimmed string if it is an
   * integer, `None` (Java's `null`) otherwise. The argument is trimmed
   * before any null check, so it must not be null: the type says so.
   */
  function TryParseInt(s: string): (r: Option<int>)
    ensures r == ParseInt(Trim(s))
    ensures r.Some? <==> IsIntegerStr(Some(s))
    ensures r.Some? ==> IntMin <= r.value <= IntMax
  {
    var trimmed := Trim(s);
    TrimIdempotent(s);
    if IsIntegerStr(Some(trimmed)) then ParseInt(trimmed) else None
  }

  /** A rendered 32-bit integer has nothing to trim, so it reads back as itself. */
  lemma TryParseDecimal(n: int)
    requires IntMin <= n <= IntMax
    ensures TryParseInt(ToDecimal(n)) == Some(n)
  {
    var s := ToDecimal(n);
    assert !IsTrimmable(s[0]) && !IsTrimmable(s[|s| - 1]);
    TrimOfUnpadded(s);
    ParseDecimal(n);
  }

  /** Blanks around the literal are ignored. */
  lemma TryParsePadded(pre: string, n: int, post: string)
    requires IntMin <= n <= IntMax
    requires forall i :: 0 <= i < |pre| ==> IsTrimmable(pre[i])
    requires forall i :: 0 <= i < |post| ==> IsTrimmable(post[i])
    ensures TryParseInt(pre + ToDecimal(n) + post) == Some(n)
  {
    var d := ToDecimal(n);
    assert !IsTrimmable(d[0]) && !IsTrimmable(d[|d| - 1]);
    StripBlanks(pre, d, post);
    ParseDecimal(n);
  }

  lemma {:induction false} StripBlanks(pre: string, s: string, post: string)
    requires s != [] && !IsTrimmable(s[0]) && !IsTrimmable(s[|s| - 1])
    requires forall i :: 0 <= i < |pre| ==> IsTrimmable(pre[i])
    requires forall i :: 0 <= i < |post| ==> IsTrimmable(post[i])
    ensures Trim(pre + s + post) == s
  {
    StripStart(pre, s + post);
    assert pre + s + post == pre + (s + post);
    StripEnd(s, post);
  }

  lemma {:induction false} StripStart(pre: string, s: string)
    requires s != [] && !IsTrimmable(s[0])
    requires forall i :: 0 <= i < |pre| ==> IsTrimmable(pre[i])
    ensures TrimStart(pre + s) == s
    decreases |pre|
  {
    if pre != [] {
      assert (pre + s)[1..] == pre[1..] + s;
      StripStart(pre[1..], s);
    }
  }

  lemma {:induction false} StripEnd(s: string, post: string)
    requires s != [] && !IsTrimmable(s[|s| - 1])
    requires forall i :: 0 <= i < |post| ==> IsTrimmable(post[i])
    ensures TrimEnd(s + post) == s
    decreases |post|
  {
    if post != [] {
      var p := post[..|post| - 1];
      assert (s + post)[..|s + post| - 1] == s + p;
      StripEnd(s, p);
    }
  }

  /** The malformed literals that the parser rejects, and Java's `null`. */
  lemma RejectedMalformed()
    ensures TryParseInt("") == None
    ensures TryParseInt("-") == None
    ensures TryParseInt("1.5") == None
    ensures !IsIntegerStr(None)
  {
    assert Trim("") == "";
    TrimOfUnpadded("-");
    TrimOfUnpadded("1.5");
    assert !IsDigit("1.5"[1]);
  }

  /** One past the largest 32-bit integer is rejected. */
  lemma RejectedOverflow()
    ensures TryParseInt("2147483648") == None
  {
    var big := "2147483648";
    TrimOfUnpadded(big);
    BigRendering();
    DigitsValueOfNatDigits(2147483648);
  }

  lemma BigRendering()
    ensures NatDigits(2147483648) == "2147483648"
  {
    assert NatDigits(2) == "2";
    assert NatDigits(21) == "21";
    assert NatDigits(214) == "214";
    assert NatDigits(2147) == "2147";
    assert NatDigits(21474) == "21474";
    assert NatDigits(214748) == "214748";
    assert NatDigits(2147483) == "2147483";
    assert NatDigits(21474836) == "21474836";
    assert NatDigits(214748364) == "214748364";
  }

  /** An example, for the reader: `" 42 "` reads as 42 (TryParsePadded states the general fact). */
  lemma PaddedFortyTwo()
    ensures TryParseInt(" 42 ") == Some(42)
  {
    assert ToDecimal(42) == "42";
    assert " 42 " == " " + ToDecimal(42) + " ";
    TryParsePadded(" ", 42, " ");
  }
}
