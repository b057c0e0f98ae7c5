/** The `page` query parameter of the member listing: absent or empty means page 1,
    anything else goes through Go's `strconv.Atoi` on a 64-bit platform. */
module PageQuery {
  import opened Results

  const MinInt: int := -0x8000_0000_0000_0000
  const MaxInt: int := 0x7fff_ffff_ffff_ffff

  predicate IsDigit(c: char)
  {
    '0' <= c <= '9'
  }

  predicate AllDigits(ds: string)
  {
    forall i :: 0 <= i < |ds| ==> IsDigit(ds[i])
  }

  /** The number a string of decimal digits denotes, most significant digit first. */
  function Value(ds: string): nat
    requires AllDigits(ds)
    decreases |ds|
  {
    if |ds| == 0 then 0
    else Value(ds[..|ds| - 1]) * 10 + (ds[|ds| - 1] as int - '0' as int)
  }

  /** `strconv.Atoi`: an optional `+` or `-` followed by at least one decimal digit,
      denoting a value that fits a 64-bit int. Every other string is an error (syntax and
      range errors are not told apart here). */
  function Atoi(s: string): (r: Option<int>)
    ensures r.Some? ==> MinInt <= r.value <= MaxInt
    ensures r.Some? ==> |s| > 0
  {
    if |s| == 0 then None
    else
      var ds := if s[0] == '-' || s[0] == '+' then s[1..] else s;
      if |ds| == 0 || !AllDigits(ds) then None
      else
        var v: int := Value(ds);
        var n := if s[0] == '-' then -v else v;
        if MinInt <= n <= MaxInt then Some(n) else None
  }

  /** The page number the handler works with: 1 when the query value is empty (which is
      also what an absent parameter reads as), otherwise the value parsed by Atoi. */
  function ParsePage(q: string): (r: Option<int>)
    ensures q == "" ==> r == Some(1)
    ensures q != "" ==> r == Atoi(q)
    ensures r.Some? ==> MinInt <= r.value <= MaxInt
  {
    if q == "" then Some(1) else Atoi(q)
  }

  /** The decimal digits of `v`, most significant first, without leading zeros. */
  function Digits(v: nat): (ds: string)
    ensures |ds| > 0 && AllDigits(ds)
    ensures Value(ds) == v
    decreases v
  {
    var last := ('0' as int + v % 10) as char;
    if v < 10 then [last]
    else
      var prefix := Digits(v / 10);
      assert (prefix + [last])[..|prefix|] == prefix;
      prefix + [last]
  }

  /** The decimal rendering of an integer, as `strconv.Itoa` prints it. */
  function Itoa(n: int): (s: string)
    ensures |s| > 0
  {
    if n < 0 then "-" + Digits(-n) else Digits(n)
  }

  /** Atoi reads back every 64-bit integer from its decimal rendering. */
  lemma AtoiItoa(n: int)
    requires MinInt <= n <= MaxInt
    ensures Atoi(Itoa(n)) == Some(n)
  {
    var s := Itoa(n);
    if n < 0 {
      assert s[1..] == Digits(-n);
    } else {
      assert IsDigit(s[0]);
    }
  }

  /** The signs Atoi accepts in front of the digits: none, `+` or `-`. */
  predicate IsSign(sign: string)
  {
    sign == "" || sign == "+" || sign == "-"
  }

  /** The integer a sign followed by decimal digits denotes. */
  function Signed(sign: string, ds: string): int
    requires AllDigits(ds)
  {
    var v: int := Value(ds);
    if sign == "-" then -v else v
  }

  /** Every numeral, leading zeros and an explicit `+` included, is read as the integer it
      denotes when that integer fits 64 bits, and is rejected when it does not. */
  lemma AtoiNumeral(sign: string, ds: string)
    requires IsSign(sign) && |ds| > 0 && AllDigits(ds)
    ensures var v := Signed(sign, ds);
      Atoi(sign + ds) == if MinInt <= v <= MaxInt then Some(v) else None
  {
    var s := sign + ds;
    if sign == "" {
      assert s == ds;
      assert IsDigit(ds[0]);
    } else {
      assert s[1..] == ds;
    }
  }

  /** Atoi accepts nothing but numerals: whatever it reads is a sign followed by digits,
      and the integer returned is the one they denote. */
  lemma AtoiOnlyNumerals(s: string) returns (sign: string, ds: string)
    requires Atoi(s).Some?
    ensures IsSign(sign) && |ds| > 0 && AllDigits(ds)
    ensures s == sign + ds
    ensures Atoi(s) == Some(Signed(sign, ds))
  {
    if s[0] == '-' || s[0] == '+' {
      sign, ds := [s[0]], s[1..];
      assert s == [s[0]] + s[1..];
    } else {
      sign, ds := "", s;
    }
  }

  /** The decimal rendering of an integer outside 64 bits is a range error. */
  lemma OutOfRangeRejected(n: int)
    requires n < MinInt || n > MaxInt
    ensures Atoi(Itoa(n)) == None
    ensures ParsePage(Itoa(n)) == None
  {
    if n < 0 {
      AtoiNumeral("-", Digits(-n));
    } else {
      AtoiNumeral("", Digits(n));
    }
  }

  /** Non-canonical numerals are accepted too. */
  lemma NonCanonicalNumerals()
    ensures Atoi("+5") == Some(5)
    ensures Atoi("007") == Some(7)
    ensures Atoi("-0") == Some(0)
  {
    AtoiNumeral("+", "5");
    assert "007"[..2] == "00" && "00"[..1] == "0" && "0"[..0] == "";
    assert Value("007") == 7;
    AtoiNumeral("", "007");
    AtoiNumeral("-", "0");
  }

  /** A character other than a digit, anywhere but a leading sign, makes the page
      parameter invalid. */
  lemma NonNumericPageRejected(q: string, i: int)
    requires 0 <= i < |q| && !IsDigit(q[i])
    requires i > 0 || (q[0] != '+' && q[0] != '-')
    ensures ParsePage(q) == None
  {
    var ds := if q[0] == '-' || q[0] == '+' then q[1..] else q;
    if q[0] == '-' || q[0] == '+' {
      assert ds[i - 1] == q[i];
    } else {
      assert ds[i] == q[i];
    }
  }

  /** A sign with no digits after it is invalid. */
  lemma LoneSignRejected(q: string)
    requires q == "+" || q == "-"
    ensures ParsePage(q) == None
  {
  }
}
