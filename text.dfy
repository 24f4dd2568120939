/** The parts of Go's standard library that the gopher relies on, stated as small
    specified functions: `%d` formatting of an integer, `len` of a string in UTF-8
    bytes, and the subset of `fmt.Sprintf` (verbs `%s` and `%d`) its format strings use. */
module Text {

  /** The decimal digit character for `d`. */
  function DigitChar(d: nat): (c: char)
    requires d < 10
    ensures '0' <= c <= '9'
    ensures c as int - '0' as int == d
  {
    ('0' as int + d) as char
  }

  predicate IsDigits(s: string) {
    forall k :: 0 <= k < |s| ==> '0' <= s[k] <= '9'
  }

  /** The decimal numeral of `n`, most significant digit first, without leading zeros. */
  function Digits(n: nat): (s: string)
    ensures |s| >= 1 && IsDigits(s)
    ensures s[0] == '0' <==> n == 0
    ensures n < 10 <==> |s| == 1
    decreases n
  {
    if n < 10 then [DigitChar(n)] else Digits(n / 10) + [DigitChar(n % 10)]
  }

  /** Go's `%d` of an integer: an optional minus sign, then the digits of its magnitude. */
  function Itoa(n: int): (s: string)
    ensures |s| >= 1
    ensures n < 0 <==> s[0] == '-'
    ensures n >= 0 ==> IsDigits(s) && (s[0] == '0' <==> n == 0)
    ensures n == 0 ==> s == "0"
    ensures n < 0 ==> |s| >= 2 && IsDigits(s[1..]) && s[1] != '0'
  {
    if n < 0 then "-" + Digits(-n) else Digits(n)
  }

  /** The value of a string of decimal digits. */
  function DigitsValue(s: string): nat
    requires IsDigits(s)
    decreases |s|
  {
    if s == [] then 0 else 10 * DigitsValue(s[..|s| - 1]) + (s[|s| - 1] as int - '0' as int)
  }

  /** Reads back a numeral in the form `Itoa` writes. */
  function Atoi(s: string): int
    requires |s| >= 1
    requires if s[0] == '-' then IsDigits(s[1..]) else IsDigits(s)
  {
    if s[0] == '-' then -(DigitsValue(s[1..]) as int) else DigitsValue(s)
  }

  lemma {:induction false} DigitsRoundTrip(n: nat)
    ensures DigitsValue(Digits(n)) == n
    decreases n
  {
    if n >= 10 {
      DigitsRoundTrip(n / 10);
      var s := Digits(n);
      assert s[..|s| - 1] == Digits(n / 10);
    }
  }

  /** `%d` loses nothing: the numeral reads back as the integer it was written from. */
  lemma ItoaRoundTrip(n: int)
    ensures Atoi(Itoa(n)) == n
  {
    var s := Itoa(n);
    if n < 0 {
      assert s == "-" + Digits(-n);
      assert s[1..] == Digits(-n);
      DigitsRoundTrip(-n);
    } else {
      assert s == Digits(n);
      DigitsRoundTrip(n);
    }
  }

  /** Number of bytes in the UTF-8 encoding of one code point (Go's `utf8.RuneLen`). */
  function RuneLen(c: char): (n: nat)
    ensures 1 <= n <= 4
    ensures n == 1 <==> c as int < 0x80
  {
    if c as int < 0x80 then 1
    else if c as int < 0x800 then 2
    else if c as int < 0x1_0000 then 3
    else 4
  }

  /** Go's `len` of a string: the length of its UTF-8 encoding in bytes. */
  function ByteLen(s: string): (n: nat)
    ensures |s| <= n <= 4 * |s|
    decreases |s|
  {
    if s == [] then 0 else RuneLen(s[0]) + ByteLen(s[1..])
  }

  /** A string of ASCII characters has one byte per character. */
  lemma {:induction false} AsciiBytes(s: string)
    requires forall k :: 0 <= k < |s| ==> s[k] as int < 0x80
    ensures ByteLen(s) == |s|
    decreases |s|
  {
    if s != [] {
      AsciiBytes(s[1..]);
    }
  }

  lemma {:induction false} ByteLenAppend(a: string, b: string)
    ensures ByteLen(a + b) == ByteLen(a) + ByteLen(b)
    decreases |a|
  {
    if a != [] {
      var ab := a + b;
      assert ab != [] && ab[0] == a[0] && ab[1..] == a[1..] + b;
      ByteLenAppend(a[1..], b);
      assert ByteLen(ab) == RuneLen(ab[0]) + ByteLen(ab[1..]);
    } else {
      assert a + b == b;
    }
  }

  /** An argument passed to `Sprintf`. */
  datatype Arg = Str(s: string) | Int(n: int)

  /** Go's `fmt.Sprintf`, restricted to the verbs `%s` and `%d` with an argument of the
      matching kind; any other character of the format is copied as it is. */
  function Sprintf(format: string, args: seq<Arg>): string
    decreases |format|
  {
    if |format| == 0 then ""
    else if |format| >= 2 && format[0] == '%' && format[1] == 's' && |args| > 0 && args[0].Str? then
      args[0].s + Sprintf(format[2..], args[1..])
    else if |format| >= 2 && format[0] == '%' && format[1] == 'd' && |args| > 0 && args[0].Int? then
      Itoa(args[0].n) + Sprintf(format[2..], args[1..])
    else
      [format[0]] + Sprintf(format[1..], args)
  }

  /** The string holds no `%`, so as a format it has no verb. */
  predicate NoVerb(s: string) {
    forall k :: 0 <= k < |s| ==> s[k] != '%'
  }

  /** Characters of a format that hold no verb are copied to the output unchanged. */
  lemma {:induction false} SprintfLiteral(lit: string, rest: string, args: seq<Arg>)
    requires NoVerb(lit)
    ensures Sprintf(lit + rest, args) == lit + Sprintf(rest, args)
    decreases |lit|
  {
    if lit != [] {
      var f := lit + rest;
      assert f[0] == lit[0] && f[1..] == lit[1..] + rest;
      SprintfLiteral(lit[1..], rest, args);
      assert Sprintf(f, args) == [lit[0]] + Sprintf(f[1..], args);
      assert lit == [lit[0]] + lit[1..];
    } else {
      assert lit + rest == rest;
    }
  }

  /** `%s` consumes one string argument and writes it. */
  lemma SprintfString(rest: string, s: string, args: seq<Arg>)
    ensures Sprintf("%s" + rest, [Str(s)] + args) == s + Sprintf(rest, args)
  {
    assert ("%s" + rest)[2..] == rest;
    assert ([Str(s)] + args)[1..] == args;
  }

  /** `%d` consumes one integer argument and writes its numeral. */
  lemma SprintfInt(rest: string, n: int, args: seq<Arg>)
    ensures Sprintf("%d" + rest, [Int(n)] + args) == Itoa(n) + Sprintf(rest, args)
  {
    assert ("%d" + rest)[2..] == rest;
    assert ([Int(n)] + args)[1..] == args;
  }

  /** A format with one `%d` between two verb-free parts. */
  lemma SprintfOneInt(a: string, n: int, b: string)
    requires NoVerb(a) && NoVerb(b)
    ensures Sprintf(a + ("%d" + b), [Int(n)]) == a + (Itoa(n) + b)
  {
    SprintfLiteral(a, "%d" + b, [Int(n)]);
    SprintfInt(b, n, []);
    SprintfLiteral(b, "", []);
    assert [Int(n)] == [Int(n)] + [];
    assert b + "" == b;
  }

  /** A format with one `%s` between two verb-free parts. */
  lemma SprintfOneStr(a: string, s: string, b: string)
    requires NoVerb(a) && NoVerb(b)
    ensures Sprintf(a + ("%s" + b), [Str(s)]) == a + (s + b)
  {
    SprintfLiteral(a, "%s" + b, [Str(s)]);
    SprintfString(b, s, []);
    SprintfLiteral(b, "", []);
    assert [Str(s)] == [Str(s)] + [];
    assert b + "" == b;
  }
}
