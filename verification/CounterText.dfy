/** The text interface of the counter device: what `my_read` prints and what `my_write` accepts. */
module CounterText {
  import opened Words
  import opened LockedCounter

  const BUFFER_SIZE: nat := 32
  const EINVAL: int := 22
  const EFAULT: int := 14
  const ERANGE: int := 34

  datatype Parsed = Parsed(value: int) | ParseError(errno: int)

  // ------------------------------------------------------------------ printing

  /** "%d\n". */
  function Print(value: int): string {
    (if value < 0 then "-" + Digits(-value) else Digits(value)) + "\n"
  }

  /** `scnprintf` into a buffer of the given size keeps one place for the terminator. */
  function Fit(text: string, size: nat): string
    requires size > 0
  {
    if |text| < size then text else text[..size - 1]
  }

  // ------------------------------------------------------------------ parsing

  /** The string a buffer holds once a terminator is put behind it. */
  function CString(buf: string): string {
    if buf == [] || buf[0] == '\0' then "" else [buf[0]] + CString(buf[1..])
  }

  function LeadingDigits(s: string): (n: nat)
    ensures n <= |s| && forall i | 0 <= i < n :: IsDigit(s[i])
  {
    if s == [] || !IsDigit(s[0]) then 0 else 1 + LeadingDigits(s[1..])
  }

  function Value(digits: string): nat
    requires forall i | 0 <= i < |digits| :: IsDigit(digits[i])
  {
    if digits == [] then 0
    else
      assert IsDigit(digits[|digits| - 1]);
      Value(digits[..|digits| - 1]) * 10 + (digits[|digits| - 1] as int - '0' as int)
  }

  /** Decimal digits, at most one newline behind them, nothing else; 64 bits. */
  function ParseUnsigned(s: string): Parsed {
    var n := LeadingDigits(s);
    if n == 0 then ParseError(EINVAL)
    else if Value(s[..n]) >= TWO_64 then ParseError(ERANGE)
    else if s[n..] == "" || s[n..] == "\n" then Parsed(Value(s[..n]))
    else ParseError(EINVAL)
  }

  /** `kstrtol(s, 10, &value)` with a 64-bit long: an optional sign before the digits. */
  function KStrToL(s: string): Parsed {
    if s != [] && s[0] == '-' then
      match ParseUnsigned(s[1..])
      case Parsed(u) => if u > TWO_63 then ParseError(ERANGE) else Parsed(-u)
      case ParseError(e) => ParseError(e)
    else
      match ParseUnsigned(if s != [] && s[0] == '+' then s[1..] else s)
      case Parsed(u) => if u >= TWO_63 then ParseError(ERANGE) else Parsed(u)
      case ParseError(e) => ParseError(e)
  }

  // ------------------------------------------------------------------ the round trip

  lemma {:induction false} ValueOfDigits(n: nat)
    ensures Value(Digits(n)) == n
  {
    var s := Digits(n);
    if n >= 10 {
      assert s[..|s| - 1] == Digits(n / 10);
      ValueOfDigits(n / 10);
    } else {
      assert s[..|s| - 1] == "";
    }
  }

  lemma {:induction false} DigitsEnd(s: string, rest: string)
    requires (forall i | 0 <= i < |s| :: IsDigit(s[i])) && (rest == [] || !IsDigit(rest[0]))
    ensures LeadingDigits(s + rest) == |s|
  {
    if s == [] {
      assert s + rest == rest;
    } else {
      assert (s + rest)[1..] == s[1..] + rest;
      DigitsEnd(s[1..], rest);
    }
  }

  lemma PrintedUnsigned(n: nat)
    requires n < TWO_64
    ensures ParseUnsigned(Digits(n) + "\n") == Parsed(n)
  {
    var s := Digits(n) + "\n";
    DigitsEnd(Digits(n), "\n");
    ValueOfDigits(n);
    assert s[..|Digits(n)|] == Digits(n) && s[|Digits(n)|..] == "\n";
  }

  function Pow10(k: nat): nat {
    if k == 0 then 1 else 10 * Pow10(k - 1)
  }

  lemma {:induction false} DigitsLength(n: nat, k: nat)
    requires k > 0 && n < Pow10(k)
    ensures |Digits(n)| <= k
  {
    if n >= 10 {
      assert k > 1 by {
        assert Pow10(1) == 10;
      }
      DigitsLength(n / 10, k - 1);
    }
  }

  /** The text of an int has at most 12 characters: it fits the buffer and passes the length check. */
  lemma PrintLength(v: int)
    requires -TWO_31 <= v < TWO_31
    ensures 2 <= |Print(v)| <= 12 && Fit(Print(v), BUFFER_SIZE) == Print(v)
  {
    assert Pow10(10) == 10_000_000_000 by {
      assert Pow10(5) == 100_000;
    }
    DigitsLength(if v < 0 then -v else v, 10);
  }

  lemma {:induction false} NoNulKept(s: string)
    requires forall i | 0 <= i < |s| :: s[i] != '\0'
    ensures CString(s) == s
  {
    if s != [] {
      NoNulKept(s[1..]);
      assert s == [s[0]] + s[1..];
    }
  }

  lemma PrintHasNoNul(v: int)
    ensures CString(Print(v)) == Print(v)
  {
    NoNulKept(Print(v));
  }

  lemma PrintedNegative(n: nat)
    requires 0 < n <= TWO_31
    ensures KStrToL("-" + Digits(n) + "\n") == Parsed(0 - n)
  {
    var s := "-" + Digits(n) + "\n";
    assert s[1..] == Digits(n) + "\n";
    PrintedUnsigned(n);
  }

  /** What `my_read` prints for an int, `my_write` parses back to the same number. */
  lemma PrintParseRoundTrip(v: int)
    requires -TWO_31 <= v < TWO_31
    ensures KStrToL(CString(Print(v))) == Parsed(v)
  {
    PrintHasNoNul(v);
    if v < 0 {
      PrintedNegative(-v);
    } else {
      PrintedUnsigned(v);
      assert IsDigit(Print(v)[0]);
    }
  }

  lemma PrintInjective(v: int, w: int)
    requires -TWO_31 <= v < TWO_31 && -TWO_31 <= w < TWO_31 && Print(v) == Print(w)
    ensures v == w
  {
    PrintParseRoundTrip(v);
    PrintParseRoundTrip(w);
  }

  // ------------------------------------------------------------------ the forms of the text

  predicate AllDigits(s: string) {
    forall i | 0 <= i < |s| :: IsDigit(s[i])
  }

  lemma {:induction false} NoLeadingZero(n: nat)
    requires n > 0
    ensures Digits(n)[0] != '0'
  {
    if n >= 10 {
      NoLeadingZero(n / 10);
    }
  }

  /** A number is printed as a minus sign if it is negative, its decimal digits without leading zeros, a newline. */
  lemma PrintCanonical(v: int)
    ensures var n := if v < 0 then -v else v;
            exists digits: string ::
              && Print(v) == (if v < 0 then "-" else "") + digits + "\n"
              && digits != "" && AllDigits(digits) && Value(digits) == n
              && (digits[0] == '0' ==> digits == "0")
  {
    var n := if v < 0 then -v else v;
    ValueOfDigits(n);
    if n > 0 {
      NoLeadingZero(n);
    }
    assert Print(v) == (if v < 0 then "-" else "") + Digits(n) + "\n";
  }

  /** An optional sign, decimal digits, at most one newline: the spellings of v. */
  ghost predicate Spelled(s: string, sign: string, digits: string, end: string, v: int) {
    && s == sign + digits + end && sign in ["", "+", "-"] && end in ["", "\n"]
    && digits != "" && AllDigits(digits)
    && v == if sign == "-" then 0 - Value(digits) else Value(digits)
  }

  /** Digits and an ending are parsed as the value of the digits, whichever ending it is. */
  lemma ParsesDigits(digits: string, end: string)
    requires digits != "" && AllDigits(digits) && end in ["", "\n"]
    ensures ParseUnsigned(digits + end) == if Value(digits) >= TWO_64 then ParseError(ERANGE) else Parsed(Value(digits))
  {
    var s := digits + end;
    DigitsEnd(digits, end);
    assert s[..|digits|] == digits && s[|digits|..] == end;
  }

  /** Nothing else is accepted. */
  lemma ParsedIsDigits(s: string)
    requires ParseUnsigned(s).Parsed?
    ensures var n := LeadingDigits(s);
            && n > 0 && s == s[..n] + s[n..] && AllDigits(s[..n]) && s[n..] in ["", "\n"]
            && ParseUnsigned(s).value == Value(s[..n])
  {
  }

  /** Every spelling of a number that fits in 64 bits is parsed as this number, any other is out of range. */
  lemma ParsesEverySpelling(s: string, sign: string, digits: string, end: string, v: int)
    requires Spelled(s, sign, digits, end, v)
    ensures KStrToL(s) == if -TWO_63 <= v < TWO_63 then Parsed(v) else ParseError(ERANGE)
  {
    ParsesDigits(digits, end);
    SignOf(sign, digits + end);
    assert s == sign + (digits + end);
  }

  /** What stands behind an optional sign. */
  lemma SignOf(sign: string, rest: string)
    requires sign in ["", "+", "-"] && rest != "" && IsDigit(rest[0])
    ensures sign == "" ==> sign + rest == rest
    ensures sign != "" ==> (sign + rest)[0] == sign[0] && (sign + rest)[1..] == rest
  {
  }

  /** Whatever is parsed is a spelling of the result. */
  lemma ParsesOnlySpellings(s: string) returns (sign: string, digits: string, end: string)
    requires KStrToL(s).Parsed?
    ensures Spelled(s, sign, digits, end, KStrToL(s).value) && -TWO_63 <= KStrToL(s).value < TWO_63
  {
    sign := if s != [] && s[0] in ['-', '+'] then [s[0]] else "";
    var rest := s[|sign|..];
    assert s == sign + rest;
    assert sign == "" ==> rest == s;
    ParsedIsDigits(rest);
    digits, end := rest[..LeadingDigits(rest)], rest[LeadingDigits(rest)..];
    assert s == sign + digits + end;
  }

  // ------------------------------------------------------------------ the handlers

  /** What a write that could be copied in returns. */
  function WriteResult(buf: string): int {
    match KStrToL(CString(buf))
    case Parsed(_) => |buf|
    case ParseError(errno) => -errno
  }

  /** The device between two critical sections. */
  class CounterDevice {
    var counter: int

    constructor ()
      ensures counter == 0
    {
      counter := 0;
    }

    /**
     * `my_read`: a fresh file position yields the whole text or an error; a later one ends the file.
     * `fault` is what `copy_to_user` answers.
     */
    method MyRead(count: nat, ppos: nat, fault: bool) returns (ret: int, out: string, newPos: nat)
      requires -TWO_31 <= counter < TWO_31
      ensures ret == if ppos != 0 then 0
                     else if count < |Print(counter)| then -22  // EINVAL
                     else if fault then -14                     // EFAULT
                     else |Print(counter)|
      ensures ppos != 0 ==> ret == 0 && out == "" && newPos == ppos
      ensures ret > 0 ==> out == Print(counter) && ret == |out| == newPos <= 12
      ensures ret < 0 ==> out == "" && newPos == ppos
    {
      if ppos != 0 {
        return 0, "", ppos;
      }
      var value := counter;
      var tmp := Fit(Print(value), BUFFER_SIZE);
      PrintLength(value);
      var len := |tmp|;
      if count < len {
        return -EINVAL, "", ppos;
      }
      if fault {
        return -EFAULT, "", ppos;
      }
      return len, tmp, ppos + len;
    }

    /**
     * `my_write`: either the counter takes the parsed delta, or it keeps its value and an error comes back.
     * `fault` is what `copy_from_user` answers.
     */
    method MyWrite(buf: string, fault: bool) returns (ret: int)
      modifies this
      ensures ret == if |buf| == 0 || |buf| >= 32 then -22 else if fault then -14 else WriteResult(buf)
      ensures ret >= 0 ==> ret == |buf| && KStrToL(CString(buf)).Parsed? &&
                           counter == Plus(old(counter), KStrToL(CString(buf)).value)
      ensures ret < 0 ==> counter == old(counter)
    {
      if |buf| == 0 || |buf| >= BUFFER_SIZE {
        return -EINVAL;
      }
      if fault {
        return -EFAULT;
      }
      match KStrToL(CString(buf))
      case ParseError(errno) =>
        return -errno;
      case Parsed(delta) =>
        counter := Plus(counter, delta);
        return |buf|;
    }
  }

  lemma EchoIsAccepted(v: int)
    requires -TWO_31 <= v < TWO_31
    ensures KStrToL(CString(Print(v))) == Parsed(v) && WriteResult(Print(v)) == |Print(v)|
  {
    PrintParseRoundTrip(v);
  }

  lemma EchoDoubles(v: int)
    requires -TWO_31 <= v < TWO_31
    ensures Plus(v, v) == Int32(2 * v)
  {
    WrapOnce(v, v);
    assert Int32(v) == v;
  }

  /** Writing back what was read doubles the counter, modulo 2^32, unless a copy faults. */
  method Echo(device: CounterDevice, readFault: bool, writeFault: bool) returns (ret: int)
    requires -TWO_31 <= device.counter < TWO_31
    modifies device
    ensures ret == if readFault || writeFault then -14 else |Print(old(device.counter))|
    ensures device.counter ==
            if readFault || writeFault then old(device.counter) else Int32(2 * old(device.counter))
  {
    var v := device.counter;
    var n, text, pos := device.MyRead(BUFFER_SIZE, 0, readFault);
    PrintLength(v);
    if n < 0 {
      return n;
    }
    EchoIsAccepted(v);
    EchoDoubles(v);
    ret := device.MyWrite(text, writeFault);
  }
}
