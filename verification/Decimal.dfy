/** Printing integers in decimal, and the C library's way of reading them back. */
module Decimal {
  import opened Common

  const LONG_MAX: int := 0x7fff_ffff_ffff_ffff
  const LONG_RANGE: int := 0x1_0000_0000_0000_0000

  datatype Reading = Read(value: int, length: int) | InvalidArgument | OutOfRange

  predicate IsDigit(c: char) {
    '0' <= c <= '9'
  }

  function DigitChar(d: nat): (c: char)
    requires d < 10
    ensures IsDigit(c)
  {
    (48 + d) as char
  }

  function DigitValue(c: char): nat
    requires IsDigit(c)
  {
    c as int - 48
  }

  /** `fmt::format_int` of a natural number. */
  function Digits(n: nat): (s: string)
    ensures s != ""
  {
    (if n < 10 then "" else Digits(n / 10)) + [DigitChar(n % 10)]
  }

  function Printed(n: int): (s: string)
    ensures s != ""
  {
    if n < 0 then "-" + Digits(-n) else Digits(n)
  }

  predicate AllDigits(s: string) {
    forall i :: 0 <= i < |s| ==> IsDigit(s[i])
  }

  function Value(s: string): nat
    requires AllDigits(s)
  {
    if s == "" then 0 else 10 * Value(s[..|s| - 1]) + DigitValue(s[|s| - 1])
  }

  /** The length of the longest run of digits at the front. */
  function DigitRun(s: string): (k: nat)
    ensures k <= |s| && AllDigits(s[..k])
    ensures k < |s| ==> !IsDigit(s[k])
  {
    if s == "" || !IsDigit(s[0]) then 0 else
      assert s[..1 + DigitRun(s[1..])] == [s[0]] + s[1..][..DigitRun(s[1..])];
      1 + DigitRun(s[1..])
  }

  function SpaceRun(s: string): (k: nat)
    ensures k <= |s|
  {
    if s == "" || !IsSpace(s[0]) then 0 else 1 + SpaceRun(s[1..])
  }

  /** As many digits as there are. */
  function ScannedDigits(s: string): (r: Reading)
    ensures r.Read? ==> 0 < r.length <= |s|
  {
    var k := DigitRun(s);
    if k == 0 then InvalidArgument else Read(Value(s[..k]), k)
  }

  /** A reading with a number of characters in front of it, negated or not. */
  function After(r: Reading, skipped: nat, minus: bool): (a: Reading)
    ensures a.Read? <==> r.Read?
    ensures a.Read? ==> a.length == skipped + r.length
  {
    match r
    case Read(v, n) => Read(if minus then -v else v, skipped + n)
    case other => other
  }

  /** What `strtol` and `strtoul` read: spaces, a sign, and as many digits as there are. */
  function Scanned(s: string): (r: Reading)
    ensures r.Read? ==> 0 < r.length <= |s|
  {
    var w := SpaceRun(s);
    if w < |s| && (s[w] == '-' || s[w] == '+') then After(ScannedDigits(s[w + 1..]), w + 1, s[w] == '-')
    else After(ScannedDigits(s[w..]), w, false)
  }

  /** `std::stol` */
  function Stol(s: string): (r: Reading)
    ensures r.Read? ==> 0 < r.length <= |s|
  {
    match Scanned(s)
    case Read(v, n) => if -LONG_MAX - 1 <= v <= LONG_MAX then Read(v, n) else OutOfRange
    case other => other
  }

  /** `std::stoul`: a negative number wraps around. */
  function Stoul(s: string): (r: Reading)
    ensures r.Read? ==> 0 < r.length <= |s|
  {
    match Scanned(s)
    case Read(v, n) =>
      if -LONG_RANGE < v < LONG_RANGE then Read(if v < 0 then v + LONG_RANGE else v, n) else OutOfRange
    case other => other
  }

  // ---------------------------------------------------------------- reading undoes printing

  lemma ValueSnoc(digits: string, d: nat)
    requires AllDigits(digits) && d < 10
    ensures AllDigits(digits + [DigitChar(d)]) && Value(digits + [DigitChar(d)]) == 10 * Value(digits) + d
  {
  }

  lemma {:induction false} DigitsValue(n: nat)
    ensures AllDigits(Digits(n)) && Value(Digits(n)) == n
    decreases n
  {
    hide DigitChar, AllDigits, Value;
    NothingIsZero();
    if n < 10 {
      ValueSnoc("", n);
    } else {
      DigitsValue(n / 10);
      ValueSnoc(Digits(n / 10), n % 10);
    }
  }

  lemma NothingIsZero()
    ensures AllDigits("") && Value("") == 0
  {
  }

  lemma {:induction false} RunOfDigits(digits: string, rest: string)
    requires AllDigits(digits) && (rest == "" || !IsDigit(rest[0]))
    ensures DigitRun(digits + rest) == |digits|
    decreases |digits|
  {
    if digits == "" {
      assert digits + rest == rest;
    } else {
      assert (digits + rest)[1..] == digits[1..] + rest && (digits + rest)[0] == digits[0];
      RunOfDigits(digits[1..], rest);
    }
  }

  lemma TakeFront(a: string, b: string)
    ensures (a + b)[..|a|] == a && (a + b)[|a|..] == b
  {
  }

  lemma ScanRun(digits: string, rest: string)
    requires digits != "" && AllDigits(digits) && (rest == "" || !IsDigit(rest[0]))
    ensures ScannedDigits(digits + rest) == Read(Value(digits), |digits|)
  {
    hide Value, DigitRun;
    RunOfDigits(digits, rest);
    TakeFront(digits, rest);
  }

  lemma ScanPlain(s: string)
    requires s != "" && IsDigit(s[0])
    ensures Scanned(s) == ScannedDigits(s)
  {
  }

  lemma ScanMinus(s: string)
    ensures Scanned("-" + s) == After(ScannedDigits(s), 1, true)
  {
  }

  /** Scanning stops at the separator after a printed number and yields the number. */
  lemma ScanPrinted(n: int, rest: string)
    requires rest == "" || !IsDigit(rest[0])
    ensures Scanned(Printed(n) + rest) == Read(n, |Printed(n)|)
  {
    hide Digits, Value, Scanned, ScannedDigits;
    var m: nat := if n < 0 then -n else n;
    var d := Digits(m);
    DigitsValue(m);
    ScanRun(d, rest);
    assert IsDigit(d[0]);
    if n < 0 {
      assert Printed(n) + rest == "-" + (d + rest);
      ScanMinus(d + rest);
    } else {
      ScanPlain(d + rest);
    }
  }

  // ---------------------------------------------------------------- what is read, and what is not

  predicate AllSpace(s: string) {
    forall i :: 0 <= i < |s| ==> IsSpace(s[i])
  }

  function Signed(sign: string, n: int): int {
    if sign == "-" then -n else n
  }

  /** The text is spaces, a sign or none, and digits, and stands for the number. */
  predicate IsNumeral(t: string, spaces: string, sign: string, digits: string, v: int) {
    && t == spaces + (sign + digits) && AllSpace(spaces) && (sign == "" || sign == "-" || sign == "+")
    && digits != "" && AllDigits(digits) && v == Signed(sign, Value(digits))
  }

  ghost predicate StandsFor(t: string, v: int) {
    exists spaces, sign, digits :: IsNumeral(t, spaces, sign, digits, v)
  }

  lemma {:induction false} SpacesRun(spaces: string, rest: string)
    requires AllSpace(spaces) && (rest == "" || !IsSpace(rest[0]))
    ensures SpaceRun(spaces + rest) == |spaces|
    decreases |spaces|
  {
    if spaces == "" {
      assert spaces + rest == rest;
    } else {
      assert (spaces + rest)[1..] == spaces[1..] + rest && (spaces + rest)[0] == spaces[0];
      SpacesRun(spaces[1..], rest);
    }
  }

  lemma {:induction false} RunIsSpace(s: string)
    ensures AllSpace(s[..SpaceRun(s)]) && (SpaceRun(s) < |s| ==> !IsSpace(s[SpaceRun(s)]))
    decreases |s|
  {
    if s != "" && IsSpace(s[0]) {
      RunIsSpace(s[1..]);
      var k := SpaceRun(s[1..]);
      assert s[..1 + k] == [s[0]] + s[1..][..k];
    }
  }

  /** A numeral and no digit after it is read as its number. */
  lemma ScanNumeral(spaces: string, sign: string, digits: string, v: int, rest: string)
    requires IsNumeral(spaces + (sign + digits), spaces, sign, digits, v) && (rest == "" || !IsDigit(rest[0]))
    ensures Scanned(spaces + (sign + (digits + rest))) == Read(v, |spaces + (sign + digits)|)
  {
    hide Value, ScannedDigits, DigitRun, SpaceRun;
    var after := sign + (digits + rest);
    var s := spaces + after;
    ScanRun(digits, rest);
    assert after[0] == if sign == "" then digits[0] else sign[0];
    SpacesRun(spaces, after);
    TakeFront(spaces, after);
    var w := |spaces|;
    assert s[w..] == after && s[w] == after[0];
    if sign == "" {
      assert after == digits + rest;
    } else {
      assert s[w + 1..] == after[1..] == digits + rest;
    }
  }

  /** Reading takes a numeral from the front and stops where its digits end, and fails exactly when
      there is none there. */
  lemma ScansNumerals(s: string)
    ensures Scanned(s).Read? ==>
              var r := Scanned(s);
              StandsFor(s[..r.length], r.value) && (r.length < |s| ==> !IsDigit(s[r.length]))
    ensures Scanned(s) != OutOfRange
    ensures Scanned(s).InvalidArgument? ==> forall n, v :: 0 <= n <= |s| ==> !StandsFor(s[..n], v)
  {
    hide Value, SpaceRun, DigitRun;
    var w := SpaceRun(s);
    RunIsSpace(s);
    var spaces := s[..w];
    var sign := if w < |s| && (s[w] == '-' || s[w] == '+') then [s[w]] else "";
    var at := w + |sign|;
    assert s[at..] == s[w..][|sign|..];
    var k := DigitRun(s[at..]);
    var digits := s[at..][..k];
    if k > 0 {
      var v := Signed(sign, Value(digits));
      assert s[..at + k] == spaces + (sign + digits);
      assert IsNumeral(s[..at + k], spaces, sign, digits, v);
      assert at + k < |s| ==> s[at + k] == s[at..][k];
    } else {
      forall n, v | 0 <= n <= |s|
        ensures !StandsFor(s[..n], v)
      {
        if StandsFor(s[..n], v) {
          NoNumeral(s, n, v);
        }
      }
    }
  }

  lemma NoNumeral(s: string, n: nat, v: int)
    requires n <= |s| && StandsFor(s[..n], v)
    ensures Scanned(s).Read?
  {
    hide Value, Scanned, DigitRun, Signed, AllSpace, AllDigits, IsDigit;
    var spaces, sign, digits :| IsNumeral(s[..n], spaces, sign, digits, v);
    var all := s[n..];
    var k := DigitRun(all);
    var more, rest := all[..k], all[k..];
    var longer := digits + more;
    MoreDigits(digits, more);
    ScanNumeral(spaces, sign, longer, Signed(sign, Value(longer)), rest);
    TakeFront(more, rest);
    assert all == more + rest && s == s[..n] + all;
    Regrouped(spaces, sign, digits, more, rest);
  }

  lemma Regrouped(a: string, b: string, c: string, d: string, e: string)
    ensures (a + (b + c)) + (d + e) == a + (b + ((c + d) + e))
  {
  }

  lemma MoreDigits(a: string, b: string)
    requires AllDigits(a) && AllDigits(b)
    ensures AllDigits(a + b)
  {
  }
}
