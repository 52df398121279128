/** Human-readable byte sizes such as "100MB", and the non-negative integers inside them.

    The result is an int64 and the product wraps, as Go's multiplication does. */
module ByteSize {

  datatype ParseError = Syntax | Range

  datatype Result = Success(value: int) | Failure(error: ParseError)

  const MAX_INT64: int := 0x7fff_ffff_ffff_ffff
  const TWO_TO_64: int := 0x1_0000_0000_0000_0000

  /** The int64 that `n` becomes when only its low 64 bits are kept. */
  function Wrap64(n: int): (r: int)
    ensures -MAX_INT64 - 1 <= r <= MAX_INT64
    ensures -MAX_INT64 - 1 <= n <= MAX_INT64 ==> r == n
  {
    (n + MAX_INT64 + 1) % TWO_TO_64 - MAX_INT64 - 1
  }

  // ----- characters and strings

  /** The characters that `strings.TrimSpace` removes. */
  predicate IsSpace(c: char) {
    || '\t' <= c <= '\r'
    || c in {' ', '\U{85}', '\U{A0}', '\U{1680}', '\U{2028}', '\U{2029}', '\U{202F}', '\U{205F}', '\U{3000}'}
    || '\U{2000}' <= c <= '\U{200A}'
  }

  predicate IsDigit(c: char) {
    '0' <= c <= '9'
  }

  predicate AllSpace(s: string) {
    forall c :: c in s ==> IsSpace(c)
  }

  predicate AllDigits(s: string) {
    forall c :: c in s ==> IsDigit(c)
  }

  /** Upper case.  No letter outside ASCII has one of the characters that matter here (digits,
      signs, G, M, K, B, spaces) as its upper case, so those letters are left as they are. */
  function UpperChar(c: char): char {
    if 'a' <= c <= 'z' then c - 'a' + 'A' else c
  }

  function ToUpper(s: string): (r: string)
    ensures |r| == |s| && forall i :: 0 <= i < |s| ==> r[i] == UpperChar(s[i])
  {
    if s == "" then "" else [UpperChar(s[0])] + ToUpper(s[1..])
  }

  function TrimLeft(s: string): string {
    if s != "" && IsSpace(s[0]) then TrimLeft(s[1..]) else s
  }

  function TrimRight(s: string): string {
    if s != "" && IsSpace(s[|s| - 1]) then TrimRight(s[..|s| - 1]) else s
  }

  function TrimSpace(s: string): string {
    TrimRight(TrimLeft(s))
  }

  predicate HasSuffix(s: string, t: string) {
    |t| <= |s| && forall i :: 0 <= i < |t| ==> s[|s| - |t| + i] == t[i]
  }

  function DigitValue(c: char): nat
    requires IsDigit(c)
  {
    (c - '0') as nat
  }

  /** The number a string of decimal digits writes. */
  function Value(d: string): nat
    requires AllDigits(d)
  {
    if d == "" then 0 else 10 * Value(d[..|d| - 1]) + DigitValue(d[|d| - 1])
  }

  // ----- the parsers

  /** `strconv.Atoi` where `int` has 64 bits: an optional sign, then at least one digit. */
  function Atoi(s: string): Result {
    var signed := s != "" && s[0] in {'+', '-'};
    var d := if signed then s[1..] else s;
    if d == "" || !AllDigits(d) then Failure(Syntax)
    else
      var v: int := Value(d);
      var n := if signed && s[0] == '-' then -v else v;
      if -MAX_INT64 - 1 <= n <= MAX_INT64 then Success(n) else Failure(Range)
  }

  /** A non-negative integer. */
  function StrconvAtoi(s: string): Result {
    var r := Atoi(s);
    if r.Success? && r.value < 0 then Failure(Range) else r
  }

  predicate IsUnit(u: string) {
    u in {"", "B", "KB", "MB", "GB"}
  }

  function Multiplier(u: string): int {
    if u == "GB" then 1024 * 1024 * 1024
    else if u == "MB" then 1024 * 1024
    else if u == "KB" then 1024
    else 1
  }

  /** The unit an upper-case text ends in, longest first. */
  function UnitOf(s: string): string {
    if HasSuffix(s, "GB") then "GB"
    else if HasSuffix(s, "MB") then "MB"
    else if HasSuffix(s, "KB") then "KB"
    else if HasSuffix(s, "B") then "B"
    else ""
  }

  function ParseByteSize(s: string): Result {
    var upper := ToUpper(TrimSpace(s));
    var unit := UnitOf(upper);
    var n := StrconvAtoi(TrimSpace(upper[..|upper| - |unit|]));
    if n.Failure? then n else Success(Wrap64(n.value * Multiplier(unit)))
  }

  // ----- trimming

  lemma {:induction false} TrimLeftSpaces(a: string, x: string)
    requires AllSpace(a) && (x == "" || !IsSpace(x[0]))
    ensures TrimLeft(a + x) == x
  {
    if a == "" {
      assert a + x == x;
    } else {
      assert (a + x)[1..] == a[1..] + x;
      TrimLeftSpaces(a[1..], x);
    }
  }

  lemma {:induction false} TrimRightSpaces(x: string, c: string)
    requires AllSpace(c) && (x == "" || !IsSpace(x[|x| - 1]))
    ensures TrimRight(x + c) == x
  {
    if c == "" {
      assert x + c == x;
    } else {
      assert (x + c)[..|x + c| - 1] == x + c[..|c| - 1];
      TrimRightSpaces(x, c[..|c| - 1]);
    }
  }

  lemma TrimSpaces(a: string, x: string, c: string)
    requires AllSpace(a) && AllSpace(c)
    requires x != "" && !IsSpace(x[0]) && !IsSpace(x[|x| - 1])
    ensures TrimSpace(a + x + c) == x
  {
    assert a + x + c == a + (x + c);
    TrimLeftSpaces(a, x + c);
    TrimRightSpaces(x, c);
  }

  lemma {:induction false} TrimLeftParts(s: string) returns (a: string)
    ensures AllSpace(a) && s == a + TrimLeft(s)
    ensures TrimLeft(s) == "" || !IsSpace(TrimLeft(s)[0])
  {
    a := "";
    if s != "" && IsSpace(s[0]) {
      a := TrimLeftParts(s[1..]);
      a := [s[0]] + a;
    }
  }

  lemma {:induction false} TrimRightParts(s: string) returns (c: string)
    ensures AllSpace(c) && s == TrimRight(s) + c
    ensures TrimRight(s) == "" || !IsSpace(TrimRight(s)[|TrimRight(s)| - 1])
  {
    c := "";
    if s != "" && IsSpace(s[|s| - 1]) {
      c := TrimRightParts(s[..|s| - 1]);
      c := c + [s[|s| - 1]];
    }
  }

  /** `TrimSpace` takes off spaces at both ends and nothing else. */
  lemma TrimSpaceParts(s: string) returns (a: string, c: string)
    ensures AllSpace(a) && AllSpace(c) && s == a + TrimSpace(s) + c
    ensures TrimSpace(s) != "" ==> !IsSpace(TrimSpace(s)[0]) && !IsSpace(TrimSpace(s)[|TrimSpace(s)| - 1])
  {
    a := TrimLeftParts(s);
    c := TrimRightParts(TrimLeft(s));
    assert TrimSpace(s) != "" ==> TrimSpace(s)[0] == TrimLeft(s)[0];
  }

  // ----- what the parser accepts

  /** How a number may be written: an optional sign and at least one digit. */
  predicate IsNumber(sign: string, d: string) {
    sign in {"", "+", "-"} && d != "" && AllDigits(d)
  }

  function SignedValue(sign: string, d: string): int
    requires AllDigits(d)
  {
    var v: int := Value(d);
    if sign == "-" then -v else v
  }

  /** What the size parser makes of a number and a unit. */
  function Denotes(sign: string, d: string, multiplier: int): Result
    requires AllDigits(d)
  {
    var n := SignedValue(sign, d);
    if 0 <= n <= MAX_INT64 then Success(Wrap64(n * multiplier)) else Failure(Range)
  }

  lemma AtoiOfNumber(sign: string, d: string)
    requires IsNumber(sign, d)
    ensures StrconvAtoi(sign + d) == if 0 <= SignedValue(sign, d) <= MAX_INT64
                                     then Success(SignedValue(sign, d)) else Failure(Range)
  {
    assert IsDigit(d[0]) by { assert d[0] in d; }
    if sign != "" {
      assert (sign + d)[1..] == d;
    } else {
      assert sign + d == d;
    }
  }

  lemma {:induction false} UpperAppend(x: string, y: string)
    ensures ToUpper(x + y) == ToUpper(x) + ToUpper(y)
  {
  }

  lemma UpperUnchanged(x: string)
    requires forall c :: c in x ==> IsSpace(c) || IsDigit(c) || c in {'+', '-'}
    ensures ToUpper(x) == x
  {
    assert forall i :: 0 <= i < |x| ==> x[i] in x;
  }

  lemma SuffixTwo(s: string, t: string)
    requires |t| == 2
    ensures HasSuffix(s, t) <==> |s| >= 2 && s[|s| - 2] == t[0] && s[|s| - 1] == t[1]
  {
    if HasSuffix(s, t) {
      assert s[|s| - 2 + 0] == t[0];
      assert s[|s| - 2 + 1] == t[1];
    }
  }

  lemma SuffixOne(s: string, t: string)
    requires |t| == 1
    ensures HasSuffix(s, t) <==> |s| >= 1 && s[|s| - 1] == t[0]
  {
    if HasSuffix(s, t) {
      assert s[|s| - 1 + 0] == t[0];
    }
  }

  /** A text ending in a digit or a space, followed by a unit, is seen to end in that unit. */
  lemma UnitFound(x: string, u: string)
    requires x != "" && (IsDigit(x[|x| - 1]) || IsSpace(x[|x| - 1])) && IsUnit(u)
    ensures UnitOf(x + u) == u
  {
    var s := x + u;
    SuffixTwo(s, "GB");
    SuffixTwo(s, "MB");
    SuffixTwo(s, "KB");
    SuffixOne(s, "B");
    hide HasSuffix;
    assert s[|x| - 1] == x[|x| - 1];
    assert |u| == 2 ==> s[|s| - 2] == u[0] && s[|s| - 1] == 'B';
    assert |u| == 1 ==> s[|s| - 1] == 'B';
  }

  /** Every text made of spaces, a number, spaces, a unit in any case and spaces is read as the
      number times the unit, wrapped to 64 bits; a negative number, or one beyond int64, is a
      range error. */
  lemma ParseOfPrinted(a: string, sign: string, d: string, b: string, u: string, c: string)
    requires AllSpace(a) && AllSpace(b) && AllSpace(c) && IsNumber(sign, d) && IsUnit(ToUpper(u))
    ensures ParseByteSize(a + sign + d + b + u + c) == Denotes(sign, d, Multiplier(ToUpper(u)))
  {
    if u == "" {
      assert a + sign + d + b + u + c == a + sign + d + "" + u + (b + c);
      ParseOfTight(a, sign, d, "", u, b + c);
    } else {
      ParseOfTight(a, sign, d, b, u, c);
    }
  }

  lemma ParseOfTight(a: string, sign: string, d: string, b: string, u: string, c: string)
    requires AllSpace(a) && AllSpace(b) && AllSpace(c) && IsNumber(sign, d) && IsUnit(ToUpper(u))
    requires u == "" ==> b == ""
    ensures ParseByteSize(a + sign + d + b + u + c) == Denotes(sign, d, Multiplier(ToUpper(u)))
  {
    var number, up := sign + d, ToUpper(u);
    UpperOfTrimmed(a, sign, d, b, u, c);
    UnitAndBody(sign, d, b, up);
    AtoiOfNumber(sign, d);
    hide ToUpper, TrimSpace, UnitOf, StrconvAtoi, IsNumber, AllSpace, Multiplier;
    var all := a + sign + d + b + u + c;
    assert ToUpper(TrimSpace(all)) == number + b + up;
    assert |up| == |u|;
  }

  lemma UpperOfTrimmed(a: string, sign: string, d: string, b: string, u: string, c: string)
    requires AllSpace(a) && AllSpace(b) && AllSpace(c) && IsNumber(sign, d) && IsUnit(ToUpper(u))
    requires u == "" ==> b == ""
    ensures ToUpper(TrimSpace(a + sign + d + b + u + c)) == sign + d + b + ToUpper(u)
  {
    var number := sign + d;
    var x := number + b + u;
    assert a + sign + d + b + u + c == a + x + c;
    NumberEnds(sign, d);
    assert u != "" ==> ToUpper(u)[|u| - 1] == 'B';
    assert u != "" ==> UpperChar(u[|u| - 1]) == 'B';
    hide ToUpper, IsNumber, TrimSpace;
    assert x[|x| - 1] == if u == "" then number[|number| - 1] else u[|u| - 1];
    assert x[0] == number[0];
    TrimSpaces(a, x, c);
    UpperAppend(number + b, u);
    UpperUnchanged(number + b);
  }

  lemma UnitAndBody(sign: string, d: string, b: string, up: string)
    requires AllSpace(b) && IsNumber(sign, d) && IsUnit(up)
    ensures UnitOf(sign + d + b + up) == up
    ensures var s := sign + d + b + up; TrimSpace(s[..|s| - |up|]) == sign + d
  {
    var number := sign + d;
    NumberEnds(sign, d);
    assert b != "" ==> b[|b| - 1] in b;
    UnitFound(number + b, up);
    hide IsNumber, TrimSpace, UnitOf, HasSuffix;
    var s := number + b + up;
    assert s[..|s| - |up|] == "" + number + b;
    TrimSpaces("", number, b);
  }

  lemma NumberEnds(sign: string, d: string)
    requires IsNumber(sign, d)
    ensures var n := sign + d; n != "" && !IsSpace(n[0]) && IsDigit(n[|n| - 1])
    ensures forall c :: c in sign + d ==> IsDigit(c) || c in {'+', '-'}
  {
    assert d[0] in d && d[|d| - 1] in d;
    assert (sign + d)[|sign + d| - 1] == d[|d| - 1];
  }

  /** The unit found at the end of a text is spelled by its last characters. */
  lemma UnitSpelled(s: string)
    ensures IsUnit(UnitOf(s)) && |UnitOf(s)| <= |s|
    ensures s[|s| - |UnitOf(s)|..] == UnitOf(s)
  {
    assert HasSuffix(s, UnitOf(s));
  }

  lemma NumberParts(number: string) returns (sign: string, d: string)
    requires StrconvAtoi(number).Success?
    ensures IsNumber(sign, d) && number == sign + d
  {
    var signed := number != "" && number[0] in {'+', '-'};
    sign := if signed then number[..1] else "";
    d := if signed then number[1..] else number;
    assert signed ==> sign == [number[0]];
  }

  lemma UpperNeverBecomes(c: char)
    ensures IsSpace(UpperChar(c)) || IsDigit(UpperChar(c)) || UpperChar(c) in {'+', '-'} ==> UpperChar(c) == c
  {
  }

  /** Where upper case shows only spaces, digits and signs, so does the text itself. */
  lemma {:induction false} LowerUnchanged(x: string)
    requires forall c :: c in ToUpper(x) ==> IsSpace(c) || IsDigit(c) || c in {'+', '-'}
    ensures ToUpper(x) == x
  {
    if x != "" {
      UpperNeverBecomes(x[0]);
      LowerUnchanged(x[1..]);
    }
  }

  /** Nothing else is accepted: a text that parses has that shape. */
  lemma AcceptedIsPrinted(s: string) returns (a: string, sign: string, d: string, b: string, u: string, c: string)
    requires ParseByteSize(s).Success?
    ensures AllSpace(a) && AllSpace(b) && AllSpace(c) && IsNumber(sign, d) && IsUnit(ToUpper(u))
    ensures s == a + sign + d + b + u + c
  {
    a, c := TrimSpaceParts(s);
    var x := TrimSpace(s);
    var body;
    body, u := BodyAndUnit(x);
    sign, d, b := BodyShape(body, x);
    assert x == sign + d + b + u;
    hide *;
    Assemble(s, a, x, c, sign, d, b, u);
  }

  /** A trimmed text that parses is a part untouched by upper case, then a unit. */
  lemma BodyAndUnit(x: string) returns (body: string, u: string)
    requires var upper := ToUpper(x); StrconvAtoi(TrimSpace(upper[..|upper| - |UnitOf(upper)|])).Success?
    ensures x == body + u && IsUnit(ToUpper(u))
    ensures ToUpper(body) == body && StrconvAtoi(TrimSpace(body)).Success?
  {
    UnitSpelled(ToUpper(x));
    var cut := |x| - |UnitOf(ToUpper(x))|;
    body, u := x[..cut], x[cut..];
    assert x == body + u;
    UpperAppend(body, u);
    assert ToUpper(body) == ToUpper(x)[..cut] && ToUpper(u) == ToUpper(x)[cut..];
    var up := ToUpper(body);
    var l, r := TrimSpaceParts(up);
    var sign, d := NumberParts(TrimSpace(up));
    NumberEnds(sign, d);
    BodyChars(l, sign + d, r);
    hide TrimSpace, UnitOf, StrconvAtoi, IsUnit, IsNumber;
    LowerUnchanged(body);
  }

  /** Such a part, with no space in front, is a number and spaces. */
  lemma BodyShape(body: string, x: string) returns (sign: string, d: string, b: string)
    requires body <= x && (x != "" ==> !IsSpace(x[0])) && StrconvAtoi(TrimSpace(body)).Success?
    ensures IsNumber(sign, d) && AllSpace(b) && body == sign + d + b
  {
    var l;
    l, b := TrimSpaceParts(body);
    sign, d := NumberParts(TrimSpace(body));
    hide TrimSpace, StrconvAtoi, IsNumber;
    assert body == l + (sign + d + b);
    SpaceInFront(l, sign + d + b, x);
  }

  lemma SpaceInFront(l: string, y: string, x: string)
    requires AllSpace(l) && l + y <= x
    ensures l == "" || IsSpace(x[0])
  {
    if l != "" {
      assert l[0] in l && x[0] == (l + y)[0];
    }
  }

  lemma Assemble(s: string, a: string, x: string, c: string, sign: string, d: string, b: string, u: string)
    requires s == a + x + c && x == sign + d + b + u
    ensures s == a + sign + d + b + u + c
  {
  }

  lemma BodyChars(l: string, n: string, r: string)
    requires AllSpace(l) && AllSpace(r) && forall c :: c in n ==> IsDigit(c) || c in {'+', '-'}
    ensures forall c :: c in l + n + r ==> IsSpace(c) || IsDigit(c) || c in {'+', '-'}
  {
  }

  // ----- printing

  function DigitChar(n: nat): char
    requires n < 10
  {
    '0' + n as char
  }

  /** The usual decimal notation. */
  function Decimal(n: nat): string {
    if n < 10 then [DigitChar(n)] else Decimal(n / 10) + [DigitChar(n % 10)]
  }

  lemma {:induction false} DecimalValue(n: nat)
    ensures Decimal(n) != "" && AllDigits(Decimal(n)) && Value(Decimal(n)) == n
  {
    if n < 10 {
      assert Value("") == 0;
      assert Decimal(n)[..0] == "";
    } else {
      DecimalValue(n / 10);
      assert Decimal(n)[..|Decimal(n)| - 1] == Decimal(n / 10);
    }
  }

  /** The number of factors of 1024 a unit stands for. */
  function Order(u: string): nat {
    if u == "KB" then 1 else if u == "MB" then 2 else if u == "GB" then 3 else 0
  }

  function Pow1024(k: nat): nat {
    if k == 0 then 1 else 1024 * Pow1024(k - 1)
  }

  lemma MultiplierIsPower(u: string)
    requires IsUnit(u)
    ensures Multiplier(u) == Pow1024(Order(u))
  {
    assert Pow1024(1) == 1024;
    assert Pow1024(2) == 1024 * 1024;
    assert Pow1024(3) == 1024 * 1024 * 1024;
  }

  /** Parsing undoes printing.  The printed size comes back exactly when it fits an int64;
      otherwise the number is refused, or the product silently wraps to something else. */
  lemma ParseUndoesPrinting(n: nat, a: string, b: string, u: string, c: string)
    requires AllSpace(a) && AllSpace(b) && AllSpace(c) && IsUnit(ToUpper(u))
    ensures var size := n * Pow1024(Order(ToUpper(u)));
            ParseByteSize(a + Decimal(n) + b + u + c) == Success(size) <==> size <= MAX_INT64
  {
    DecimalValue(n);
    ParseOfPrinted(a, "", Decimal(n), b, u, c);
    Multiply(n, ToUpper(u));
    MultiplierIsPower(ToUpper(u));
    hide Pow1024, Order;
    hide ParseByteSize, Decimal, Value, ToUpper, Multiplier, Wrap64;
    assert a + "" == a;
  }

  lemma Multiply(n: nat, u: string)
    requires IsUnit(u)
    ensures n <= n * Multiplier(u)
  {
  }

  /** A negative body is refused, whatever the unit; "-0" is the one signed body let through. */
  lemma NegativeIsRefused(n: nat, a: string, b: string, u: string, c: string)
    requires AllSpace(a) && AllSpace(b) && AllSpace(c) && IsUnit(ToUpper(u))
    ensures ParseByteSize(a + "-" + Decimal(n) + b + u + c) == if n == 0 then Success(0) else Failure(Range)
  {
    DecimalValue(n);
    ParseOfPrinted(a, "-", Decimal(n), b, u, c);
    NegativeDenotes(n, Decimal(n), Multiplier(ToUpper(u)));
    hide *;
  }

  lemma NegativeDenotes(n: nat, d: string, multiplier: int)
    requires AllDigits(d) && Value(d) == n
    ensures Denotes("-", d, multiplier) == if n == 0 then Success(0) else Failure(Range)
  {
    assert 0 * multiplier == 0;
  }
}
