/** Token amounts printed as decimal numbers. */
module Decimal {
  import opened Arith
  import opened Common

  function Pow10(n: nat): (p: nat)
    ensures p >= 1
  {
    if n == 0 then 1 else 10 * Pow10(n - 1)
  }

  lemma {:induction false} PowAdd(a: nat, b: nat)
    ensures Pow10(a + b) == Pow10(a) * Pow10(b)
  {
    if a > 0 {
      PowAdd(a - 1, b);
      assert 10 * (Pow10(a - 1) * Pow10(b)) == (10 * Pow10(a - 1)) * Pow10(b);
    }
  }

  // ----- digits -----

  predicate IsDigit(c: char) { '0' <= c <= '9' }

  function DigitChar(d: nat): (c: char)
    requires d < 10
    ensures IsDigit(c) && DigitValue(c) == d
  {
    '0' + d as char
  }

  function DigitValue(c: char): (r: nat) {
    if IsDigit(c) then (c - '0') as nat else 0
  }

  predicate AllDigits(s: string) {
    forall i :: 0 <= i < |s| ==> IsDigit(s[i])
  }

  function ToDigits(n: nat): (s: string)
    ensures AllDigits(s) && |s| > 0
  {
    if n < 10 then [DigitChar(n)] else ToDigits(n / 10) + [DigitChar(n % 10)]
  }

  /** The number that digits spell. */
  function Number(s: string): (r: nat) {
    if s == [] then 0 else 10 * Number(s[..|s| - 1]) + DigitValue(s[|s| - 1])
  }

  lemma NumberAppend(s: string, c: char)
    ensures Number(s + [c]) == 10 * Number(s) + DigitValue(c)
  {
    assert (s + [c])[..|s|] == s;
  }

  lemma {:induction false} NumberOfDigits(n: nat)
    ensures Number(ToDigits(n)) == n
  {
    if n >= 10 {
      NumberOfDigits(n / 10);
      NumberAppend(ToDigits(n / 10), DigitChar(n % 10));
    } else {
      NumberAppend([], DigitChar(n));
      assert [] + [DigitChar(n)] == [DigitChar(n)];
    }
  }

  /** Digits do not start with a zero, unless zero is all there is. */
  lemma {:induction false} NoLeadingZero(n: nat)
    ensures if n < 10 then |ToDigits(n)| == 1 else |ToDigits(n)| > 1
    ensures n > 0 ==> ToDigits(n)[0] != '0'
  {
    if n >= 10 { NoLeadingZero(n / 10); }
  }

  function Zeros(n: nat): (s: string)
    ensures |s| == n && AllDigits(s)
  {
    if n == 0 then [] else Zeros(n - 1) + ['0']
  }

  lemma {:induction false} NumberOfZeros(n: nat)
    ensures Number(Zeros(n)) == 0
  {
    if n > 0 {
      NumberOfZeros(n - 1);
      NumberAppend(Zeros(n - 1), '0');
    }
  }

  lemma {:induction false} LeadingZeros(n: nat, s: string)
    ensures Number(Zeros(n) + s) == Number(s)
    decreases |s|
  {
    if s == [] {
      NumberOfZeros(n);
      assert Zeros(n) + s == Zeros(n);
    } else {
      var k := |s| - 1;
      LeadingZeros(n, s[..k]);
      NumberAppend(Zeros(n) + s[..k], s[k]);
      assert Zeros(n) + s == (Zeros(n) + s[..k]) + [s[k]];
    }
  }

  lemma {:induction false} TrailingZeros(s: string, n: nat)
    ensures Number(s + Zeros(n)) == Number(s) * Pow10(n)
  {
    if n == 0 {
      assert s + Zeros(0) == s;
    } else {
      TrailingZeros(s, n - 1);
      NumberAppend(s + Zeros(n - 1), '0');
      assert s + Zeros(n) == (s + Zeros(n - 1)) + ['0'];
      TimesTen(Number(s), Pow10(n - 1));
    }
  }

  lemma TimesTen(a: nat, b: nat)
    ensures 10 * (a * b) == a * (10 * b)
  {
  }

  // ----- reading a decimal -----

  /** Digits, and perhaps a point and more digits. */
  ghost predicate Reads(s: string, whole: string, fraction: string) {
    && AllDigits(whole) && AllDigits(fraction) && whole != []
    && s == if fraction == [] then whole else whole + "." + fraction
  }

  /** The decimal is amount / 10^decimals, exactly. */
  ghost predicate HasValue(whole: string, fraction: string, amount: nat, decimals: nat) {
    Number(whole + fraction) * Pow10(decimals) == amount * Pow10(|fraction|)
  }

  lemma PointAt(s: string, whole: string, fraction: string, i: nat)
    requires Reads(s, whole, fraction) && i < |s|
    ensures s[i] == '.' <==> fraction != [] && i == |whole|
  {
    if i < |whole| {
      assert s[i] == whole[i];
    } else if i > |whole| {
      assert s[i] == fraction[i - |whole| - 1];
    }
  }

  /** A string reads as one number only. */
  lemma ReadsOneWay(s: string, w: string, f: string, v: string, g: string)
    requires Reads(s, w, f) && Reads(s, v, g)
    ensures w == v && f == g
  {
    if f != [] {
      PointAt(s, w, f, |w|);
      PointAt(s, v, g, |w|);
      assert w == s[..|w|] && f == s[|w| + 1..];
    } else if g != [] {
      PointAt(s, w, f, |v|);
      PointAt(s, v, g, |v|);
      assert false;
    }
  }

  // ----- printing -----

  /** Zeros in front until the string has the width. */
  function PadLeft(s: string, width: nat): (r: string)
    ensures |r| >= width
  {
    if |s| >= width then s else Zeros(width - |s|) + s
  }

  function RealNumberString(amount: nat, decimals: nat): (r: string) {
    if decimals > 0 then
      var s := PadLeft(ToDigits(amount), decimals + 1);
      s[..|s| - decimals] + "." + s[|s| - decimals..]
    else
      ToDigits(amount)
  }

  function TrimEnd(s: string, c: char): (r: string) {
    if s != [] && s[|s| - 1] == c then TrimEnd(s[..|s| - 1], c) else s
  }

  function RealNumberStringTrimmed(amount: nat, decimals: nat): (r: string) {
    var s := RealNumberString(amount, decimals);
    if decimals > 0 then TrimEnd(TrimEnd(s, '0'), '.') else s
  }

  lemma PaddedNumber(amount: nat, width: nat)
    ensures var s := PadLeft(ToDigits(amount), width); AllDigits(s) && Number(s) == amount
  {
    var digits := ToDigits(amount);
    NumberOfDigits(amount);
    if |digits| < width { LeadingZeros(width - |digits|, digits); }
  }

  lemma SplitReads(s: string, decimals: nat, whole: string, fraction: string)
    requires AllDigits(s) && 0 < decimals < |s|
    requires whole == s[..|s| - decimals] && fraction == s[|s| - decimals..]
    ensures Reads(whole + "." + fraction, whole, fraction) && whole + fraction == s
  {
  }

  /** The printed string reads as exactly the amount, with all its decimals. */
  lemma PrintsValue(amount: nat, decimals: nat) returns (whole: string, fraction: string)
    ensures |fraction| == decimals && Number(whole + fraction) == amount
    ensures Reads(RealNumberString(amount, decimals), whole, fraction)
    ensures HasValue(whole, fraction, amount, decimals)
    ensures |whole| == 1 || whole[0] != '0'
  {
    NoLeadingZero(amount);
    if decimals == 0 {
      whole, fraction := ToDigits(amount), [];
      NumberOfDigits(amount);
      assert whole + fraction == whole;
    } else {
      var s := PadLeft(ToDigits(amount), decimals + 1);
      PaddedNumber(amount, decimals + 1);
      whole, fraction := s[..|s| - decimals], s[|s| - decimals..];
      SplitReads(s, decimals, whole, fraction);
    }
  }

  // ----- trimming -----

  lemma {:induction false} TrimBehind(a: string, x: char, b: string, c: char)
    requires x != c
    ensures TrimEnd(a + [x] + b, c) == a + [x] + TrimEnd(b, c)
    decreases |b|
  {
    var s := a + [x] + b;
    if b == [] {
      assert s == a + [x];
    } else {
      var k := |b| - 1;
      assert s[|s| - 1] == b[k] && s[..|s| - 1] == a + [x] + b[..k];
      if b[k] == c { TrimBehind(a, x, b[..k], c); }
    }
  }

  /** Trimming zeros takes zeros off, and leaves no zero at the end. */
  lemma {:induction false} TrimZeros(s: string, t: string)
    requires AllDigits(s) && t == TrimEnd(s, '0')
    ensures |t| <= |s| && AllDigits(t) && s == t + Zeros(|s| - |t|)
    ensures t != [] ==> t[|t| - 1] != '0'
  {
    if s != [] && s[|s| - 1] == '0' {
      var k := |s| - 1;
      TrimZeros(s[..k], t);
      assert s == s[..k] + ['0'] == t + Zeros(|s| - |t|);
    } else {
      assert s == s + Zeros(0);
    }
  }

  lemma TrimReads(whole: string, fraction: string, t: string)
    requires AllDigits(whole) && AllDigits(fraction) && whole != [] && t == TrimEnd(fraction, '0')
    ensures Reads(TrimEnd(TrimEnd(whole + "." + fraction, '0'), '.'), whole, t)
  {
    TrimBehind(whole, '.', fraction, '0');
    TrimZeros(fraction, t);
    var s := whole + "." + t;
    if t == [] {
      var k := |whole| - 1;
      assert s == whole[..k] + [whole[k]] + ".";
      TrimBehind(whole[..k], whole[k], ".", '.');
      assert TrimEnd(".", '.') == [];
      assert whole == whole[..k] + [whole[k]] + [];
    } else {
      assert s[|s| - 1] == t[|t| - 1];
    }
  }

  lemma ScaleValue(n: nat, amount: nat, cut: nat, left: nat)
    requires n * Pow10(cut) == amount
    ensures n * Pow10(cut + left) == amount * Pow10(left)
  {
    PowAdd(cut, left);
    assert n * (Pow10(cut) * Pow10(left)) == (n * Pow10(cut)) * Pow10(left);
  }

  lemma TrimValue(whole: string, fraction: string, t: string, amount: nat)
    requires AllDigits(fraction) && t == TrimEnd(fraction, '0') && Number(whole + fraction) == amount
    ensures HasValue(whole, t, amount, |fraction|)
  {
    TrimZeros(fraction, t);
    var cut := |fraction| - |t|;
    assert whole + fraction == (whole + t) + Zeros(cut);
    TrailingZeros(whole + t, cut);
    ScaleValue(Number(whole + t), amount, cut, |t|);
  }

  /** Trimming keeps the value, and leaves no point at the end and no zero behind a point. */
  lemma TrimmedPrintsValue(amount: nat, decimals: nat) returns (whole: string, fraction: string)
    ensures Reads(RealNumberStringTrimmed(amount, decimals), whole, fraction)
    ensures HasValue(whole, fraction, amount, decimals)
    ensures fraction != [] ==> fraction[|fraction| - 1] != '0'
    ensures |whole| == 1 || whole[0] != '0'
  {
    var all;
    whole, all := PrintsValue(amount, decimals);
    fraction := TrimEnd(all, '0');
    if decimals > 0 { TrimReads(whole, all, fraction); }
    TrimValue(whole, all, fraction, amount);
    TrimZeros(all, fraction);
  }

  lemma TrimmedIsShort(amount: nat, decimals: nat)
    ensures var s := RealNumberStringTrimmed(amount, decimals);
            s != [] && s[|s| - 1] != '.' && ('.' in s ==> s[|s| - 1] != '0')
  {
    var s := RealNumberStringTrimmed(amount, decimals);
    var whole, fraction := TrimmedPrintsValue(amount, decimals);
    LastCharacter(s, whole, fraction);
  }

  lemma LastCharacter(s: string, whole: string, fraction: string)
    requires Reads(s, whole, fraction) && (fraction != [] ==> fraction[|fraction| - 1] != '0')
    ensures s != [] && s[|s| - 1] != '.' && ('.' in s ==> s[|s| - 1] != '0')
  {
    PointAt(s, whole, fraction, |s| - 1);
    if '.' in s {
      var i :| 0 <= i < |s| && s[i] == '.';
      PointAt(s, whole, fraction, i);
      assert s[|s| - 1] == fraction[|fraction| - 1];
    }
  }

  lemma MulCancel(a: nat, b: nat, c: nat)
    requires c > 0 && a * c == b * c
    ensures a == b
  {
    MulGap(a, b, c);
    MulGap(b, a, c);
  }

  lemma SameReading(s: string, w: string, f: string, v: string, g: string, a: nat, b: nat, decimals: nat)
    requires Reads(s, w, f) && HasValue(w, f, a, decimals)
    requires Reads(s, v, g) && HasValue(v, g, b, decimals)
    ensures a == b
  {
    ReadsOneWay(s, w, f, v, g);
    MulCancel(a, b, Pow10(|f|));
  }

  /** Different amounts of one token print differently, trimmed or not. */
  lemma PrintingIsInjective(a: nat, b: nat, decimals: nat)
    ensures RealNumberString(a, decimals) == RealNumberString(b, decimals) ==> a == b
    ensures RealNumberStringTrimmed(a, decimals) == RealNumberStringTrimmed(b, decimals) ==> a == b
  {
    if RealNumberString(a, decimals) == RealNumberString(b, decimals) {
      var w, f := PrintsValue(a, decimals);
      var v, g := PrintsValue(b, decimals);
      SameReading(RealNumberString(a, decimals), w, f, v, g, a, b, decimals);
    }
    if RealNumberStringTrimmed(a, decimals) == RealNumberStringTrimmed(b, decimals) {
      var w, f := TrimmedPrintsValue(a, decimals);
      var v, g := TrimmedPrintsValue(b, decimals);
      SameReading(RealNumberStringTrimmed(a, decimals), w, f, v, g, a, b, decimals);
    }
  }
}
