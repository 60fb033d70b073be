/**
 Python's `float()` applied to a text, as `astype(float)` applies it to every
 cell of a text column: surrounding whitespace is ignored, then an optional
 sign, a decimal mantissa with an optional fraction and an optional decimal
 exponent. The value is the exact real the literal denotes.
 */
module Numbers {
  import opened Wrappers
  import opened Text

  predicate IsDigit(c: char) {
    '0' <= c <= '9'
  }

  predicate AllDigits(s: string) {
    forall i :: 0 <= i < |s| ==> IsDigit(s[i])
  }

  /** The value of a run of decimal digits, most significant first. */
  function DigitsValue(s: string): nat
    requires AllDigits(s)
  {
    if s == [] then 0
    else DigitsValue(s[..|s| - 1]) * 10 + (s[|s| - 1] as int - '0' as int)
  }

  /** The first position of `s` holding one of `targets`, if any. */
  function Find(s: string, targets: set<char>): (r: Option<nat>)
    ensures r.Some? ==> r.value < |s| && s[r.value] in targets
  {
    if s == [] then None
    else if s[0] in targets then Some(0)
    else match Find(s[1..], targets)
      case None => None
      case Some(k) => Some(k + 1)
  }

  /** `x * 10^e` for an integer exponent `e`. */
  function Scale(x: real, e: int): real
    decreases if e >= 0 then e else -e
  {
    if e == 0 then x
    else if e > 0 then Scale(x, e - 1) * 10.0
    else Scale(x, e + 1) / 10.0
  }

  /** The value of the digits after a decimal point: `0.ff`. */
  function FractionValue(f: string): real
    requires AllDigits(f)
  {
    if f == [] then 0.0
    else ((f[0] as int - '0' as int) as real + FractionValue(f[1..])) / 10.0
  }

  /** A mantissa: digits, or digits `.` digits with at least one digit on
      either side. */
  function ParseMantissa(m: string): Option<real> {
    match Find(m, {'.'})
    case None =>
      if m != [] && AllDigits(m) then Some(DigitsValue(m) as real) else None
    case Some(k) =>
      var whole, frac := m[..k], m[k + 1..];
      if AllDigits(whole) && AllDigits(frac) && |whole| + |frac| > 0
      then Some(DigitsValue(whole) as real + FractionValue(frac))
      else None
  }

  /** An exponent after `e` or `E`: an optional sign and at least one digit. */
  function ParseExponent(x: string): Option<int> {
    var negative := x != [] && x[0] == '-';
    var digits := if x != [] && (x[0] == '+' || x[0] == '-') then x[1..] else x;
    if digits != [] && AllDigits(digits)
    then Some(if negative then -(DigitsValue(digits) as int) else DigitsValue(digits) as int)
    else None
  }

  /** An unsigned literal: a mantissa and an optional exponent part. */
  function ParseUnsigned(u: string): Option<real> {
    match Find(u, {'e', 'E'})
    case None => ParseMantissa(u)
    case Some(i) =>
      match (ParseMantissa(u[..i]), ParseExponent(u[i + 1..]))
      case (Some(v), Some(e)) => Some(Scale(v, e))
      case _ => None
  }

  /** A literal without surrounding whitespace: an optional sign, then an
      unsigned literal. */
  function ParseLiteral(t: string): Option<real> {
    if t != [] && (t[0] == '+' || t[0] == '-') then
      match ParseUnsigned(t[1..])
      case None => None
      case Some(v) => Some(if t[0] == '-' then -v else v)
    else ParseUnsigned(t)
  }

  /** The characters `float()` removes from both ends of its text: those of
      `str.isspace()` except U+001C to U+001F. `float()` first turns every
      non-ASCII whitespace character into a space and then strips only the
      ASCII whitespace (space, tab, line feed, vertical tab, form feed,
      carriage return), so those four ASCII separators stay. */
  predicate FloatSpace(c: char) {
    IsSpace(c) && !('\U{1C}' <= c <= '\U{1F}')
  }

  function FloatTrimStart(s: string): (r: string)
    ensures |r| <= |s|
    ensures r == [] || !FloatSpace(r[0])
  {
    if |s| > 0 && FloatSpace(s[0]) then FloatTrimStart(s[1..]) else s
  }

  function FloatTrimEnd(s: string): (r: string)
    ensures |r| <= |s| && r == s[..|r|]
    ensures r == [] || !FloatSpace(r[|r| - 1])
  {
    if |s| > 0 && FloatSpace(s[|s| - 1]) then FloatTrimEnd(s[..|s| - 1]) else s
  }

  /** The text `float()` reads: `s` without the `FloatSpace` characters at
      either end. */
  function FloatStrip(s: string): (r: string)
    ensures |r| <= |s|
    ensures r == [] || (!FloatSpace(r[0]) && !FloatSpace(r[|r| - 1]))
  {
    FloatTrimEnd(FloatTrimStart(s))
  }

  /** `FloatTrimStart` keeps a suffix of `s` (all of it when nothing is
      dropped), and everything it drops is `float()` whitespace. */
  lemma {:induction false} FloatTrimStartDropsSpace(s: string)
    ensures |FloatTrimStart(s)| == |s| ==> FloatTrimStart(s) == s
    ensures |FloatTrimStart(s)| < |s| ==> FloatTrimStart(s) == s[|s| - |FloatTrimStart(s)|..]
    ensures forall i :: 0 <= i < |s| - |FloatTrimStart(s)| ==> FloatSpace(s[i])
  {
    if |s| > 0 && FloatSpace(s[0]) {
      var u := s[1..];
      FloatTrimStartDropsSpace(u);
      assert u[|u| - |FloatTrimStart(u)|..] == s[|s| - |FloatTrimStart(s)|..];
      assert forall i :: 1 <= i < |s| ==> s[i] == u[i - 1];
    }
  }

  /** Everything `FloatTrimEnd` drops is `float()` whitespace. */
  lemma {:induction false} FloatTrimEndDropsSpace(s: string)
    ensures forall i :: |FloatTrimEnd(s)| <= i < |s| ==> FloatSpace(s[i])
  {
    if |s| > 0 && FloatSpace(s[|s| - 1]) {
      FloatTrimEndDropsSpace(s[..|s| - 1]);
    }
  }

  /** What `float()` reads is the slice of `s` between its leading and its
      trailing run of `float()` whitespace. */
  lemma FloatStripIsSlice(s: string)
    ensures exists lead, stop ::
              && 0 <= lead <= stop <= |s| && FloatStrip(s) == s[lead..stop]
              && (forall i :: 0 <= i < lead ==> FloatSpace(s[i]))
              && (forall i :: stop <= i < |s| ==> FloatSpace(s[i]))
  {
    var t := FloatTrimStart(s);
    var r := FloatTrimEnd(t);
    FloatTrimStartDropsSpace(s);
    FloatTrimEndDropsSpace(t);
    if |t| == |s| {
      assert FloatStrip(s) == s[0..|r|];
    } else {
      var lead := |s| - |t|;
      assert forall i :: lead + |r| <= i < |s| ==> FloatSpace(s[i]) by {
        assert forall i :: lead + |r| <= i < |s| ==> s[i] == t[i - lead];
      }
      assert FloatStrip(s) == s[lead..lead + |r|];
    }
  }

  /** `float(s)`: `None` stands for the `ValueError` Python raises. */
  function ParseFloat(s: string): (r: Option<real>)
    ensures Stripped(s) ==> r == ParseLiteral(s)
  {
    var t := FloatStrip(s);
    assert Stripped(s) ==> t == s by {
      if Stripped(s) {
        FloatStripStripped(s);
      }
    }
    ParseLiteral(t)
  }

  /** The decimal digits of a natural number, most significant first. */
  function NatDigits(n: nat): (r: string)
    ensures r != [] && AllDigits(r)
    ensures DigitsValue(r) == n
    ensures r[0] == '0' ==> n == 0
  {
    if n < 10 then [('0' as int + n) as char]
    else
      var r := NatDigits(n / 10) + [('0' as int + n % 10) as char];
      assert r[..|r| - 1] == NatDigits(n / 10);
      r
  }

  /** `str(n)` for an integer, the text an integral column turns into. */
  function FormatInt(n: int): (r: string)
    ensures r != [] && (r[0] == '-' <==> n < 0)
    ensures var d := if n < 0 then r[1..] else r;
      && d != [] && AllDigits(d)
      && DigitsValue(d) == (if n < 0 then -n else n)
      && (d[0] == '0' ==> n == 0)
  {
    if n < 0 then ['-'] + NatDigits(-n) else NatDigits(n)
  }

  /** `Find` finds nothing in a text that holds no target. */
  lemma {:induction false} FindNone(s: string, targets: set<char>)
    requires forall j :: 0 <= j < |s| ==> s[j] !in targets
    ensures Find(s, targets).None?
  {
    if s != [] {
      assert s[0] !in targets;
      FindNone(s[1..], targets);
    }
  }

  /** `Find` returns the first position holding a target. */
  lemma {:induction false} FindFirst(s: string, targets: set<char>, k: nat)
    requires k < |s| && s[k] in targets
    requires forall j :: 0 <= j < k ==> s[j] !in targets
    ensures Find(s, targets) == Some(k)
  {
    if k > 0 {
      assert s[0] !in targets;
      FindFirst(s[1..], targets, k - 1);
    }
  }

  /** A text of digits has no exponent marker and no point. */
  lemma DigitsHaveNoMarker(d: string)
    requires AllDigits(d)
    ensures Find(d, {'e', 'E'}).None? && Find(d, {'.'}).None?
  {
    forall j | 0 <= j < |d| ensures d[j] !in {'e', 'E'} && d[j] !in {'.'} {
      assert IsDigit(d[j]);
    }
    FindNone(d, {'e', 'E'});
    FindNone(d, {'.'});
  }

  /** A nonempty run of digits parses to the value of those digits. */
  lemma DigitsParse(d: string)
    requires d != [] && AllDigits(d)
    ensures ParseUnsigned(d) == Some(DigitsValue(d) as real)
  {
    DigitsHaveNoMarker(d);
  }

  lemma DigitEnds(d: string)
    requires d != [] && AllDigits(d)
    ensures IsDigit(d[0]) && IsDigit(d[|d| - 1])
  {
  }

  /** A literal that starts with a digit has no sign. */
  lemma UnsignedLiteral(u: string)
    requires u != [] && IsDigit(u[0])
    ensures ParseLiteral(u) == ParseUnsigned(u)
  {
  }

  /** `float()` strips nothing from a text without whitespace at either end. */
  lemma FloatStripStripped(s: string)
    requires Stripped(s)
    ensures FloatStrip(s) == s
  {
    if s != [] {
      assert FloatTrimStart(s) == s;
    }
  }

  /** An unsigned literal that starts and ends with a digit is what `float()`
      reads in it. */
  lemma UnsignedFloat(u: string, v: real)
    requires ParseUnsigned(u) == Some(v) && u != [] && IsDigit(u[0]) && IsDigit(u[|u| - 1])
    ensures ParseFloat(u) == Some(v)
  {
    assert ParseLiteral(u) == Some(v) by {
      UnsignedLiteral(u);
    }
  }

  /** A minus sign in front of an unsigned literal negates its value. */
  lemma NegatedLiteral(u: string, v: real)
    requires ParseUnsigned(u) == Some(v)
    ensures ParseLiteral(['-'] + u) == Some(-v)
  {
    assert (['-'] + u)[1..] == u;
  }

  /** A minus sign in front of an unsigned literal that ends in a digit
      negates the value `float()` reads in it. */
  lemma NegatedFloat(t: string, u: string, v: real)
    requires t == ['-'] + u
    requires ParseUnsigned(u) == Some(v) && u != [] && IsDigit(u[|u| - 1])
    ensures ParseFloat(t) == Some(-v)
  {
    assert ParseLiteral(t) == Some(-v) by {
      NegatedLiteral(u, v);
    }
    assert Stripped(t) by {
      assert t[|t| - 1] == u[|u| - 1];
    }
  }

  /** The digits of a natural number are read back as that number. */
  lemma NatDigitsFloat(n: nat)
    ensures ParseFloat(NatDigits(n)) == Some(n as real)
  {
    var d := NatDigits(n);
    DigitsParse(d);
    DigitEnds(d);
    UnsignedFloat(d, n as real);
  }

  /** A minus sign in front of the digits of a natural number is read back as
      its negation. */
  lemma NegatedDigitsFloat(n: nat)
    ensures ParseFloat(['-'] + NatDigits(n)) == Some(-(n as real))
  {
    var d := NatDigits(n);
    DigitsParse(d);
    DigitEnds(d);
    NegatedFloat(['-'] + d, d, n as real);
  }

  /** Round trip: the text of an integer parses back to that integer. */
  lemma FormatIntRoundTrip(n: int)
    ensures ParseFloat(FormatInt(n)) == Some(n as real)
  {
    if n < 0 {
      NegatedDigitsFloat(-n);
    } else {
      NatDigitsFloat(n);
    }
  }

  /** The characters a literal is made of. */
  predicate LiteralChar(c: char) {
    IsDigit(c) || c == '+' || c == '-' || c == '.' || c == 'e' || c == 'E'
  }

  /** A mantissa that parses is made of digits and a point. */
  lemma MantissaChars(m: string)
    requires ParseMantissa(m).Some?
    ensures m != [] && forall i :: 0 <= i < |m| ==> LiteralChar(m[i])
  {
    match Find(m, {'.'})
    case None =>
    case Some(k) =>
      var whole, frac := m[..k], m[k + 1..];
      forall i | 0 <= i < |m| ensures LiteralChar(m[i]) {
        if i < k {
          assert m[i] == whole[i];
        } else if i > k {
          assert m[i] == frac[i - k - 1];
        }
      }
  }

  /** An exponent that parses is made of digits and a sign. */
  lemma ExponentChars(x: string)
    requires ParseExponent(x).Some?
    ensures forall i :: 0 <= i < |x| ==> LiteralChar(x[i])
  {
    if x != [] && (x[0] == '+' || x[0] == '-') {
      forall i | 1 <= i < |x| ensures LiteralChar(x[i]) {
        assert x[i] == x[1..][i - 1];
      }
    }
  }

  /** An unsigned literal that parses is nonempty and made of literal
      characters. */
  lemma UnsignedChars(u: string)
    requires ParseUnsigned(u).Some?
    ensures u != [] && forall i :: 0 <= i < |u| ==> LiteralChar(u[i])
  {
    match Find(u, {'e', 'E'})
    case None =>
      MantissaChars(u);
    case Some(k) =>
      var m, x := u[..k], u[k + 1..];
      MantissaChars(m);
      ExponentChars(x);
      forall i | 0 <= i < |u| ensures LiteralChar(u[i]) {
        if i < k {
          assert u[i] == m[i];
        } else if i > k {
          assert u[i] == x[i - k - 1];
        }
      }
  }

  /** Every literal `float()` accepts is nonempty and made of digits, signs,
      points and exponent markers: it holds no whitespace. */
  lemma LiteralChars(t: string)
    requires ParseLiteral(t).Some?
    ensures t != [] && forall i :: 0 <= i < |t| ==> LiteralChar(t[i])
  {
    if t != [] && (t[0] == '+' || t[0] == '-') {
      UnsignedChars(t[1..]);
      forall i | 1 <= i < |t| ensures LiteralChar(t[i]) {
        assert t[i] == t[1..][i - 1];
      }
    } else {
      UnsignedChars(t);
    }
  }

  /** Where the first character `float()` keeps is not whitespace either,
      `float()` and `str.strip()` drop the same leading characters. */
  lemma {:induction false} FloatTrimStartAgrees(s: string)
    requires FloatTrimStart(s) == [] || !IsSpace(FloatTrimStart(s)[0])
    ensures FloatTrimStart(s) == TrimStart(s)
  {
    if |s| > 0 && FloatSpace(s[0]) {
      FloatTrimStartAgrees(s[1..]);
    }
  }

  /** Where the last character `float()` keeps is not whitespace either,
      `float()` and `str.strip()` drop the same trailing characters. */
  lemma {:induction false} FloatTrimEndAgrees(s: string)
    requires FloatTrimEnd(s) == [] || !IsSpace(FloatTrimEnd(s)[|FloatTrimEnd(s)| - 1])
    ensures FloatTrimEnd(s) == TrimEnd(s)
  {
    if |s| > 0 && FloatSpace(s[|s| - 1]) {
      FloatTrimEndAgrees(s[..|s| - 1]);
    }
  }

  /** When what `float()` keeps has no whitespace at either end, it is what
      `str.strip()` keeps. */
  lemma FloatStripAgrees(s: string)
    requires FloatStrip(s) != [] && Stripped(FloatStrip(s))
    ensures FloatStrip(s) == Strip(s)
  {
    var t := FloatTrimStart(s);
    var r := FloatTrimEnd(t);
    assert t[0] == r[0];
    FloatTrimStartAgrees(s);
    FloatTrimEndAgrees(t);
  }

  /** On a text `float()` accepts, stripping it first does not change the
      value: the whitespace `float()` removes is then exactly the whitespace
      `str.strip()` removes. */
  lemma ParseFloatIgnoresStrip(s: string)
    ensures ParseFloat(s).Some? ==> ParseFloat(Strip(s)) == ParseFloat(s)
  {
    if ParseFloat(s).Some? {
      var f := FloatStrip(s);
      LiteralChars(f);
      assert LiteralChar(f[0]) && LiteralChar(f[|f| - 1]);
      FloatStripAgrees(s);
    }
  }

  /** The converse fails: `float()` keeps a leading U+001C that `str.strip()`
      removes, so `float('\x1c' + d)` raises while `float(d)` is the digit's
      value. */
  lemma SeparatorBlocksFloat(s: string)
    requires |s| == 2 && s[0] == '\U{1C}' && IsDigit(s[1])
    ensures ParseFloat(s) == None
    ensures Strip(s) == s[1..]
    ensures ParseFloat(Strip(s)) == Some((s[1] as int - '0' as int) as real)
  {
    assert FloatStrip(s) == s by {
      assert FloatTrimStart(s) == s;
    }
    var d := s[1..];
    assert TrimStart(s) == d by {
      assert TrimStart(d) == d;
    }
    assert Strip(s) == d;
    assert DigitsValue(d) == s[1] as int - '0' as int by {
      assert d[..0] == [];
    }
    DigitsParse(d);
    UnsignedFloat(d, DigitsValue(d) as real);
  }

  /** Cleaning is idempotent on the parsed value, although it is not on the
      text: when a cleaned Fair Value converts, cleaning it again yields the
      same number. */
  lemma CleanValueIdempotent(s: string)
    ensures ParseFloat(Clean(s)).Some? ==> ParseFloat(Clean(Clean(s))) == ParseFloat(Clean(s))
  {
    CleanTwice(s);
    ParseFloatIgnoresStrip(Clean(s));
  }

  /** Without a value from the first cleaning there is nothing to keep: `+`
      then U+001C then a digit cleans to a text `float()` rejects, and a second
      cleaning strips the separator and yields the digit's value. */
  lemma CleanValueAfterSeparator(s: string)
    requires |s| == 3 && s[0] == '+' && s[1] == '\U{1C}' && IsDigit(s[2])
    ensures ParseFloat(Clean(s)) == None
    ensures ParseFloat(Clean(Clean(s))) == Some((s[2] as int - '0' as int) as real)
  {
    var c := s[1..];
    CleanDropsPlusOnly(s);
    SeparatorBlocksFloat(c);
    CleanDropsSeparator(c);
  }

  /** `+`, U+001C and a digit: `strip()` leaves the text and the `+` goes. */
  lemma CleanDropsPlusOnly(s: string)
    requires |s| == 3 && s[0] == '+' && s[1] == '\U{1C}' && IsDigit(s[2])
    ensures Clean(s) == s[1..]
  {
    var c := s[1..];
    StripStripped(s);
    assert RemovePlus(s) == RemovePlus(c);
    assert c == [c[0], c[1]];
    RemovePlusNoPlus(c);
  }

  /** U+001C and a digit: `strip()` drops the separator and no `+` is left to
      drop. */
  lemma CleanDropsSeparator(c: string)
    requires |c| == 2 && c[0] == '\U{1C}' && IsDigit(c[1])
    ensures Clean(c) == c[1..]
  {
    SeparatorBlocksFloat(c);
    assert RemovePlus(c[1..]) == c[1..];
  }

  /** The value of the decimal `ww.ff`. */
  function DecimalValue(w: string, f: string): real
    requires AllDigits(w) && AllDigits(f)
  {
    DigitsValue(w) as real + FractionValue(f)
  }

  /** Scaling by a power of ten distributes over a sum. */
  lemma {:induction false} ScaleAdd(x: real, y: real, n: nat)
    ensures Scale(x + y, n) == Scale(x, n) + Scale(y, n)
  {
    if n > 0 {
      ScaleAdd(x, y, n - 1);
    }
  }

  /** A tenth scaled by ten to the `n + 1` is the whole scaled by ten to the
      `n`. */
  lemma {:induction false} ScaleTenth(x: real, n: nat)
    ensures Scale(x / 10.0, n + 1) == Scale(x, n)
  {
    if n > 0 {
      ScaleTenth(x, n - 1);
    }
  }

  /** The value of a digit run is its first digit times ten to the number of
      digits after it, plus the value of those digits. */
  lemma {:induction false} DigitsValueFront(f: string)
    requires f != [] && AllDigits(f)
    ensures DigitsValue(f) as real
      == Scale((f[0] as int - '0' as int) as real, |f| - 1) + DigitsValue(f[1..]) as real
  {
    var n := |f| - 1;
    if n == 0 {
      assert f[..0] == [] && f[1..] == [];
    } else {
      var g, t := f[..n], f[1..];
      var d := (f[0] as int - '0' as int) as real;
      assert AllDigits(g) && AllDigits(t) && AllDigits(g[1..]);
      assert DigitsValue(g) as real == Scale(d, n - 1) + DigitsValue(g[1..]) as real by {
        DigitsValueFront(g);
        assert g[0] == f[0];
      }
      assert DigitsValue(t) == DigitsValue(g[1..]) * 10 + (f[n] as int - '0' as int) by {
        assert t[..n - 1] == g[1..] && t[n - 1] == f[n];
      }
    }
  }

  /** The fraction read after a point is the integer value of its digits over
      ten to the number of digits: `0.ff` times 10^|ff| is `ff`. */
  lemma {:induction false} FractionDigits(f: string)
    requires AllDigits(f)
    ensures Scale(FractionValue(f), |f|) == DigitsValue(f) as real
  {
    if f != [] {
      var t := f[1..];
      var d := (f[0] as int - '0' as int) as real;
      var x := FractionValue(t);
      FractionDigits(t);
      DigitsValueFront(f);
      ScaleTenth(d + x, |t|);
      ScaleAdd(d, x, |t|);
    }
  }

  /** In `ww.ff` the first point is the one after the whole part, and there
      is no exponent marker. */
  lemma DecimalMarkers(w: string, f: string)
    requires AllDigits(w) && AllDigits(f)
    ensures Find(w + ['.'] + f, {'e', 'E'}).None?
    ensures Find(w + ['.'] + f, {'.'}) == Some(|w|)
  {
    var u := w + ['.'] + f;
    assert forall j :: 0 <= j < |u| && j != |w| ==> IsDigit(u[j]);
    FindNone(u, {'e', 'E'});
    FindFirst(u, {'.'}, |w|);
  }

  /** A mantissa whose first point is at `k` parses to the digits before the
      point plus the fraction after it. */
  lemma MantissaAt(m: string, k: nat, whole: string, frac: string)
    requires Find(m, {'.'}) == Some(k) && whole == m[..k] && frac == m[k + 1..]
    requires AllDigits(whole) && AllDigits(frac) && |whole| + |frac| > 0
    ensures ParseMantissa(m) == Some(DecimalValue(whole, frac))
  {
  }

  /** Without an exponent marker the literal is just its mantissa. */
  lemma NoExponent(u: string)
    requires Find(u, {'e', 'E'}).None?
    ensures ParseUnsigned(u) == ParseMantissa(u)
  {
  }

  /** A text of digits, a point and digits parses to its decimal value. */
  lemma DecimalParse(w: string, f: string)
    requires AllDigits(w) && AllDigits(f) && |w| + |f| > 0
    ensures ParseUnsigned(w + ['.'] + f) == Some(DecimalValue(w, f))
  {
    var u := w + ['.'] + f;
    DecimalMarkers(w, f);
    assert u[..|w|] == w && u[|w| + 1..] == f;
    MantissaAt(u, |w|, w, f);
    NoExponent(u);
  }

  lemma DecimalEnds(w: string, f: string)
    requires AllDigits(w) && AllDigits(f) && w != [] && f != []
    ensures var u := w + ['.'] + f; u != [] && IsDigit(u[0]) && IsDigit(u[|u| - 1])
  {
    var u := w + ['.'] + f;
    assert u[0] == w[0] && u[|u| - 1] == f[|f| - 1];
  }

  /** `float()` of a decimal `ww.ff` is its value. */
  lemma DecimalFloat(w: string, f: string)
    requires AllDigits(w) && AllDigits(f) && w != [] && f != []
    ensures ParseFloat(w + ['.'] + f) == Some(DecimalValue(w, f))
  {
    DecimalParse(w, f);
    DecimalEnds(w, f);
    UnsignedFloat(w + ['.'] + f, DecimalValue(w, f));
  }

  /** `float()` of a negative decimal `-ww.ff` is the negated value. */
  lemma NegativeDecimalFloat(w: string, f: string)
    requires AllDigits(w) && AllDigits(f) && w != [] && f != []
    ensures ParseFloat(['-'] + (w + ['.'] + f)) == Some(-DecimalValue(w, f))
  {
    DecimalParse(w, f);
    DecimalEnds(w, f);
    NegatedFloat(['-'] + (w + ['.'] + f), w + ['.'] + f, DecimalValue(w, f));
  }
}
