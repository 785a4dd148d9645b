/**
 * The two-line header of a DDH station file, as load_ddh in
 * IFS/ddh_funcs.py reads it: the first line names the keys, the second
 * holds their values, both split on whitespace; then the keys listed in
 * HEADER_TYPES are converted to their declared types.
 */
module DdhHeader {
  import opened Wrappers
  import opened Decimals

  /**
   * The ASCII characters str.split() treats as separators: blank, the
   * controls 9-13 (tab, line feed, vertical tab, form feed, carriage
   * return) and 28-31 (the file, group, record and unit separators).
   */
  predicate IsSpace(c: char)
  {
    c == ' ' || c == '\t' || c == '\n' || c == '\r' || c as int == 11 || c as int == 12
    || 28 <= c as int <= 31
  }

  /** A token of str.split(): non-empty, without a separator. */
  predicate IsToken(w: string)
  {
    |w| > 0 && forall k :: 0 <= k < |w| ==> !IsSpace(w[k])
  }

  /** The length of the run of non-separators at the front of s. */
  function TokenLength(s: string): (n: nat)
    ensures n <= |s|
    ensures forall k :: 0 <= k < n ==> !IsSpace(s[k])
    ensures n < |s| ==> IsSpace(s[n])
  {
    if |s| == 0 || IsSpace(s[0]) then 0 else 1 + TokenLength(s[1..])
  }

  /** str.split() without argument: the maximal runs of non-separators, in order. */
  function Split(s: string): (ws: seq<string>)
    ensures forall k :: 0 <= k < |ws| ==> IsToken(ws[k])
    decreases |s|
  {
    if |s| == 0 then []
    else if IsSpace(s[0]) then Split(s[1..])
    else
      var n := TokenLength(s);
      [s[..n]] + Split(s[n..])
  }

  /** The tokens written out, each followed by one blank. */
  function Spaced(ws: seq<string>): string
  {
    if |ws| == 0 then "" else ws[0] + " " + Spaced(ws[1..])
  }

  /** A token followed by a separator: the token is the first run. */
  lemma {:induction false} TokenThenSpace(w: string, rest: string)
    requires IsToken(w)
    ensures TokenLength(w + " " + rest) == |w|
    decreases |w|
  {
    var s := w + " " + rest;
    if |w| == 1 {
      assert s[1..] == " " + rest;
    } else {
      assert s[1..] == w[1..] + " " + rest;
      TokenThenSpace(w[1..], rest);
    }
  }

  /** Splitting tokens written out with blanks gives the tokens back. */
  lemma {:induction false} SplitSpaced(ws: seq<string>)
    requires forall k :: 0 <= k < |ws| ==> IsToken(ws[k])
    ensures Split(Spaced(ws)) == ws
    decreases |ws|
  {
    if |ws| > 0 {
      var w, rest := ws[0], Spaced(ws[1..]);
      var s := w + " " + rest;
      TokenThenSpace(w, rest);
      assert s[..|w|] == w;
      assert s[|w|..] == " " + rest;
      assert (" " + rest)[1..] == rest;
      SplitSpaced(ws[1..]);
      assert ws == [w] + ws[1..];
    }
  }

  /** A line splits into nothing exactly when it holds only separators. */
  lemma {:induction false} SplitEmpty(s: string)
    ensures Split(s) == [] <==> forall k :: 0 <= k < |s| ==> IsSpace(s[k])
    decreases |s|
  {
    if |s| > 0 && IsSpace(s[0]) {
      SplitEmpty(s[1..]);
      assert forall k :: 1 <= k < |s| ==> s[k] == s[1..][k - 1];
    }
  }

  /** Why a header cannot be read. */
  datatype HeaderError =
    | NotPairs             // a single header line holding tokens: dict() receives 1-tuples
    | BadValue(key: string) // the value of a typed key does not convert to its type

  /** dict over the first n pairs (keys[k], values[k]), a later pair overriding an earlier one. */
  function Pairs(keys: seq<string>, values: seq<string>, n: nat): map<string, string>
    requires n <= |keys| && n <= |values|
  {
    if n == 0 then map[] else Pairs(keys, values, n - 1)[keys[n - 1] := values[n - 1]]
  }

  function Min(a: nat, b: nat): nat
  {
    if a <= b then a else b
  }

  /**
   * dict(zip(keys, values)): zip stops at the shorter of the two, so the
   * keys are those that have a value; a key maps to the value paired with
   * its last occurrence.
   */
  function ZipDict(keys: seq<string>, values: seq<string>): (m: map<string, string>)
    ensures forall key :: key in m <==> exists k :: 0 <= k < |keys| && k < |values| && keys[k] == key
    ensures forall k :: 0 <= k < |keys| && k < |values| && (forall k2 :: k < k2 < Min(|keys|, |values|) ==> keys[k2] != keys[k]) ==>
              keys[k] in m && m[keys[k]] == values[k]
  {
    PairsAll(keys, values, Min(|keys|, |values|));
    Pairs(keys, values, Min(|keys|, |values|))
  }

  /** PairsKeys and PairsLookup for every key and every pairing at once. */
  lemma PairsAll(keys: seq<string>, values: seq<string>, n: nat)
    requires n <= |keys| && n <= |values|
    ensures forall key :: key in Pairs(keys, values, n) <==> exists k :: 0 <= k < n && keys[k] == key
    ensures forall k :: 0 <= k < n && (forall k2 :: k < k2 < n ==> keys[k2] != keys[k]) ==>
              keys[k] in Pairs(keys, values, n) && Pairs(keys, values, n)[keys[k]] == values[k]
  {
    forall key ensures key in Pairs(keys, values, n) <==> exists k :: 0 <= k < n && keys[k] == key {
      PairsKeys(keys, values, n, key);
      if key in keys[..n] {
        var k :| 0 <= k < n && keys[..n][k] == key;
        assert keys[k] == key;
      }
    }
    forall k | 0 <= k < n && (forall k2 :: k < k2 < n ==> keys[k2] != keys[k])
      ensures keys[k] in Pairs(keys, values, n) && Pairs(keys, values, n)[keys[k]] == values[k]
    {
      PairsLookup(keys, values, n, k);
    }
  }

  /** The keys of the dict are the first n keys, and each maps to the value paired with its last occurrence. */
  lemma {:induction false} PairsLookup(keys: seq<string>, values: seq<string>, n: nat, i: nat)
    requires n <= |keys| && n <= |values| && i < n
    requires forall k :: i < k < n ==> keys[k] != keys[i]
    ensures keys[i] in Pairs(keys, values, n) && Pairs(keys, values, n)[keys[i]] == values[i]
    decreases n
  {
    if i < n - 1 {
      PairsLookup(keys, values, n - 1, i);
    }
  }

  /** A key is in the dict exactly when it is among the first n keys. */
  lemma {:induction false} PairsKeys(keys: seq<string>, values: seq<string>, n: nat, key: string)
    requires n <= |keys| && n <= |values|
    ensures key in Pairs(keys, values, n) <==> key in keys[..n]
    decreases n
  {
    if n > 0 {
      PairsKeys(keys, values, n - 1, key);
      assert keys[..n] == keys[..n - 1] + [keys[n - 1]];
    }
  }

  /**
   * dict(zip(*map(str.split, islice(lines, 2)))): the raw header. With no
   * line zip yields nothing; with one line it yields 1-tuples, which dict()
   * refuses unless the line has no token; otherwise token k of the first
   * line is paired with token k of the second.
   */
  function RawHeader(lines: seq<string>): (r: Result<map<string, string>, HeaderError>)
    ensures r.Err? <==> |lines| == 1 && Split(lines[0]) != []
    ensures r.Err? ==> r.error == NotPairs
    ensures r.Ok? && |lines| < 2 ==> r.value == map[]
    ensures r.Ok? && |lines| >= 2 ==>
              forall key :: key in r.value <==> exists k :: 0 <= k < |Split(lines[0])| && k < |Split(lines[1])| && Split(lines[0])[k] == key
  {
    if |lines| == 0 then Ok(map[])
    else if |lines| == 1 then (if Split(lines[0]) == [] then Ok(map[]) else Err(NotPairs))
    else Ok(ZipDict(Split(lines[0]), Split(lines[1])))
  }

  /** The raw header of two or more lines: its keys are the paired keys, each with the value of its last pairing; lines after the second are ignored. */
  lemma RawHeaderPairs(lines: seq<string>, i: nat)
    requires |lines| >= 2
    requires var keys, values := Split(lines[0]), Split(lines[1]);
             i < |keys| && i < |values| && forall k :: i < k < Min(|keys|, |values|) ==> keys[k] != keys[i]
    ensures var keys, values := Split(lines[0]), Split(lines[1]);
            RawHeader(lines).Ok? && keys[i] in RawHeader(lines).value && RawHeader(lines).value[keys[i]] == values[i]
    ensures RawHeader(lines) == RawHeader(lines[..2])
  {
    var keys, values := Split(lines[0]), Split(lines[1]);
    PairsLookup(keys, values, Min(|keys|, |values|), i);
  }

  /** The raw header has no key beyond the paired ones: surplus tokens of the longer line are dropped. */
  lemma RawHeaderKeys(lines: seq<string>, key: string)
    requires RawHeader(lines).Ok?
    ensures key in RawHeader(lines).value <==>
            |lines| >= 2 && exists k :: 0 <= k < Min(|Split(lines[0])|, |Split(lines[1])|) && Split(lines[0])[k] == key
  {
    if |lines| >= 2 {
      var keys, values := Split(lines[0]), Split(lines[1]);
      var n := Min(|keys|, |values|);
      PairsKeys(keys, values, n, key);
      if key in keys[..n] {
        var k :| 0 <= k < n && keys[..n][k] == key;
        assert keys[k] == key;
      }
    }
  }

  /** A single header line is accepted only when it holds no token. */
  lemma OneLineHeader(line: string)
    ensures RawHeader([line]).Ok? <==> forall k :: 0 <= k < |line| ==> IsSpace(line[k])
    ensures RawHeader([line]).Ok? ==> RawHeader([line]).value == map[]
  {
    SplitEmpty(line);
  }

  /** 10^e for a signed exponent, as a real. */
  function Scale(e: int): (r: real)
    ensures r > 0.0
    decreases if e >= 0 then e else -e
  {
    if e == 0 then 1.0 else if e > 0 then 10.0 * Scale(e - 1) else Scale(e + 1) / 10.0
  }

  /** A leading sign, if any: whether it is '-', and the rest of the text. */
  function SplitSign(s: string): (bool, string)
  {
    if |s| > 0 && (s[0] == '-' || s[0] == '+') then (s[0] == '-', s[1..]) else (false, s)
  }

  /** int(s) on a token: an optional sign and one or more decimal digits. */
  function ParseInt(s: string): (r: Option<int>)
    ensures r.Some? ==> |s| > 0 && forall k :: 0 < k < |s| ==> '0' <= s[k] <= '9'
    ensures r.Some? ==> '0' <= s[0] <= '9' || ((s[0] == '-' || s[0] == '+') && |s| >= 2)
    ensures r.Some? && r.value < 0 ==> s[0] == '-'
    ensures |s| > 0 && IsDigits(s) ==> r == Some(DecimalValue(s) as int)
  {
    var (negative, body) := SplitSign(s);
    assert |s| > 0 && (s[0] == '-' || s[0] == '+') ==> forall k :: 0 < k < |s| ==> s[k] == body[k - 1];
    if |body| > 0 && IsDigits(body) then
      Some(if negative then -(DecimalValue(body) as int) else DecimalValue(body) as int)
    else None
  }

  /** str() of an integer. */
  function IntText(n: int): string
  {
    if n < 0 then "-" + Decimal(-n) else Decimal(n)
  }

  /** int() reads back what str() writes. */
  lemma ParseIntRoundTrip(n: int)
    ensures ParseInt(IntText(n)) == Some(n)
  {
    var m: nat := if n < 0 then -n else n;
    var d := Decimal(m);
    DecimalRoundTrip(m);
    assert |d| > 0 && '0' <= d[0] <= '9';
    if n < 0 {
      var s := "-" + d;
      assert s[0] == '-' && s[1..] == d;
      assert IntText(n) == s;
      assert SplitSign(s) == (true, d);
    } else {
      assert IntText(n) == d;
      assert SplitSign(d) == (false, d);
    }
  }

  /** The position of the first character c in s, or |s|. */
  function IndexOf(s: string, c: char): (k: nat)
    ensures k <= |s|
    ensures forall m :: 0 <= m < k ==> s[m] != c
    ensures k < |s| ==> s[k] == c
  {
    if |s| == 0 || s[0] == c then 0 else 1 + IndexOf(s[1..], c)
  }

  /** The position of the first 'e' or 'E', where an exponent starts, or |s|. */
  function ExponentStart(s: string): (k: nat)
    ensures k <= |s|
    ensures forall m :: 0 <= m < k ==> s[m] != 'e' && s[m] != 'E'
    ensures k < |s| ==> s[k] == 'e' || s[k] == 'E'
  {
    if |s| == 0 || s[0] == 'e' || s[0] == 'E' then 0 else 1 + ExponentStart(s[1..])
  }

  /** The value of the digits after a decimal point: 0.d1 d2 ... */
  function FractionValue(f: string): (v: real)
    requires IsDigits(f)
    ensures 0.0 <= v <= 1.0
  {
    if |f| == 0 then 0.0 else ((f[0] as int - '0' as int) as real + FractionValue(f[1..])) / 10.0
  }

  /** The number d.f written with digits d before the point and f after it. */
  function DecimalNumber(d: string, f: string): (v: real)
    requires IsDigits(d) && IsDigits(f)
    ensures v >= 0.0
  {
    DecimalValue(d) as real + FractionValue(f)
  }

  /** The digits before and after an optional decimal point, at least one digit in all. */
  function ParseMantissa(m: string): (r: Option<real>)
    ensures r.Some? ==> |m| > 0 && r.value >= 0.0
  {
    var dot := IndexOf(m, '.');
    var whole := m[..dot];
    var fraction := if dot < |m| then m[dot + 1..] else "";
    if IsDigits(whole) && IsDigits(fraction) && |whole| + |fraction| > 0 then
      Some(DecimalNumber(whole, fraction))
    else None
  }

  /** The exponent part: nothing, or 'e'/'E' followed by a signed integer. */
  function ParseExponent(x: string): Option<int>
  {
    if |x| == 0 then Some(0)
    else if x[0] == 'e' || x[0] == 'E' then ParseInt(x[1..])
    else None
  }

  /** The number a sign, a mantissa and an exponent denote, when both parts parsed. */
  function Combine(negative: bool, mantissa: Option<real>, exponent: Option<int>): (r: Option<real>)
    requires mantissa.Some? ==> mantissa.value >= 0.0
    ensures r.Some? <==> mantissa.Some? && exponent.Some?
    ensures r.Some? && r.value < 0.0 ==> negative
  {
    if mantissa.Some? && exponent.Some? then
      Some(Signed(negative, Scaled(mantissa.value, exponent.value)))
    else None
  }

  /** v times 10^x. */
  function Scaled(v: real, x: int): (r: real)
    ensures v >= 0.0 ==> r >= 0.0
  {
    var p := v * Scale(x);
    assert v >= 0.0 ==> p >= 0.0 by {
      if v >= 0.0 {
        NonNegativeProduct(v, Scale(x));
      }
    }
    p
  }

  /** v negated after a '-' sign, v itself otherwise. */
  function Signed(negative: bool, v: real): real
  {
    if negative then -v else v
  }

  /** float(s) on a token: sign, mantissa, optional exponent; the value is exact. */
  function ParseFloat(s: string): (r: Option<real>)
    ensures r.Some? ==> |s| > 0
    ensures r.Some? && r.value < 0.0 ==> s[0] == '-'
  {
    var body := SplitSign(s).1;
    var e := ExponentStart(body);
    Combine(SplitSign(s).0, ParseMantissa(body[..e]), ParseExponent(body[e..]))
  }

  /** The product of two non-negative numbers is non-negative. */
  lemma NonNegativeProduct(a: real, b: real)
    requires a >= 0.0 && b >= 0.0
    ensures a * b >= 0.0
  {
  }

  /** Digits hold no decimal point and no exponent mark. */
  lemma {:induction false} DigitsHaveNoMarks(d: string)
    requires IsDigits(d)
    ensures IndexOf(d, '.') == |d| && ExponentStart(d) == |d|
    decreases |d|
  {
    if |d| > 0 {
      assert '0' <= d[0] <= '9';
      DigitsHaveNoMarks(d[1..]);
    }
  }

  /** A string of digits is a mantissa without fraction. */
  lemma DigitsAreMantissa(d: string)
    requires |d| > 0 && IsDigits(d)
    ensures ParseMantissa(d) == Some(DecimalValue(d) as real)
  {
    DigitsHaveNoMarks(d);
    assert d[..IndexOf(d, '.')] == d;
  }

  /** Whatever int() reads, float() reads as the same number. */
  lemma FloatOfInt(s: string)
    requires ParseInt(s).Some?
    ensures ParseFloat(s) == Some(ParseInt(s).value as real)
  {
    var body := SplitSign(s).1;
    DigitsHaveNoMarks(body);
    DigitsAreMantissa(body);
    assert body[..|body|] == body;
    assert body[|body|..] == "";
  }

  /** A character found nowhere in the prefix is first found in what follows it. */
  lemma {:induction false} IndexOfAfter(p: string, rest: string, c: char)
    requires forall k :: 0 <= k < |p| ==> p[k] != c
    ensures IndexOf(p + rest, c) == |p| + IndexOf(rest, c)
    decreases |p|
  {
    if |p| > 0 {
      assert (p + rest)[0] == p[0];
      assert (p + rest)[1..] == p[1..] + rest;
      IndexOfAfter(p[1..], rest, c);
    } else {
      assert p + rest == rest;
    }
  }

  /** No 'e' or 'E' in s. */
  predicate NoExponentMark(s: string)
  {
    forall k :: 0 <= k < |s| ==> s[k] != 'e' && s[k] != 'E'
  }

  /** m is unsigned mantissa text without exponent mark, reading as v. */
  predicate MantissaText(m: string, v: real)
  {
    |m| > 0 && ('0' <= m[0] <= '9' || m[0] == '.') && NoExponentMark(m) && ParseMantissa(m) == Some(v)
  }

  /** ex is the exponent part written for x: nothing for 0, or 'e' and the text of x. */
  predicate ExponentText(ex: string, x: int)
  {
    (ex == "" && x == 0) || ex == "e" + IntText(x)
  }

  /** An exponent mark found nowhere in the prefix is first found in what follows it. */
  lemma {:induction false} ExponentAfter(p: string, rest: string)
    requires NoExponentMark(p)
    ensures ExponentStart(p + rest) == |p| + ExponentStart(rest)
    decreases |p|
  {
    if |p| > 0 {
      assert (p + rest)[0] == p[0];
      assert (p + rest)[1..] == p[1..] + rest;
      ExponentAfter(p[1..], rest);
    } else {
      assert p + rest == rest;
    }
  }

  /** Digits, a point and digits, at least one digit in all: the mantissa d.f. */
  lemma MantissaOfDecimal(d: string, f: string)
    requires IsDigits(d) && IsDigits(f) && |d| + |f| > 0
    ensures ParseMantissa(d + "." + f) == Some(DecimalNumber(d, f))
  {
    var m := d + "." + f;
    IndexOfAfter(d, "." + f, '.');
    assert d + ("." + f) == m;
    assert IndexOf("." + f, '.') == 0;
    AroundPoint(m, d, f);
    MantissaAt(m, |d|, d, f);
  }

  /** The text before and after the point of d.f. */
  lemma AroundPoint(m: string, d: string, f: string)
    requires m == d + "." + f
    ensures m[..|d|] == d && m[|d| + 1..] == f
  {
  }

  /** The mantissa read at the position of its point. */
  lemma MantissaAt(m: string, dot: nat, whole: string, fraction: string)
    requires dot == IndexOf(m, '.') && dot < |m| && whole == m[..dot] && fraction == m[dot + 1..]
    requires IsDigits(whole) && IsDigits(fraction) && |whole| + |fraction| > 0
    ensures ParseMantissa(m) == Some(DecimalNumber(whole, fraction))
  {
  }

  /** The sign before a token: '-' or nothing. */
  function SignText(negative: bool): string
  {
    if negative then "-" else ""
  }

  /**
   * A token made of an optional '-', a mantissa m and an exponent part
   * (nothing, or 'e' and the text of x) reads as the mantissa's value
   * times 10^x, negated after '-'.
   */
  lemma FloatOfParts(negative: bool, m: string, ex: string, x: int, t: string, v: real)
    requires MantissaText(m, v)
    requires ExponentText(ex, x)
    requires t == SignText(negative) + m + ex
    ensures ParseFloat(t) == Some(Signed(negative, Scaled(v, x)))
  {
    FloatSplit(negative, m, ex);
    ExponentOf(ex, x);
    CombineOf(negative, v, x);
  }

  /** float() of an optional '-', a mantissa and an exponent part reads each part on its own. */
  lemma FloatSplit(negative: bool, m: string, ex: string)
    requires |m| > 0 && ('0' <= m[0] <= '9' || m[0] == '.')
    requires NoExponentMark(m)
    requires ex == "" || ex[0] == 'e'
    ensures ParseFloat(SignText(negative) + m + ex) == Combine(negative, ParseMantissa(m), ParseExponent(ex))
  {
    var body := m + ex;
    var s := SignText(negative) + body;
    assert SignText(negative) + m + ex == s;
    SignOf(negative, body);
    ExponentAfter(m, ex);
    assert ExponentStart(ex) == 0;
    AroundExponent(body, m, ex);
    FloatAt(s, negative, body, |m|);
  }

  /** The number formed from a parsed mantissa v and exponent x. */
  lemma CombineOf(negative: bool, v: real, x: int)
    requires v >= 0.0
    ensures Combine(negative, Some(v), Some(x)) == Some(Signed(negative, Scaled(v, x)))
  {
  }

  /** An unsigned body behind SignText splits back into the sign and the body. */
  lemma SignOf(negative: bool, body: string)
    requires |body| > 0 && body[0] != '-' && body[0] != '+'
    ensures SplitSign(SignText(negative) + body) == (negative, body)
  {
    var s := SignText(negative) + body;
    if negative {
      assert s[1..] == body;
    } else {
      assert s == body;
    }
  }

  /** The text before and after the exponent of m + ex. */
  lemma AroundExponent(body: string, m: string, ex: string)
    requires body == m + ex
    ensures body[..|m|] == m && body[|m|..] == ex
  {
  }

  /** The exponent part written for x reads back as x. */
  lemma ExponentOf(ex: string, x: int)
    requires ExponentText(ex, x)
    ensures ParseExponent(ex) == Some(x)
  {
    if ex != "" {
      ParseIntRoundTrip(x);
      assert ex[1..] == IntText(x);
    }
  }

  /** float() of a token, read through its sign and the position of its exponent. */
  lemma FloatAt(s: string, negative: bool, body: string, e: nat)
    requires SplitSign(s) == (negative, body) && e == ExponentStart(body)
    ensures ParseFloat(s) == Combine(negative, ParseMantissa(body[..e]), ParseExponent(body[e..]))
  {
  }

  /** Digits and a point hold no exponent mark. */
  lemma DecimalHasNoMark(d: string, f: string)
    requires IsDigits(d) && IsDigits(f)
    ensures NoExponentMark(d + "." + f)
  {
    var m := d + "." + f;
    forall k | 0 <= k < |m|
      ensures m[k] != 'e' && m[k] != 'E'
    {
      if k < |d| {
        assert m[k] == d[k];
      } else if k > |d| {
        assert m[k] == f[k - |d| - 1];
      }
    }
  }

  /** float() of [-]d.f is the decimal number it denotes. */
  lemma FloatOfDecimal(negative: bool, d: string, f: string)
    requires IsDigits(d) && IsDigits(f) && |d| + |f| > 0
    ensures ParseFloat(SignText(negative) + d + "." + f) == Some(Signed(negative, DecimalNumber(d, f)))
  {
    var v := DecimalNumber(d, f);
    DecimalMantissa(d, f);
    PlainDecimalText(SignText(negative), d, f);
    FloatOfParts(negative, d + "." + f, "", 0, SignText(negative) + d + "." + f, v);
    ScaledByOne(v);
  }

  /** float() of [-]d.fe<x> is the decimal number d.f times 10^x. */
  lemma FloatOfScientific(negative: bool, d: string, f: string, x: int)
    requires IsDigits(d) && IsDigits(f) && |d| + |f| > 0
    ensures ParseFloat(SignText(negative) + d + "." + f + "e" + IntText(x)) ==
            Some(Signed(negative, Scaled(DecimalNumber(d, f), x)))
  {
    DecimalMantissa(d, f);
    ScientificText(SignText(negative), d, f, IntText(x));
    FloatOfParts(negative, d + "." + f, "e" + IntText(x), x, SignText(negative) + d + "." + f + "e" + IntText(x),
                 DecimalNumber(d, f));
  }

  /** float() of [-]de<x>, digits without a point, is d times 10^x. */
  lemma FloatOfDigitsScientific(negative: bool, d: string, x: int)
    requires |d| > 0 && IsDigits(d)
    ensures ParseFloat(SignText(negative) + d + "e" + IntText(x)) == Some(Signed(negative, Scaled(DecimalValue(d) as real, x)))
  {
    DigitsMantissaText(d);
    ExponentGrouping(SignText(negative) + d, IntText(x));
    FloatOfParts(negative, d, "e" + IntText(x), x, SignText(negative) + d + "e" + IntText(x), DecimalValue(d) as real);
  }

  /** d.f meets what FloatOfParts asks of a mantissa. */
  lemma DecimalMantissa(d: string, f: string)
    requires IsDigits(d) && IsDigits(f) && |d| + |f| > 0
    ensures MantissaText(d + "." + f, DecimalNumber(d, f))
  {
    MantissaOfDecimal(d, f);
    DecimalHasNoMark(d, f);
    var m := d + "." + f;
    assert m[0] == if |d| > 0 then d[0] else '.';
  }

  /** Digits are mantissa text reading as their decimal value. */
  lemma DigitsMantissaText(d: string)
    requires |d| > 0 && IsDigits(d)
    ensures MantissaText(d, DecimalValue(d) as real)
  {
    DigitsAreMantissa(d);
  }

  /** The token text with a point and an exponent, grouped as FloatOfParts reads it. */
  lemma ScientificText(sign: string, d: string, f: string, t: string)
    ensures sign + (d + "." + f) + ("e" + t) == sign + d + "." + f + "e" + t
  {
  }

  /** The token text without exponent, grouped as FloatOfParts reads it. */
  lemma PlainDecimalText(sign: string, d: string, f: string)
    ensures sign + (d + "." + f) + "" == sign + d + "." + f
  {
  }

  /** The exponent text, grouped as FloatOfParts reads it. */
  lemma ExponentGrouping(front: string, t: string)
    ensures front + ("e" + t) == front + "e" + t
  {
  }

  /** A number times 10^0 is itself. */
  lemma ScaledByOne(v: real)
    ensures Scaled(v, 0) == v
  {
  }

  /** The types HEADER_TYPES converts to. */
  datatype FieldType = StrType | IntType | FloatType

  /** A typed header value. */
  datatype HeaderValue = Str(s: string) | Int(i: int) | Float(r: real)

  /** HEADER_TYPES, in its declaration order. */
  const HeaderTypes: seq<(string, FieldType)> :=
    [("exp", StrType), ("vp", IntType), ("i", IntType), ("ty", IntType), ("west", FloatType), ("north", FloatType)]

  /** str(), int() or float() applied to one raw value; None where Python raises ValueError. */
  function Convert(f: FieldType, s: string): (r: Option<HeaderValue>)
    ensures f == StrType ==> r == Some(Str(s))
    ensures f == IntType ==> (r.Some? <==> ParseInt(s).Some?) && (r.Some? ==> r.value == Int(ParseInt(s).value))
    ensures f == FloatType ==> (r.Some? <==> ParseFloat(s).Some?) && (r.Some? ==> r.value == Float(ParseFloat(s).value))
  {
    match f
    case StrType => Some(Str(s))
    case IntType => (match ParseInt(s) case Some(n) => Some(Int(n)) case None => None)
    case FloatType => (match ParseFloat(s) case Some(x) => Some(Float(x)) case None => None)
  }

  /** No key of a type table appears twice. */
  predicate KeysDistinct(types: seq<(string, FieldType)>)
  {
    forall p, q :: 0 <= p < q < |types| ==> types[p].0 != types[q].0
  }

  /** The keys a type table names. */
  function TableKeys(types: seq<(string, FieldType)>): (keys: set<string>)
    ensures forall p :: 0 <= p < |types| ==> types[p].0 in keys
    ensures forall key :: key in keys ==> exists p :: 0 <= p < |types| && types[p].0 == key
  {
    if |types| == 0 then {} else {types[0].0} + TableKeys(types[1..])
  }

  /** The key k of the table converts, if the raw header has it. */
  predicate Converts(raw: map<string, string>, t: (string, FieldType))
  {
    t.0 in raw ==> Convert(t.1, raw[t.0]).Some?
  }

  /**
   * {k: f(raw[k]) for k, f in types if k in raw}: the keys are visited in
   * table order and the first value that does not convert stops the
   * comprehension.
   */
  function TypeKeys(raw: map<string, string>, types: seq<(string, FieldType)>): (r: Result<map<string, HeaderValue>, HeaderError>)
    ensures r.Ok? ==> r.value.Keys <= raw.Keys && r.value.Keys <= TableKeys(types)
    ensures r.Err? ==> exists p :: 0 <= p < |types| && types[p].0 in raw && Convert(types[p].1, raw[types[p].0]).None? &&
                                   r.error == BadValue(types[p].0)
  {
    if |types| == 0 then Ok(map[])
    else
      var (k, f) := types[0];
      if k !in raw then TypeKeys(raw, types[1..])
      else match Convert(f, raw[k])
        case None => Err(BadValue(k))
        case Some(v) =>
          match TypeKeys(raw, types[1..])
          case Err(e) => Err(e)
          case Ok(m) => Ok(m[k := v])
  }

  /** The typed header: the HEADER_TYPES keys the raw header has, each converted. */
  function TypedHeader(raw: map<string, string>): (r: Result<map<string, HeaderValue>, HeaderError>)
    ensures r.Ok? <==> forall p :: 0 <= p < |HeaderTypes| ==> Converts(raw, HeaderTypes[p])
    ensures r.Ok? ==> r.value.Keys == TableKeys(HeaderTypes) * raw.Keys
    ensures r.Err? ==> r.error.BadValue? && r.error.key in raw && r.error.key in TableKeys(HeaderTypes)
  {
    HeaderTypesDistinct();
    TypeKeysSpec(raw, HeaderTypes);
    TypeKeys(raw, HeaderTypes)
  }

  /**
   * The comprehension succeeds exactly when every present key converts; its
   * keys are then exactly the table keys present in the raw header, each
   * holding its converted value; otherwise the error names the first key,
   * in table order, that does not convert.
   */
  lemma {:induction false} TypeKeysSpec(raw: map<string, string>, types: seq<(string, FieldType)>)
    requires KeysDistinct(types)
    ensures TypeKeys(raw, types).Ok? <==> forall p :: 0 <= p < |types| ==> Converts(raw, types[p])
    ensures TypeKeys(raw, types).Ok? ==> TypeKeys(raw, types).value.Keys == TableKeys(types) * raw.Keys
    ensures TypeKeys(raw, types).Ok? ==>
              forall p :: 0 <= p < |types| && types[p].0 in raw ==>
                types[p].0 in TypeKeys(raw, types).value &&
                TypeKeys(raw, types).value[types[p].0] == Convert(types[p].1, raw[types[p].0]).value
    ensures TypeKeys(raw, types).Err? ==>
              exists p :: 0 <= p < |types| && !Converts(raw, types[p]) && TypeKeys(raw, types).error == BadValue(types[p].0) &&
                forall q :: 0 <= q < p ==> Converts(raw, types[q])
    decreases |types|
  {
    if |types| > 0 {
      var rest := types[1..];
      assert KeysDistinct(rest) by {
        forall p, q | 0 <= p < q < |rest| ensures rest[p].0 != rest[q].0 {
          assert rest[p] == types[p + 1] && rest[q] == types[q + 1];
        }
      }
      TypeKeysSpec(raw, rest);
      assert forall p :: 0 <= p < |rest| ==> rest[p] == types[p + 1];
      var (k, f) := types[0];
      if k in raw && Convert(f, raw[k]).None? {
        assert !Converts(raw, types[0]);
      } else if TypeKeys(raw, rest).Err? {
        var p :| 0 <= p < |rest| && !Converts(raw, rest[p]) && TypeKeys(raw, rest).error == BadValue(rest[p].0) &&
                 forall q :: 0 <= q < p ==> Converts(raw, rest[q]);
        assert types[p + 1] == rest[p];
        forall q | 0 <= q < p + 1 ensures Converts(raw, types[q]) {
          if q > 0 { assert types[q] == rest[q - 1]; }
        }
      }
    }
  }

  /** The header of a DDH file: the raw header, then its typed keys. */
  function ParseHeader(lines: seq<string>): (r: Result<map<string, HeaderValue>, HeaderError>)
    ensures r == Err(NotPairs) <==> |lines| == 1 && Split(lines[0]) != []
    ensures r.Ok? ==> r.value.Keys <= TableKeys(HeaderTypes)
    ensures |lines| < 2 && r.Ok? ==> r.value == map[]
  {
    match RawHeader(lines)
    case Err(e) => Err(e)
    case Ok(raw) => TypedHeader(raw)
  }

  /** A key of a typed header holds a value of the type HEADER_TYPES gives it, converted from its raw value. */
  lemma TypedHeaderKey(raw: map<string, string>, p: nat)
    requires p < |HeaderTypes|
    ensures TypedHeader(raw).Ok? && HeaderTypes[p].0 in TypedHeader(raw).value ==>
              var v := TypedHeader(raw).value[HeaderTypes[p].0];
              && HeaderTypes[p].0 in raw
              && Convert(HeaderTypes[p].1, raw[HeaderTypes[p].0]) == Some(v)
              && (HeaderTypes[p].1 == StrType ==> v.Str?)
              && (HeaderTypes[p].1 == IntType ==> v.Int?)
              && (HeaderTypes[p].1 == FloatType ==> v.Float?)
  {
    HeaderTypesDistinct();
    TypeKeysSpec(raw, HeaderTypes);
    assert HeaderTypes[p].0 in TableKeys(HeaderTypes);
  }

  /** HEADER_TYPES names six distinct keys. */
  lemma HeaderTypesDistinct()
    ensures KeysDistinct(HeaderTypes)
  {
  }
}
