/**
 * The parts of the C library that the enrollment processor and the text
 * justifier depend on, modelled on character sequences: character classes,
 * strtok, strtol/atoi, the plain-decimal part of strtod/atof, strcmp and the
 * `%d` conversion of printf.
 */
module CText {
  import opened Wrappers

  /** isspace in the "C" locale. */
  predicate IsSpace(c: char) {
    c == ' ' || c == '\t' || c == '\n' || c == '\U{B}' || c == '\U{C}' || c == '\r'
  }

  /** isalpha in the "C" locale. */
  predicate IsAlpha(c: char) {
    ('A' <= c <= 'Z') || ('a' <= c <= 'z')
  }

  predicate IsDigit(c: char) {
    '0' <= c <= '9'
  }

  predicate AllDigits(s: string) {
    forall i :: 0 <= i < |s| ==> IsDigit(s[i])
  }

  // ---------------------------------------------------------------------
  // strtok / strtok_r with a single delimiter character
  // ---------------------------------------------------------------------

  /** Length of the longest prefix of `s` free of the delimiter `d`. */
  function RunLength(s: string, d: char): (n: nat)
    ensures n <= |s|
    ensures forall i :: 0 <= i < n ==> s[i] != d
    ensures n < |s| ==> s[n] == d
  {
    if s == [] || s[0] == d then 0 else 1 + RunLength(s[1..], d)
  }

  /** The tokens that successive strtok calls return for `s` with the single
      delimiter `d`: the maximal non-empty runs free of `d`, in order. */
  function Tokens(s: string, d: char): (ts: seq<string>)
    ensures forall i :: 0 <= i < |ts| ==> |ts[i]| > 0 && d !in ts[i]
    decreases |s|
  {
    if s == [] then []
    else if s[0] == d then Tokens(s[1..], d)
    else
      var n := RunLength(s, d);
      [s[..n]] + Tokens(s[n..], d)
  }

  /** Tokens written out with exactly one delimiter between neighbours. */
  function Join(ts: seq<string>, d: char): string
  {
    if ts == [] then []
    else if |ts| == 1 then ts[0]
    else ts[0] + [d] + Join(ts[1..], d)
  }

  lemma RunLengthOfPrefix(t: string, z: string, d: char)
    requires d !in t
    requires z == [] || z[0] == d
    ensures RunLength(t + z, d) == |t|
  {
    assert forall k :: 0 <= k < |t| ==> (t + z)[k] == t[k];
    if z != [] {
      assert (t + z)[|t|] == z[0];
    }
  }

  /** strtok splits a joined line back into exactly the tokens it was made of. */
  lemma {:induction false} TokensOfJoin(ts: seq<string>, d: char)
    requires forall i :: 0 <= i < |ts| ==> |ts[i]| > 0 && d !in ts[i]
    ensures Tokens(Join(ts, d), d) == ts
    decreases |ts|
  {
    if ts == [] {
    } else {
      var t := ts[0];
      var z := if |ts| == 1 then [] else [d] + Join(ts[1..], d);
      assert Join(ts, d) == t + z;
      RunLengthOfPrefix(t, z, d);
      assert (t + z)[0] == t[0];
      assert (t + z)[..|t|] == t;
      assert (t + z)[|t|..] == z;
      if |ts| == 1 {
        assert Tokens(z, d) == [];
      } else {
        assert z[1..] == Join(ts[1..], d);
        TokensOfJoin(ts[1..], d);
        assert Tokens(z, d) == ts[1..];
      }
    }
  }

  lemma TokensSkipDelimiter(s: string, d: char, i: nat)
    requires i < |s| && s[i] == d
    ensures Tokens(s[i..], d) == Tokens(s[i + 1..], d)
  {
    assert s[i..][1..] == s[i + 1..];
  }

  lemma TokensTakeRun(s: string, d: char, i: nat, j: nat)
    requires i < j <= |s|
    requires forall k :: i <= k < j ==> s[k] != d
    requires j < |s| ==> s[j] == d
    ensures Tokens(s[i..], d) == [s[i..j]] + Tokens(s[j..], d)
  {
    var t := s[i..];
    assert t[0] == s[i];
    assert RunLength(t, d) == j - i;
    assert t[..j - i] == s[i..j];
    assert t[j - i..] == s[j..];
  }

  /** The first part of a strtok_r call: skipping the delimiters at the save
      position drops no token. */
  method SkipDelimiters(s: string, d: char, pos: nat) returns (i: nat)
    requires pos <= |s|
    ensures pos <= i <= |s| && (i < |s| ==> s[i] != d)
    ensures Tokens(s[i..], d) == Tokens(s[pos..], d)
  {
    i := pos;
    while i < |s| && s[i] == d
      invariant pos <= i <= |s|
      invariant Tokens(s[i..], d) == Tokens(s[pos..], d)
    {
      TokensSkipDelimiter(s, d, i);
      i := i + 1;
    }
  }

  /** The second part: the token runs up to the next delimiter or the end. */
  method ScanToken(s: string, d: char, i: nat) returns (j: nat)
    requires i < |s| && s[i] != d
    ensures i < j <= |s|
    ensures forall k :: i <= k < j ==> s[k] != d
    ensures j < |s| ==> s[j] == d
  {
    j := i;
    while j < |s| && s[j] != d
      invariant i <= j <= |s|
      invariant forall k :: i <= k < j ==> s[k] != d
    {
      j := j + 1;
    }
  }

  /** One strtok_r call whose save pointer is the index `pos`: it skips
      delimiters, returns the next token (None when only delimiters remain)
      and leaves the save position just past the delimiter that ended it. */
  method NextToken(s: string, d: char, pos: nat) returns (tok: Option<string>, next: nat)
    requires pos <= |s|
    ensures pos <= next <= |s|
    ensures tok.None? <==> Tokens(s[pos..], d) == []
    ensures tok.Some? ==> |tok.value| > 0 && d !in tok.value
    ensures tok.Some? ==> Tokens(s[pos..], d) == [tok.value] + Tokens(s[next..], d)
  {
    var i := SkipDelimiters(s, d, pos);
    if i == |s| {
      assert s[i..] == [];
      return None, i;
    }
    var j := ScanToken(s, d, i);
    next := if j < |s| then j + 1 else j;
    TokenAt(s, d, pos, i, j, next);
    tok := Some(s[i..j]);
  }

  /** The tokens after `pos` are the run from `i` to `j` followed by the
      tokens after `next`, when only delimiters come between `pos` and `i`. */
  lemma TokenAt(s: string, d: char, pos: nat, i: nat, j: nat, next: nat)
    requires pos <= i < j <= |s| && Tokens(s[i..], d) == Tokens(s[pos..], d)
    requires forall k :: i <= k < j ==> s[k] != d
    requires j < |s| ==> s[j] == d
    requires next == if j < |s| then j + 1 else j
    ensures |s[i..j]| > 0 && d !in s[i..j]
    ensures Tokens(s[pos..], d) == [s[i..j]] + Tokens(s[next..], d)
  {
    TokensTakeRun(s, d, i, j);
    if j < |s| {
      TokensSkipDelimiter(s, d, j);
    }
  }

  // ---------------------------------------------------------------------
  // strtol, atoi, strtod, atof
  // ---------------------------------------------------------------------

  /** First index at or after `i` whose character is not isspace. */
  function SkipSpace(s: string, i: nat): (j: nat)
    requires i <= |s|
    ensures i <= j <= |s|
    ensures forall k :: i <= k < j ==> IsSpace(s[k])
    ensures j < |s| ==> !IsSpace(s[j])
    decreases |s| - i
  {
    if i < |s| && IsSpace(s[i]) then SkipSpace(s, i + 1) else i
  }

  /** First index at or after `i` whose character is not a decimal digit. */
  function SkipDigits(s: string, i: nat): (j: nat)
    requires i <= |s|
    ensures i <= j <= |s|
    ensures forall k :: i <= k < j ==> IsDigit(s[k])
    ensures j < |s| ==> !IsDigit(s[j])
    decreases |s| - i
  {
    if i < |s| && IsDigit(s[i]) then SkipDigits(s, i + 1) else i
  }

  /** The value of a string of decimal digits. */
  function DigitsValue(ds: string): nat
    requires AllDigits(ds)
    decreases |ds|
  {
    if ds == [] then 0
    else 10 * DigitsValue(ds[..|ds| - 1]) + (ds[|ds| - 1] as int - '0' as int)
  }

  function Pow10(n: nat): (p: nat)
    ensures p >= 1
  {
    if n == 0 then 1 else 10 * Pow10(n - 1)
  }

  /** What a conversion routine returns and where it leaves its end pointer,
      as an index; the index is 0 when nothing was converted. */
  datatype Conversion<T> = Conversion(value: T, end: nat)

  /** How far the optional sign after the leading white space reaches. */
  function SignEnd(s: string, i: nat): (j: nat)
    requires i <= |s|
    ensures j == i || (j == i + 1 && i < |s| && (s[i] == '+' || s[i] == '-'))
  {
    if i < |s| && (s[i] == '+' || s[i] == '-') then i + 1 else i
  }

  /** strtol(s, &end, 10) on an unbounded integer. */
  function StrToL(s: string): (c: Conversion<int>)
    ensures c.end <= |s|
  {
    var i := SkipSpace(s, 0);
    var j := SignEnd(s, i);
    var k := SkipDigits(s, j);
    if k == j then Conversion(0, 0)
    else
      var m: int := DigitsValue(s[j..k]);
      Conversion(if j > i && s[i] == '-' then -m else m, k)
  }

  /** atoi: the longest convertible prefix, 0 when there is none. */
  function AtoI(s: string): int {
    StrToL(s).value
  }

  /** The value of the digits after a decimal point. */
  function Fraction(ds: string): (r: real)
    requires AllDigits(ds)
    ensures r >= 0.0
  {
    QuotientNonNegative(DigitsValue(ds), Pow10(|ds|));
    DigitsValue(ds) as real / Pow10(|ds|) as real
  }

  lemma QuotientNonNegative(a: nat, b: nat)
    requires b >= 1
    ensures a as real / b as real >= 0.0
  {
    var q := a as real / b as real;
    assert q * b as real == a as real;
  }

  /** strtod restricted to plain decimals: optional sign, digits, an optional
      point and digits, at least one digit in all; the value is exact. */
  function StrToD(s: string): (c: Conversion<real>)
    ensures c.end <= |s|
  {
    var i := SkipSpace(s, 0);
    var j := SignEnd(s, i);
    var k := SkipDigits(s, j);
    var dot := k < |s| && s[k] == '.';
    var f := if dot then SkipDigits(s, k + 1) else k;
    if k == j && f <= k + 1 then Conversion(0.0, 0)
    else
      var whole := DigitsValue(s[j..k]) as real;
      var frac := if dot then Fraction(s[k + 1..f]) else 0.0;
      Conversion(if j > i && s[i] == '-' then -(whole + frac) else whole + frac, f)
  }

  /** SkipDigits stops exactly at the first non-digit. */
  lemma {:induction false} SkipDigitsSpan(s: string, i: nat, j: nat)
    requires i <= j <= |s|
    requires forall k :: i <= k < j ==> IsDigit(s[k])
    requires j < |s| ==> !IsDigit(s[j])
    ensures SkipDigits(s, i) == j
    decreases j - i
  {
    if i < j {
      SkipDigitsSpan(s, i + 1, j);
    }
  }

  /** strtod of a literal `w.f` with a non-empty whole part consumes all of
      it and yields w + f / 10^|f|. */
  lemma {:induction false} StrToDOfPlainDecimal(w: string, f: string)
    requires |w| > 0 && AllDigits(w) && AllDigits(f)
    ensures StrToD(w + "." + f) ==
              Conversion(DigitsValue(w) as real + DigitsValue(f) as real / Pow10(|f|) as real,
                         |w| + 1 + |f|)
  {
    var s := w + "." + f;
    assert s[0] == w[0];
    assert SkipSpace(s, 0) == 0;
    assert SignEnd(s, 0) == 0;
    assert s[|w|] == '.';
    SkipDigitsSpan(s, 0, |w|);
    assert forall k :: |w| + 1 <= k < |s| ==> s[k] == f[k - |w| - 1];
    SkipDigitsSpan(s, |w| + 1, |s|);
    assert s[0..|w|] == w;
    assert s[|w| + 1..|s|] == f;
    assert |s| - |w| - 1 == |f|;
    var whole := DigitsValue(w) as real;
    var frac := DigitsValue(f) as real / Pow10(|f|) as real;
    assert StrToD(s) == Conversion(whole + frac, |s|);
  }

  lemma ScaleQuotient(v: real, p: real)
    requires p > 0.0
    ensures (10.0 * v) / (10.0 * p) == v / p
  {
    var q := v / p;
    assert q * p == v;
    assert q * (10.0 * p) == 10.0 * v;
  }

  /** A trailing zero after the point does not change what strtod reads. */
  lemma StrToDTrailingZero(w: string, f: string)
    requires |w| > 0 && AllDigits(w) && AllDigits(f)
    ensures StrToD(w + "." + f + "0").value == StrToD(w + "." + f).value
  {
    var f0 := f + "0";
    assert w + "." + f + "0" == w + "." + f0;
    assert f0[..|f0| - 1] == f;
    var v, p := DigitsValue(f) as real, Pow10(|f|) as real;
    assert DigitsValue(f0) as real == 10.0 * v;
    assert Pow10(|f0|) as real == 10.0 * p;
    StrToDOfPlainDecimal(w, f);
    StrToDOfPlainDecimal(w, f0);
    ScaleQuotient(v, p);
  }

  lemma {:induction false} Pow10Add(m: nat, n: nat)
    ensures Pow10(m + n) == Pow10(m) * Pow10(n)
    decreases m
  {
    if m > 0 {
      Pow10Add(m - 1, n);
    }
  }

  /** The value of digits written after other digits. */
  lemma {:induction false} DigitsValueAppend(a: string, b: string)
    requires AllDigits(a) && AllDigits(b)
    ensures AllDigits(a + b)
    ensures DigitsValue(a + b) == DigitsValue(a) * Pow10(|b|) + DigitsValue(b)
    decreases |b|
  {
    if b == [] {
      assert a + b == a;
    } else {
      var b' := b[..|b| - 1];
      assert (a + b)[..|a + b| - 1] == a + b';
      DigitsValueAppend(a, b');
      var d := b[|b| - 1] as int - '0' as int;
      assert (a + b)[|a + b| - 1] == b[|b| - 1];
      assert DigitsValue(a + b) == 10 * DigitsValue(a + b') + d;
      Regroup(DigitsValue(a), Pow10(|b'|), DigitsValue(b'), d);
    }
  }

  /** The arithmetic step of DigitsValueAppend: one more digit on the end
      multiplies the value of the digits before it by ten. */
  lemma Regroup(x: int, p: int, y: int, d: int)
    ensures 10 * (x * p + y) + d == x * (10 * p) + (10 * y + d)
  {
  }

  /** Cutting digits off the end divides the value by at least the power
      of ten they stood for, and cutting fraction digits never raises the
      fraction. */
  lemma FractionPrefix(ds: string, m: nat)
    requires AllDigits(ds) && m <= |ds|
    ensures AllDigits(ds[..m])
    ensures DigitsValue(ds[..m]) <= DigitsValue(ds)
    ensures Fraction(ds[..m]) <= Fraction(ds)
  {
    DigitsSplit(ds, m);
    FractionBound(DigitsValue(ds[..m]), DigitsValue(ds[m..]), DigitsValue(ds),
                  Pow10(m), Pow10(|ds| - m), Pow10(|ds|));
  }

  /** The value of digits split in two: the first part scaled by the
      length of the second, plus the second. */
  lemma DigitsSplit(ds: string, m: nat)
    requires AllDigits(ds) && m <= |ds|
    ensures AllDigits(ds[..m]) && AllDigits(ds[m..])
    ensures DigitsValue(ds) == DigitsValue(ds[..m]) * Pow10(|ds| - m) + DigitsValue(ds[m..])
    ensures Pow10(|ds|) == Pow10(m) * Pow10(|ds| - m)
  {
    var a, b := ds[..m], ds[m..];
    assert a + b == ds;
    DigitsValueAppend(a, b);
    Pow10Add(m, |b|);
  }

  lemma FractionBound(x: nat, r: nat, y: nat, p: nat, q: nat, pq: nat)
    requires y == x * q + r && pq == p * q && p >= 1 && q >= 1
    ensures x <= y && x as real / p as real <= y as real / pq as real
  {
    var xq := x * q;
    CastProduct(x, q, xq);
    CastProduct(p, q, pq);
    var xr, pr, qr := x as real, p as real, q as real;
    QuotientScale(xr, pr, qr);
    QuotientMono(xr * qr, y as real, pr * qr);
  }

  lemma CastProduct(a: nat, b: nat, ab: nat)
    requires ab == a * b && b >= 1
    ensures a <= ab && ab as real == a as real * b as real
  {
  }

  /** Scaling both sides of a quotient by the same amount keeps it. */
  lemma QuotientScale(v: real, p: real, q: real)
    requires p > 0.0 && q > 0.0
    ensures (v * q) / (p * q) == v / p
  {
    var u := v / p;
    assert u * p == v;
    assert u * (p * q) == v * q;
  }

  /** Dividing by a positive amount keeps order. */
  lemma QuotientMono(a: real, b: real, c: real)
    requires a <= b && c > 0.0
    ensures a / c <= b / c
  {
    var u, v := a / c, b / c;
    assert u * c == a && v * c == b;
  }

  /** A scan over a prefix stops where the scan over the whole string
      stops, or at the end of the prefix. */
  lemma {:induction false} SkipSpacePrefix(s: string, n: nat, i: nat)
    requires i <= n <= |s|
    ensures SkipSpace(s[..n], i) == if SkipSpace(s, i) <= n then SkipSpace(s, i) else n
    decreases n - i
  {
    if i < n {
      assert s[..n][i] == s[i];
      if IsSpace(s[i]) {
        SkipSpacePrefix(s, n, i + 1);
      }
    }
  }

  lemma {:induction false} SkipDigitsPrefix(s: string, n: nat, i: nat)
    requires i <= n <= |s|
    ensures SkipDigits(s[..n], i) == if SkipDigits(s, i) <= n then SkipDigits(s, i) else n
    decreases n - i
  {
    if i < n {
      assert s[..n][i] == s[i];
      if IsDigit(s[i]) {
        SkipDigitsPrefix(s, n, i + 1);
      }
    }
  }

  /** strtod of a string cut short reads at least 0 and no more than it
      reads from the whole string, when that is not negative. */
  lemma StrToDOfPrefix(s: string, n: nat)
    requires n <= |s| && StrToD(s).value >= 0.0
    ensures 0.0 <= StrToD(s[..n]).value <= StrToD(s).value
  {
    var i := SkipSpace(s, 0);
    var k := SkipDigits(s, SignEnd(s, i));
    SkipSpacePrefix(s, n, 0);
    if n <= i {
      PrefixInSpaces(s, n);
    } else if n <= SignEnd(s, i) {
      PrefixPositions(s, n);
      StrToDValue(s[..n], i, n, n, n);
    } else if n <= k {
      PrefixInWhole(s, n);
    } else {
      PrefixAfterWhole(s, n);
    }
  }

  /** A value with an optional minus sign, as strtod forms it. */
  function Signed(neg: bool, v: real): real {
    if neg then -v else v
  }

  lemma SignedBound(neg: bool, w': real, f': real, w: real, f: real)
    requires 0.0 <= w' <= w && 0.0 <= f' <= f && Signed(neg, w + f) >= 0.0
    ensures 0.0 <= Signed(neg, w' + f') <= Signed(neg, w + f)
  {
  }

  /** strtod's value, from the positions it scans to. */
  lemma StrToDValue(s: string, i: nat, j: nat, k: nat, f: nat)
    requires i == SkipSpace(s, 0) && j == SignEnd(s, i) && k == SkipDigits(s, j)
    requires f == if k < |s| && s[k] == '.' then SkipDigits(s, k + 1) else k
    ensures AllDigits(s[j..k]) && (f > k ==> AllDigits(s[k + 1..f]))
    ensures !(k == j && f <= k + 1) ==>
      StrToD(s).value ==
        Signed(j > i && s[i] == '-',
               DigitsValue(s[j..k]) as real
               + (if f > k then Fraction(s[k + 1..f]) else 0.0))
    ensures k == j && f <= k + 1 ==> StrToD(s).value == 0.0
  {
    DigitsRun(s, j);
    if f > k {
      DigitsRun(s, k + 1);
    }
    if !(k == j && f <= k + 1) {
      var whole := DigitsValue(s[j..k]) as real;
      var frac := if f > k then Fraction(s[k + 1..f]) else 0.0;
      assert StrToD(s) == Conversion(Signed(j > i && s[i] == '-', whole + frac), f);
    }
  }

  /** What SkipDigits skips is all digits. */
  lemma DigitsRun(s: string, i: nat)
    requires i <= |s|
    ensures AllDigits(s[i..SkipDigits(s, i)])
  {
    var j := SkipDigits(s, i);
    assert forall x :: 0 <= x < j - i ==> s[i..j][x] == s[i + x];
  }

  lemma PrefixInSpaces(s: string, n: nat)
    requires n <= SkipSpace(s, 0) && n <= |s|
    ensures StrToD(s[..n]).value == 0.0
  {
    var p := s[..n];
    SkipSpacePrefix(s, n, 0);
    assert SkipSpace(p, 0) == n && SignEnd(p, n) == n && SkipDigits(p, n) == n;
  }

  /** Where strtod's scans stop on a string cut after its leading white
      space: at the same places as on the whole string, or at the cut. */
  lemma PrefixPositions(s: string, n: nat)
    requires SkipSpace(s, 0) < n <= |s|
    ensures var i := SkipSpace(s, 0);
      var j := SignEnd(s, i);
      var k := SkipDigits(s, j);
      && SkipSpace(s[..n], 0) == i && SignEnd(s[..n], i) == j && j <= n
      && SkipDigits(s[..n], j) == (if k <= n then k else n)
      && (k < n ==> s[..n][k] == s[k] && s[..n][j..k] == s[j..k])
  {
    var p := s[..n];
    var i := SkipSpace(s, 0);
    var j := SignEnd(s, i);
    var k := SkipDigits(s, j);
    SkipSpacePrefix(s, n, 0);
    assert p[i] == s[i];
    SkipDigitsPrefix(s, n, j);
    if k < n {
      CutKeeps(s, n, j, k);
    }
  }

  /** A string cut at `n` still holds what s holds before `n`. */
  lemma CutKeeps(s: string, n: nat, j: nat, k: nat)
    requires j <= k < n <= |s|
    ensures s[..n][k] == s[k] && s[..n][j..k] == s[j..k]
  {
    assert forall x :: j <= x < k ==> s[..n][x] == s[x];
  }

  lemma PrefixInWhole(s: string, n: nat)
    requires SkipSpace(s, 0) < n <= |s| && StrToD(s).value >= 0.0
    requires n <= SkipDigits(s, SignEnd(s, SkipSpace(s, 0)))
    requires n > SignEnd(s, SkipSpace(s, 0))
    ensures 0.0 <= StrToD(s[..n]).value <= StrToD(s).value
  {
    var i := SkipSpace(s, 0);
    var j := SignEnd(s, i);
    var k := SkipDigits(s, j);
    var p := s[..n];
    assert SkipSpace(p, 0) == i && SignEnd(p, i) == j && SkipDigits(p, j) == n by {
      PrefixPositions(s, n);
    }
    assert AllDigits(s[j..k]) by {
      DigitsRun(s, j);
    }
    assert AllDigits(p[j..n]) && DigitsValue(p[j..n]) <= DigitsValue(s[j..k]) by {
      PrefixWhole(s, n, j, k);
    }
    WholeCut(p, s, i, j, n, k);
  }

  /** A string p that strtod reads to its end inside the whole part of s,
      with the same sign and no larger digits, converts to no more than s. */
  lemma WholeCut(p: string, s: string, i: nat, j: nat, n: nat, k: nat)
    requires i == SkipSpace(s, 0) == SkipSpace(p, 0)
    requires j == SignEnd(s, i) == SignEnd(p, i)
    requires k == SkipDigits(s, j) && n == SkipDigits(p, j) == |p| && j < n <= k
    requires i < n && p[i] == s[i]
    requires AllDigits(p[j..n]) && AllDigits(s[j..k])
    requires DigitsValue(p[j..n]) <= DigitsValue(s[j..k])
    requires StrToD(s).value >= 0.0
    ensures 0.0 <= StrToD(p).value <= StrToD(s).value
  {
    var f := if k < |s| && s[k] == '.' then SkipDigits(s, k + 1) else k;
    var frac := if f > k then Fraction(s[k + 1..f]) else 0.0;
    var neg := j > i && s[i] == '-';
    var whole' := DigitsValue(p[j..n]) as real;
    var whole := DigitsValue(s[j..k]) as real;
    ConvertedValue(p, i, j, n, n, neg, whole', 0.0);
    ConvertedValue(s, i, j, k, f, neg, whole, frac);
    SignedBound(neg, whole', 0.0, whole, frac);
  }

  lemma PrefixAfterWhole(s: string, n: nat)
    requires n <= |s| && StrToD(s).value >= 0.0
    requires SkipDigits(s, SignEnd(s, SkipSpace(s, 0))) < n
    ensures 0.0 <= StrToD(s[..n]).value <= StrToD(s).value
  {
    var p := s[..n];
    var i := SkipSpace(s, 0);
    var j := SignEnd(s, i);
    var k := SkipDigits(s, j);
    var dot := s[k] == '.';
    var f := if dot then SkipDigits(s, k + 1) else k;
    PrefixPositions(s, n);
    var f' := if dot then SkipDigits(p, k + 1) else k;
    if dot {
      FractionDigitsCut(s, n, k);
    }
    FractionCut(p, s, i, j, k, f', f);
  }

  /** Cutting s after its point k leaves fraction digits that are a
      prefix of those of s, with no larger fraction. */
  lemma FractionDigitsCut(s: string, n: nat, k: nat)
    requires k < n <= |s|
    ensures var f, f' := SkipDigits(s, k + 1), SkipDigits(s[..n], k + 1);
      && k < f' <= f && f' <= n
      && AllDigits(s[..n][k + 1..f']) && AllDigits(s[k + 1..f])
      && Fraction(s[..n][k + 1..f']) <= Fraction(s[k + 1..f])
  {
    var f, f' := SkipDigits(s, k + 1), SkipDigits(s[..n], k + 1);
    SkipDigitsPrefix(s, n, k + 1);
    assert AllDigits(s[k + 1..f]);
    FractionTail(s, n, k, f, f');
  }

  /** A string p that strtod reads like s up to the point, and whose
      fraction digits are no larger, converts to no more than s. */
  lemma FractionCut(p: string, s: string, i: nat, j: nat, k: nat, f': nat, f: nat)
    requires i == SkipSpace(s, 0) == SkipSpace(p, 0)
    requires j == SignEnd(s, i) == SignEnd(p, i)
    requires k == SkipDigits(s, j) == SkipDigits(p, j) && k < |p| && k < |s|
    requires p[i] == s[i] && p[k] == s[k] && p[j..k] == s[j..k]
    requires f == if s[k] == '.' then SkipDigits(s, k + 1) else k
    requires f' == if p[k] == '.' then SkipDigits(p, k + 1) else k
    requires f' <= f
    requires f' > k ==>
      AllDigits(p[k + 1..f']) && AllDigits(s[k + 1..f])
      && Fraction(p[k + 1..f']) <= Fraction(s[k + 1..f])
    requires StrToD(s).value >= 0.0
    ensures 0.0 <= StrToD(p).value <= StrToD(s).value
  {
    if k == j && f' <= k + 1 {
      StrToDValue(p, i, j, k, f');
    } else {
      StrToDValue(s, i, j, k, f);
      var neg := j > i && s[i] == '-';
      var whole := DigitsValue(s[j..k]) as real;
      var frac := if f > k then Fraction(s[k + 1..f]) else 0.0;
      var frac' := if f' > k then Fraction(p[k + 1..f']) else 0.0;
      ConvertedValue(s, i, j, k, f, neg, whole, frac);
      ConvertedValue(p, i, j, k, f', neg, whole, frac');
      SignedBound(neg, whole, frac', whole, frac);
    }
  }

  /** StrToDValue for a string that converts, with its sign, whole part and
      fraction given as plain values. */
  lemma ConvertedValue(s: string, i: nat, j: nat, k: nat, f: nat,
                       neg: bool, whole: real, frac: real)
    requires i == SkipSpace(s, 0) && j == SignEnd(s, i) && k == SkipDigits(s, j)
    requires f == if k < |s| && s[k] == '.' then SkipDigits(s, k + 1) else k
    requires !(k == j && f <= k + 1)
    requires neg == (j > i && s[i] == '-')
    requires AllDigits(s[j..k]) ==> whole == DigitsValue(s[j..k]) as real
    requires f > k && AllDigits(s[k + 1..f]) ==> frac == Fraction(s[k + 1..f])
    requires f <= k ==> frac == 0.0
    ensures StrToD(s).value == Signed(neg, whole + frac)
  {
    StrToDValue(s, i, j, k, f);
  }

  /** The fraction digits of a cut string are a prefix of the fraction
      digits of the whole, and their fraction is no larger. */
  lemma FractionTail(s: string, n: nat, k: nat, f: nat, f': nat)
    requires k < f' <= f <= |s| && f' <= n <= |s|
    requires AllDigits(s[k + 1..f])
    ensures AllDigits(s[..n][k + 1..f'])
    ensures Fraction(s[..n][k + 1..f']) <= Fraction(s[k + 1..f])
  {
    CutSlice(s, n, k + 1, f', f);
    FractionPrefix(s[k + 1..f], f' - k - 1);
  }

  /** A slice of a cut string is the start of the same slice of the whole. */
  lemma CutSlice(s: string, n: nat, a: nat, b: nat, c: nat)
    requires a <= b <= c <= |s| && b <= n <= |s|
    ensures s[a..c][..b - a] == s[..n][a..b]
  {
    assert forall x :: 0 <= x < b - a ==> s[a..c][..b - a][x] == s[a + x] == s[..n][a..b][x];
  }

  /** The case of StrToDOfPrefix where the cut falls in the whole part. */
  lemma PrefixWhole(s: string, n: nat, j: nat, k: nat)
    requires j <= n <= k <= |s|
    requires AllDigits(s[j..k])
    ensures AllDigits(s[..n][j..n])
    ensures DigitsValue(s[..n][j..n]) <= DigitsValue(s[j..k])
  {
    CutSlice(s, n, j, n, k);
    FractionPrefix(s[j..k], n - j);
  }

  /** atof: the value of the longest convertible prefix, 0.0 when there is none. */
  function AtoF(s: string): real {
    StrToD(s).value
  }

  /** The test of isValidInt and isValidDouble: the conversion stops at the end
      of the string or at a newline. */
  predicate StopsAtEnd(s: string, end: nat) {
    end >= |s| || s[end] == '\n'
  }

  predicate IsValidInt(s: string) {
    StopsAtEnd(s, StrToL(s).end)
  }

  predicate IsValidDouble(s: string) {
    StopsAtEnd(s, StrToD(s).end)
  }

  // ---------------------------------------------------------------------
  // strcmp
  // ---------------------------------------------------------------------

  /** strcmp on the characters' codes, reduced to its sign. */
  function StrCmp(a: string, b: string): (r: int)
    ensures r == -1 || r == 0 || r == 1
    ensures r == 0 <==> a == b
  {
    if a == [] && b == [] then 0
    else if a == [] then -1
    else if b == [] then 1
    else if a[0] < b[0] then -1
    else if a[0] > b[0] then 1
    else StrCmp(a[1..], b[1..])
  }

  lemma {:induction false} StrCmpAntisymmetric(a: string, b: string)
    ensures StrCmp(a, b) == -StrCmp(b, a)
  {
    if a != [] && b != [] && a[0] == b[0] {
      StrCmpAntisymmetric(a[1..], b[1..]);
    }
  }

  lemma {:induction false} StrCmpTransitive(a: string, b: string, c: string)
    requires StrCmp(a, b) <= 0 && StrCmp(b, c) <= 0
    ensures StrCmp(a, c) <= 0
  {
    if a != [] && b != [] && c != [] && a[0] == b[0] && b[0] == c[0] {
      StrCmpTransitive(a[1..], b[1..], c[1..]);
    }
  }

  // ---------------------------------------------------------------------
  // printf %d
  // ---------------------------------------------------------------------

  /** The digits `%d` writes for a non-negative value: no sign, no padding,
      no leading zero. */
  function NatToDecimal(n: nat): (s: string)
    ensures |s| > 0 && AllDigits(s)
    ensures |s| == 1 || s[0] != '0'
    ensures DigitsValue(s) == n
    decreases n
  {
    var last := [('0' as int + n % 10) as char];
    if n < 10 then last
    else
      var s := NatToDecimal(n / 10) + last;
      assert s[..|s| - 1] == NatToDecimal(n / 10);
      s
  }

  /** `%d` for any int. */
  function IntToDecimal(i: int): string {
    if i < 0 then "-" + NatToDecimal(-i) else NatToDecimal(i)
  }

  /** strtol reads back exactly what `%d` wrote. */
  lemma StrToLOfDecimal(n: nat)
    ensures StrToL(NatToDecimal(n)) == Conversion(n, |NatToDecimal(n)|)
  {
    var s := NatToDecimal(n);
    assert SkipSpace(s, 0) == 0;
    assert SignEnd(s, 0) == 0;
    assert SkipDigits(s, 0) == |s|;
    assert s[0..|s|] == s;
  }
}
