/**
 * The three Python built-ins the event registry relies on: `str.strip()`
 * (called on every text field before it is checked), `int()` applied to a
 * string (the feedback rating) and `str()` applied to an integer (the value
 * of every event option in the two selection menus).
 */
module PyBuiltins {

  datatype Option<T> = None | Some(value: T)

  /** Python's `str.isspace()` for a single character. */
  predicate IsSpace(c: char) {
    c == ' ' || ('\t' <= c <= '\r') || ('\U{001C}' <= c <= '\U{001F}')
    || c == '\U{0085}' || c == '\U{00A0}' || c == '\U{1680}' || ('\U{2000}' <= c <= '\U{200A}')
    || c == '\U{2028}' || c == '\U{2029}' || c == '\U{202F}' || c == '\U{205F}' || c == '\U{3000}'
  }

  /** Every character of `s` is one of those `ws` accepts. */
  predicate AllOf(s: string, ws: char -> bool) {
    forall k :: 0 <= k < |s| ==> ws(s[k])
  }

  predicate AllSpace(s: string) {
    AllOf(s, IsSpace)
  }

  /**
   * Where the characters `ws` accepts, skipped from `i` on, end: the first
   * position at or after `i` holding another character, or `|s|`.
   */
  function LeadEnd(s: string, i: nat, ws: char -> bool): (p: nat)
    requires i <= |s|
    ensures i <= p <= |s| && forall k :: i <= k < p ==> ws(s[k])
    ensures p < |s| ==> !ws(s[p])
    decreases |s| - i
  {
    if i < |s| && ws(s[i]) then LeadEnd(s, i + 1, ws) else i
  }

  /**
   * Where the characters `ws` accepts, skipped back from `j`, start: just
   * after the last position before `j` holding another character, or 0.
   */
  function TrailStart(s: string, j: nat, ws: char -> bool): (q: nat)
    requires j <= |s|
    ensures q <= j && forall k :: q <= k < j ==> ws(s[k])
    ensures 0 < q ==> !ws(s[q - 1])
    decreases j
  {
    if 0 < j && ws(s[j - 1]) then TrailStart(s, j - 1, ws) else j
  }

  /** A stretch of characters `ws` accepts, cut out. */
  lemma SliceOfRun(x: string, lo: int, hi: int, ws: char -> bool)
    requires 0 <= lo <= hi <= |x| && forall k :: lo <= k < hi ==> ws(x[k])
    ensures AllOf(x[lo..hi], ws)
  {
    assert forall m :: 0 <= m < hi - lo ==> x[lo..hi][m] == x[lo + m];
  }

  /**
   * Cutting `s` at `i` and `j` removes only whitespace and leaves a middle
   * part that neither starts nor ends with whitespace.
   */
  predicate StripBounds(s: string, i: int, j: int) {
    0 <= i <= j <= |s| && AllSpace(s[..i]) && AllSpace(s[j..])
    && (i < j ==> !IsSpace(s[i]) && !IsSpace(s[j - 1]))
  }

  /** `r` is what is left of `s` once whitespace is removed at both ends. */
  ghost predicate IsStripOf(s: string, r: string) {
    exists i, j :: StripBounds(s, i, j) && r == s[i..j]
  }

  /** Python's `str.strip()` with no argument. */
  function Strip(s: string): (r: string)
    ensures |r| <= |s|
    ensures r != [] ==> !IsSpace(r[0]) && !IsSpace(r[|r| - 1])
    ensures r == [] <==> AllSpace(s)
  {
    var i, j := LeadEnd(s, 0, IsSpace), TrailStart(s, |s|, IsSpace);
    if i < j then
      assert s[i..j][0] == s[i] && s[i..j][j - i - 1] == s[j - 1];
      s[i..j]
    else
      []
  }

  /** `Strip`'s result is the middle part of `s` that `StripBounds` describes. */
  lemma StripMeetsSpec(s: string)
    ensures StripBounds(s, LeadEnd(s, 0, IsSpace), LeadEnd(s, 0, IsSpace) + |Strip(s)|)
    ensures Strip(s) == s[LeadEnd(s, 0, IsSpace)..LeadEnd(s, 0, IsSpace) + |Strip(s)|]
  {
    var i, j := LeadEnd(s, 0, IsSpace), TrailStart(s, |s|, IsSpace);
    SliceOfRun(s, 0, i, IsSpace);
    if i < j {
      assert Strip(s) == s[i..j];
      SliceOfRun(s, j, |s|, IsSpace);
    } else {
      assert Strip(s) == [];
      assert s[i..] == [];
    }
  }

  /** Two places where the leading whitespace of `s` could end are the same place. */
  lemma SameStart(s: string, i: nat, i0: nat)
    requires i < |s| && i0 < |s|
    requires AllSpace(s[..i]) && AllSpace(s[..i0])
    requires !IsSpace(s[i]) && !IsSpace(s[i0])
    ensures i == i0
  {
  }

  /** Two places where the trailing whitespace of `s` could start are the same place. */
  lemma SameEnd(s: string, j: nat, j0: nat)
    requires 0 < j <= |s| && 0 < j0 <= |s|
    requires AllSpace(s[j..]) && AllSpace(s[j0..])
    requires !IsSpace(s[j - 1]) && !IsSpace(s[j0 - 1])
    ensures j == j0
  {
  }

  /** Whitespace-only text has only the empty middle part. */
  lemma EmptyBoundsAllSpace(s: string, i: int, j: int)
    requires StripBounds(s, i, j) && i == j
    ensures AllSpace(s)
  {
    assert s == s[..i] + s[j..];
  }

  /** Two ways of cutting whitespace off both ends of `s` leave the same text. */
  lemma StripBoundsUnique(s: string, i: int, j: int, i0: int, j0: int)
    requires StripBounds(s, i, j) && StripBounds(s, i0, j0)
    ensures s[i..j] == s[i0..j0]
  {
    if i == j {
      EmptyBoundsAllSpace(s, i, j);
    } else if i0 == j0 {
      EmptyBoundsAllSpace(s, i0, j0);
    } else {
      SameStart(s, i, i0);
      SameEnd(s, j, j0);
    }
  }

  /** Any way of cutting whitespace off both ends of `s` leaves `Strip`'s result. */
  lemma StripDeterminedByBounds(s: string, i: int, j: int)
    requires StripBounds(s, i, j)
    ensures Strip(s) == s[i..j]
  {
    StripMeetsSpec(s);
    StripBoundsUnique(s, i, j, LeadEnd(s, 0, IsSpace), LeadEnd(s, 0, IsSpace) + |Strip(s)|);
  }

  /** The description `IsStripOf` leaves exactly one candidate: `Strip`'s result. */
  lemma StripDeterminedBySpec(s: string, r: string)
    requires IsStripOf(s, r)
    ensures Strip(s) == r
  {
    var i, j :| StripBounds(s, i, j) && r == s[i..j];
    StripDeterminedByBounds(s, i, j);
  }

  /** Text that neither starts nor ends with whitespace is left alone by `Strip`. */
  lemma StripKeepsTrimmed(t: string)
    requires t != [] ==> !IsSpace(t[0]) && !IsSpace(t[|t| - 1])
    ensures Strip(t) == t
  {
    assert t == t[0..|t|] && t[..0] == [] && t[|t|..] == [];
    assert StripBounds(t, 0, |t|);
    StripDeterminedByBounds(t, 0, |t|);
  }

  /** Stripping twice is stripping once. */
  lemma StripIdempotent(s: string)
    ensures Strip(Strip(s)) == Strip(s)
  {
    StripKeepsTrimmed(Strip(s));
  }

  predicate IsDigit(c: char) {
    '0' <= c <= '9'
  }

  predicate IsDigits(d: string) {
    d != [] && forall k :: 0 <= k < |d| ==> IsDigit(d[k])
  }

  /** The value of a string of decimal digits, most significant first. */
  function DigitsValue(d: string): nat
    requires forall k :: 0 <= k < |d| ==> IsDigit(d[k])
  {
    if d == [] then 0
    else
      assert IsDigit(d[|d| - 1]);
      10 * DigitsValue(d[..|d| - 1]) + (d[|d| - 1] as int - '0' as int)
  }

  /** The literals `int()` accepts once the text is stripped: an optional sign and decimal digits. */
  predicate IsIntLiteral(t: string) {
    IsDigits(t) || (t != [] && (t[0] == '+' || t[0] == '-') && IsDigits(t[1..]))
  }

  /** `int()` on text that has already been stripped. */
  function ParseLiteral(t: string): (r: Option<int>)
    ensures r.Some? <==> IsIntLiteral(t)
  {
    if t != [] && (t[0] == '+' || t[0] == '-') then
      if IsDigits(t[1..]) then
        var v: int := DigitsValue(t[1..]);
        Some(if t[0] == '-' then -v else v)
      else
        None
    else if IsDigits(t) then
      Some(DigitsValue(t))
    else
      None
  }

  /** The four ASCII information separators U+001C..U+001F. */
  predicate IsInfoSeparator(c: char) {
    '\U{001C}' <= c <= '\U{001F}'
  }

  /**
   * The whitespace `int()` skips around a literal. CPython copies ASCII
   * characters through unchanged and then skips only ' ' and '\t'..'\r', so
   * it is `str.isspace()` less the information separators, which make
   * `int()` fail.
   */
  predicate IsIntSpace(c: char) {
    IsSpace(c) && !IsInfoSeparator(c)
  }

  predicate AllIntSpace(s: string) {
    AllOf(s, IsIntSpace)
  }

  /**
   * Python's `int()` applied to a string: whitespace around the literal is
   * skipped, then an optional sign and at least one decimal digit must make
   * up the rest; anything else raises `ValueError`, modelled as `None`.
   */
  function ParseInt(s: string): (r: Option<int>)
    ensures AllIntSpace(s) ==> r.None?
  {
    var i, j := LeadEnd(s, 0, IsIntSpace), TrailStart(s, |s|, IsIntSpace);
    if i < j then ParseLiteral(s[i..j]) else None
  }

  /** Python's `str()` on a non-negative integer: its decimal digits, no leading zero. */
  function NatToString(n: nat): (r: string)
    ensures IsDigits(r)
    ensures r[0] == '0' ==> n == 0
    decreases n
  {
    if n < 10 then [('0' as int + n) as char]
    else NatToString(n / 10) + [('0' as int + n % 10) as char]
  }

  /** Python's `str()` on an integer. */
  function IntToString(n: int): (r: string)
    ensures r != [] && !IsSpace(r[0]) && !IsSpace(r[|r| - 1])
    ensures r[0] == '-' <==> n < 0
    ensures var d := if n < 0 then r[1..] else r; IsDigits(d) && (d[0] == '0' ==> |d| == 1)
  {
    if n < 0 then "-" + NatToString(-n) else NatToString(n)
  }

  lemma {:induction false} NatToStringValue(n: nat)
    ensures DigitsValue(NatToString(n)) == n
    decreases n
  {
    if n >= 10 {
      NatToStringValue(n / 10);
      var d := NatToString(n);
      assert d[..|d| - 1] == NatToString(n / 10);
    }
  }

  /** The literal `str(n)` denotes `n`. */
  lemma ParseLiteralOfIntToString(n: int)
    ensures ParseLiteral(IntToString(n)) == Some(n)
  {
    var t := IntToString(n);
    if n < 0 {
      assert t[1..] == NatToString(-n);
      NatToStringValue(-n);
    } else {
      NatToStringValue(n);
    }
  }

  /** `x` cut at `i` and `j` and put back together. */
  lemma Regroup<T>(x: seq<T>, i: int, j: int)
    requires 0 <= i <= j <= |x|
    ensures x == x[..i] + x[i..j] + x[j..]
  {
  }

  /** Position `k` of `x` seen through the slice from `i` to `j`. */
  lemma SliceAt<T>(x: seq<T>, i: int, j: int, k: int)
    ensures 0 <= i <= k < j <= |x| ==> x[i..j][k - i] == x[k]
  {
  }

  /** The middle part of a sequence glued from three. */
  lemma MiddlePart<T>(a: seq<T>, b: seq<T>, c: seq<T>)
    ensures (a + b + c)[|a|..|a| + |b|] == b
  {
  }

  /** Moving the brackets of a sequence glued from five. */
  lemma Rebracket<T>(w1: seq<T>, a: seq<T>, t: seq<T>, b: seq<T>, w2: seq<T>)
    ensures w1 + (a + t + b) + w2 == (w1 + a) + t + (b + w2)
    ensures w1 + a + t + b + w2 == w1 + (a + (t + b)) + w2
  {
  }

  /** A slice between `lo` and `hi` cut again at `p` and `q`. */
  lemma SliceParts<T>(x: seq<T>, lo: int, p: int, q: int, hi: int)
    requires 0 <= lo <= p <= q <= hi <= |x|
    ensures x[lo..hi] == x[lo..p] + x[p..q] + x[q..hi]
  {
  }

  /** A literal starts with a sign or a digit and ends with a digit, so `int()` skips neither end. */
  lemma LiteralChars(t: string)
    requires IsIntLiteral(t)
    ensures t != [] && !IsIntSpace(t[0]) && !IsIntSpace(t[|t| - 1])
    ensures forall k :: 0 <= k < |t| ==> IsDigit(t[k]) || (k == 0 && (t[0] == '+' || t[0] == '-'))
  {
    if !IsDigits(t) {
      assert forall k :: 1 <= k < |t| ==> t[k] == t[1..][k - 1];
      assert t[|t| - 1] == t[1..][|t| - 2];
    }
  }

  /**
   * `int()` on a literal with `int()`'s whitespace around it is the value of
   * the literal.
   */
  lemma ParseIntOfParts(w1: string, t: string, w2: string)
    requires AllIntSpace(w1) && AllIntSpace(w2) && IsIntLiteral(t)
    ensures ParseInt(w1 + t + w2) == ParseLiteral(t)
  {
    var s := w1 + t + w2;
    LiteralChars(t);
    assert s[|w1|] == t[0] && s[|w1| + |t| - 1] == t[|t| - 1];
    assert LeadEnd(s, 0, IsIntSpace) == |w1|;
    assert TrailStart(s, |s|, IsIntSpace) == |w1| + |t|;
    MiddlePart(w1, t, w2);
  }

  /**
   * Every text `int()` accepts is a literal with `int()`'s whitespace around
   * it, and its value is the literal's.
   */
  lemma ParseIntSplits(s: string)
    requires ParseInt(s).Some?
    ensures var i, j := LeadEnd(s, 0, IsIntSpace), TrailStart(s, |s|, IsIntSpace);
            i < j && AllIntSpace(s[..i]) && AllIntSpace(s[j..])
            && IsIntLiteral(s[i..j]) && ParseInt(s) == ParseLiteral(s[i..j])
  {
    ParseIntLiteralPart(s);
    IntLeadPart(s);
    IntTrailPart(s);
  }

  /** The text between what `int()` skips is the literal it evaluates. */
  lemma ParseIntLiteralPart(s: string)
    requires ParseInt(s).Some?
    ensures var i, j := LeadEnd(s, 0, IsIntSpace), TrailStart(s, |s|, IsIntSpace);
            i < j && IsIntLiteral(s[i..j]) && ParseInt(s) == ParseLiteral(s[i..j])
  {
    var i, j := LeadEnd(s, 0, IsIntSpace), TrailStart(s, |s|, IsIntSpace);
    var t := s[i..j];
    assert i < j;
    assert ParseInt(s) == ParseLiteral(t);
    assert ParseLiteral(t).Some?;
  }

  /** What `int()` skips at the start is its whitespace. */
  lemma IntLeadPart(s: string)
    ensures AllIntSpace(s[..LeadEnd(s, 0, IsIntSpace)])
  {
    SliceOfRun(s, 0, LeadEnd(s, 0, IsIntSpace), IsIntSpace);
  }

  /** What `int()` skips at the end is its whitespace. */
  lemma IntTrailPart(s: string)
    ensures AllIntSpace(s[TrailStart(s, |s|, IsIntSpace)..])
  {
    SliceOfRun(s, TrailStart(s, |s|, IsIntSpace), |s|, IsIntSpace);
  }

  /** An information separator anywhere in the text makes `int()` fail. */
  lemma ParseIntRefusesSeparators(s: string, k: int)
    requires 0 <= k < |s| && IsInfoSeparator(s[k])
    ensures ParseInt(s).None?
  {
    if ParseInt(s).Some? {
      ParseIntLiteralPart(s);
      var i, j := LeadEnd(s, 0, IsIntSpace), TrailStart(s, |s|, IsIntSpace);
      LiteralChars(s[i..j]);
      SliceAt(s, i, j, k);
    }
  }

  /** Whitespace around text `int()` accepts does not change its value. */
  lemma ParseIntWidens(w1: string, s: string, w2: string)
    requires AllIntSpace(w1) && AllIntSpace(w2) && ParseInt(s).Some?
    ensures ParseInt(w1 + s + w2) == ParseInt(s)
  {
    ParseIntSplits(s);
    var i, j := LeadEnd(s, 0, IsIntSpace), TrailStart(s, |s|, IsIntSpace);
    var a, t, b := s[..i], s[i..j], s[j..];
    Regroup(s, i, j);
    Rebracket(w1, a, t, b, w2);
    ParseIntOfParts(w1 + a, t, b + w2);
  }

  /** The literal `int()` finds in `w1 + s + w2` lies inside `s`. */
  lemma LiteralWithin(w1: string, s: string, w2: string)
    requires AllIntSpace(w1) && AllIntSpace(w2)
    requires ParseInt(w1 + s + w2).Some?
    ensures var u := w1 + s + w2;
            |w1| <= LeadEnd(u, 0, IsIntSpace) < TrailStart(u, |u|, IsIntSpace) <= |w1| + |s|
  {
    var u := w1 + s + w2;
    ParseIntLiteralPart(u);
  }

  /** If `int()` accepts `w1 + s + w2`, it accepts `s`. */
  lemma ParseIntNarrows(w1: string, s: string, w2: string)
    requires AllIntSpace(w1) && AllIntSpace(w2)
    requires ParseInt(w1 + s + w2).Some?
    ensures ParseInt(s).Some?
  {
    LiteralWithin(w1, s, w2);
    MiddlePart(w1, s, w2);
    ParseIntOfSlice(w1 + s + w2, |w1|, |w1| + |s|);
  }

  /** A slice of accepted text that keeps the whole literal is accepted too. */
  lemma ParseIntOfSlice(u: string, lo: int, hi: int)
    requires ParseInt(u).Some?
    requires 0 <= lo <= LeadEnd(u, 0, IsIntSpace) && TrailStart(u, |u|, IsIntSpace) <= hi <= |u|
    ensures ParseInt(u[lo..hi]).Some?
  {
    ParseIntLiteralPart(u);
    var p, q := LeadEnd(u, 0, IsIntSpace), TrailStart(u, |u|, IsIntSpace);
    SliceOfRun(u, lo, p, IsIntSpace);
    SliceOfRun(u, q, hi, IsIntSpace);
    SliceParts(u, lo, p, q, hi);
    ParseIntOfParts(u[lo..p], u[p..q], u[q..hi]);
  }

  /** `int()` ignores any of its whitespace added around the text. */
  lemma ParseIntIgnoresSurroundingSpace(w1: string, s: string, w2: string)
    requires AllIntSpace(w1) && AllIntSpace(w2)
    ensures ParseInt(w1 + s + w2) == ParseInt(s)
  {
    if ParseInt(s).Some? {
      ParseIntWidens(w1, s, w2);
    } else if ParseInt(w1 + s + w2).Some? {
      ParseIntNarrows(w1, s, w2);
    }
  }

  /** `n` zero digits. */
  function Zeros(n: nat): (z: string)
    ensures |z| == n && forall k :: 0 <= k < n ==> z[k] == '0'
  {
    seq(n, k => '0')
  }

  /** Leading zeros do not change the value of a string of digits. */
  lemma {:induction false} DigitsValueZeros(z: nat, d: string)
    requires forall k :: 0 <= k < |d| ==> IsDigit(d[k])
    ensures DigitsValue(Zeros(z) + d) == DigitsValue(d)
    decreases |d|, z
  {
    if d == [] {
      if z > 0 {
        assert (Zeros(z) + d)[..z - 1] == Zeros(z - 1) + [];
        DigitsValueZeros(z - 1, d);
      }
    } else {
      var e := d[..|d| - 1];
      assert (Zeros(z) + d)[..|Zeros(z) + d| - 1] == Zeros(z) + e;
      DigitsValueZeros(z, e);
    }
  }

  /** A sign followed by digits is a literal denoting the digits' value, negated after '-'. */
  lemma SignedLiteral(sign: string, d: string)
    requires IsDigits(d)
    requires sign == "" || sign == "+" || sign == "-"
    ensures IsIntLiteral(sign + d)
    ensures ParseLiteral(sign + d) == Some(if sign == "-" then -(DigitsValue(d) as int) else DigitsValue(d) as int)
  {
    var t := sign + d;
    if sign == "" {
      assert t == d;
      assert d[0] != '+' && d[0] != '-' by {
        assert IsDigit(d[0]);
      }
    } else {
      assert t[0] == sign[0] && t[1..] == d;
    }
  }

  /**
   * The value `int()` gives a literal written with a sign, any number of
   * leading zeros and `int()`'s whitespace around it.
   */
  lemma ParseIntValue(w1: string, sign: string, z: nat, n: nat, w2: string)
    requires AllIntSpace(w1) && AllIntSpace(w2)
    requires sign == "" || sign == "+" || sign == "-"
    ensures ParseInt(w1 + sign + Zeros(z) + NatToString(n) + w2) == Some(if sign == "-" then -(n as int) else n as int)
  {
    var d := Zeros(z) + NatToString(n);
    PaddedDigits(z, n);
    SignedLiteral(sign, d);
    Rebracket(w1, sign, Zeros(z), NatToString(n), w2);
    ParseIntOfParts(w1, sign + d, w2);
  }

  /** `str(n)` after any number of zeros is a string of digits worth `n`. */
  lemma PaddedDigits(z: nat, n: nat)
    ensures IsDigits(Zeros(z) + NatToString(n))
    ensures DigitsValue(Zeros(z) + NatToString(n)) == n
  {
    DigitsValueZeros(z, NatToString(n));
    NatToStringValue(n);
  }

  /** The number of leading zeros in a string of digits, keeping at least one digit. */
  function LeadingZeros(d: string): (z: nat)
    requires IsDigits(d)
    ensures z < |d|
  {
    if |d| > 1 && d[0] == '0' then 1 + LeadingZeros(d[1..]) else 0
  }

  /** Digits that do not start with a zero have a positive value. */
  lemma {:induction false} DigitsPositive(d: string)
    requires IsDigits(d) && d[0] != '0'
    ensures DigitsValue(d) >= 1
    decreases |d|
  {
    if |d| > 1 {
      DigitsPositive(d[..|d| - 1]);
    }
  }

  /** Digits without a redundant leading zero are what `str()` prints for their value. */
  lemma {:induction false} CanonicalDigits(d: string)
    requires IsDigits(d) && (|d| == 1 || d[0] != '0')
    ensures NatToString(DigitsValue(d)) == d
    decreases |d|
  {
    if |d| > 1 {
      var e := d[..|d| - 1];
      CanonicalDigits(e);
      DigitsPositive(e);
    }
  }

  /** Every string of digits is some leading zeros followed by `str()` of its value. */
  lemma {:induction false} DigitsShape(d: string)
    requires IsDigits(d)
    ensures d == Zeros(LeadingZeros(d)) + NatToString(DigitsValue(d))
    decreases |d|
  {
    if |d| > 1 && d[0] == '0' {
      var e := d[1..];
      DigitsShape(e);
      DigitsValueZeros(1, e);
      assert d == Zeros(1) + e;
      assert Zeros(LeadingZeros(d)) == Zeros(1) + Zeros(LeadingZeros(e));
    } else {
      CanonicalDigits(d);
    }
  }

  /**
   * Every text `int()` accepts is `int()`'s whitespace, an optional sign,
   * some zeros, `str()` of a natural number `n` and `int()`'s whitespace
   * again; its value is `n`, negated after '-'.
   */
  lemma ParseIntShape(s: string) returns (w1: string, sign: string, z: nat, n: nat, w2: string)
    requires ParseInt(s).Some?
    ensures AllIntSpace(w1) && AllIntSpace(w2) && (sign == "" || sign == "+" || sign == "-")
    ensures s == w1 + sign + Zeros(z) + NatToString(n) + w2
    ensures ParseInt(s) == Some(if sign == "-" then -(n as int) else n as int)
  {
    ParseIntSplits(s);
    var i, j := LeadEnd(s, 0, IsIntSpace), TrailStart(s, |s|, IsIntSpace);
    var d: string;
    sign, d := LiteralParts(s[i..j]);
    DigitsShape(d);
    w1, z, n, w2 := s[..i], LeadingZeros(d), DigitsValue(d), s[j..];
    Regroup(s, i, j);
    Rebracket(w1, sign, Zeros(z), NatToString(n), w2);
    ParseIntValue(w1, sign, z, n, w2);
  }

  /** A literal is its sign, if any, followed by its digits. */
  lemma LiteralParts(t: string) returns (sign: string, d: string)
    requires IsIntLiteral(t)
    ensures (sign == "" || sign == "+" || sign == "-") && IsDigits(d) && t == sign + d
  {
    if t[0] == '+' || t[0] == '-' {
      sign, d := t[..1], t[1..];
      assert sign == "+" || sign == "-";
    } else {
      sign, d := "", t;
    }
  }

  /** `int(str(n)) == n` for every integer `n`. */
  lemma ParseIntRoundTrip(n: int)
    ensures ParseInt(IntToString(n)) == Some(n)
  {
    var t := IntToString(n);
    ParseLiteralOfIntToString(n);
    assert [] + t + [] == t;
    ParseIntOfParts([], t, []);
  }

  /** Distinct integers print differently. */
  lemma IntToStringInjective(a: int, b: int)
    requires IntToString(a) == IntToString(b)
    ensures a == b
  {
    ParseIntRoundTrip(a);
    ParseIntRoundTrip(b);
  }
}
