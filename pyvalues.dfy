/** Python values and the string and integer primitives that the admin tool's
    validators use: truthiness, `str()`, `strip()`, `lower()`, `title()`,
    `isdigit()`, `int()`, `f"{n:04d}"`, `replace`, `startswith`, `in`, slices
    and the `<` comparison. Character classes and case mappings are exact for
    code points below 256. */
module PyValues {

  datatype Option<T> = None | Some(value: T)

  /** The outcome of Python code that may raise. Which exception it is does
      not matter to any caller in the model, so it is not recorded. */
  datatype Checked<T> = Done(value: T) | Raised

  /** A spreadsheet cell or form value: `str`, `int` or `None`. */
  datatype Value = Str(s: string) | Int(n: int) | Null

  /** Python truthiness (`if v:`). */
  predicate Truthy(v: Value) {
    match v
    case Str(s) => s != ""
    case Int(n) => n != 0
    case Null => false
  }

  // ----- character classes -----

  /** `str.isspace()` for one character. */
  predicate IsSpace(c: char) {
    c == ' ' || ('\t' <= c <= '\r') || ('\U{1C}' <= c <= '\U{1F}') || c == '\U{85}' || c == '\U{A0}'
  }

  predicate IsAsciiDigit(c: char) { '0' <= c <= '9' }

  /** `str.isdigit()` for one character: the decimal digits and the
      superscripts one, two and three. */
  predicate IsDigitChar(c: char) {
    IsAsciiDigit(c) || c == '\U{B9}' || c == '\U{B2}' || c == '\U{B3}'
  }

  predicate IsAsciiLetter(c: char) { 'a' <= c <= 'z' || 'A' <= c <= 'Z' }

  predicate IsUpperLatin(c: char) { 'A' <= c <= 'Z' || ('\U{C0}' <= c <= '\U{DE}' && c != '\U{D7}') }

  predicate IsLowerLatin(c: char) { 'a' <= c <= 'z' || ('\U{E0}' <= c <= '\U{FE}' && c != '\U{F7}') }

  /** Characters that `str.title()` treats as cased. */
  predicate IsCased(c: char) {
    IsUpperLatin(c) || IsLowerLatin(c) || c == '\U{AA}' || c == '\U{B5}' || c == '\U{BA}' || c == '\U{DF}' || c == '\U{FF}'
  }

  function LowerChar(c: char): char {
    if IsUpperLatin(c) then (c as int + 32) as char else c
  }

  function UpperChar(c: char): char {
    if IsLowerLatin(c) then (c as int - 32) as char else c
  }

  /** `str.lower()`. */
  function Lower(s: string): (r: string)
    ensures |r| == |s|
  {
    seq(|s|, i requires 0 <= i < |s| => LowerChar(s[i]))
  }

  /** `str.title()`: a cased character is upper-cased when the character
      before it is not cased, and lower-cased otherwise. */
  function Title(s: string): (r: string)
    ensures |r| == |s|
  {
    seq(|s|, i requires 0 <= i < |s| =>
      if i > 0 && IsCased(s[i - 1]) then LowerChar(s[i]) else UpperChar(s[i]))
  }

  /** `s.replace(a, b)` for single characters. */
  function ReplaceChar(s: string, a: char, b: char): (r: string)
    ensures |r| == |s|
  {
    seq(|s|, i requires 0 <= i < |s| => if s[i] == a then b else s[i])
  }

  // ----- strip -----

  /** The first position at or after `i` that does not hold whitespace. */
  function LeadIndex(s: string, i: nat): (k: nat)
    requires i <= |s|
    ensures i <= k <= |s|
    decreases |s| - i
  {
    if i < |s| && IsSpace(s[i]) then LeadIndex(s, i + 1) else i
  }

  /** The end of `s[lo..j]` once its trailing whitespace is removed. */
  function TrailIndex(s: string, lo: nat, j: nat): (k: nat)
    requires lo <= j <= |s|
    ensures lo <= k <= j
    decreases j
  {
    if j > lo && IsSpace(s[j - 1]) then TrailIndex(s, lo, j - 1) else j
  }

  /** `str.strip()`. */
  function Strip(s: string): string {
    var i := LeadIndex(s, 0);
    s[i..TrailIndex(s, i, |s|)]
  }

  predicate AllSpace(s: string) {
    forall i :: 0 <= i < |s| ==> IsSpace(s[i])
  }

  lemma {:induction false} LeadIndexShape(s: string, i: nat)
    requires i <= |s|
    ensures forall k :: i <= k < LeadIndex(s, i) ==> IsSpace(s[k])
    ensures LeadIndex(s, i) < |s| ==> !IsSpace(s[LeadIndex(s, i)])
    decreases |s| - i
  {
    if i < |s| && IsSpace(s[i]) {
      LeadIndexShape(s, i + 1);
    }
  }

  lemma {:induction false} TrailIndexShape(s: string, lo: nat, j: nat)
    requires lo <= j <= |s|
    ensures forall k :: TrailIndex(s, lo, j) <= k < j ==> IsSpace(s[k])
    ensures TrailIndex(s, lo, j) > lo ==> !IsSpace(s[TrailIndex(s, lo, j) - 1])
    decreases j
  {
    if j > lo && IsSpace(s[j - 1]) {
      TrailIndexShape(s, lo, j - 1);
    }
  }

  /** `strip()` returns the infix `s[i..j]` left after removing the leading
      and the trailing whitespace, and nothing more. */
  lemma StripShape(s: string) returns (i: nat, j: nat)
    ensures i <= j <= |s| && Strip(s) == s[i..j]
    ensures AllSpace(s[..i]) && AllSpace(s[j..])
    ensures Strip(s) != [] ==> !IsSpace(s[i]) && !IsSpace(s[j - 1])
  {
    i := LeadIndex(s, 0);
    j := TrailIndex(s, i, |s|);
    LeadIndexShape(s, 0);
    TrailIndexShape(s, i, |s|);
    assert forall k :: 0 <= k < i ==> s[..i][k] == s[k];
    assert forall k :: 0 <= k < |s| - j ==> s[j..][k] == s[j + k];
  }

  /** A string is blank after `strip()` exactly when every character of it
      is whitespace. */
  lemma StripEmptyIff(s: string)
    ensures Strip(s) == [] <==> AllSpace(s)
  {
    var i, j := StripShape(s);
    if Strip(s) == [] {
      forall k | 0 <= k < |s| ensures IsSpace(s[k]) {
        if k < i { assert s[k] == s[..i][k]; } else { assert s[k] == s[j..][k - j]; }
      }
    } else {
      assert i < |s| && !IsSpace(s[i]);
    }
  }

  lemma {:induction false} LeadIndexOfPadded(s: string, n: nat, i: nat)
    requires i <= n < |s| && !IsSpace(s[n])
    requires forall k :: i <= k < n ==> IsSpace(s[k])
    ensures LeadIndex(s, i) == n
    decreases n - i
  {
    if i < n {
      LeadIndexOfPadded(s, n, i + 1);
    }
  }

  lemma {:induction false} TrailIndexOfPadded(s: string, lo: nat, n: nat, j: nat)
    requires lo < n <= j <= |s| && !IsSpace(s[n - 1])
    requires forall k :: n <= k < j ==> IsSpace(s[k])
    ensures TrailIndex(s, lo, j) == n
    decreases j
  {
    if j > n {
      TrailIndexOfPadded(s, lo, n, j - 1);
    }
  }

  /** Surrounding whitespace is exactly what `strip()` removes. */
  lemma StripOfPadded(pre: string, t: string, post: string)
    requires AllSpace(pre) && AllSpace(post)
    requires t != [] && !IsSpace(t[0]) && !IsSpace(t[|t| - 1])
    ensures Strip(pre + t + post) == t
  {
    var s := pre + t + post;
    var n := |pre| + |t|;
    assert forall k :: 0 <= k < |pre| ==> s[k] == pre[k];
    assert forall k :: n <= k < |s| ==> s[k] == post[k - n];
    assert s[|pre|] == t[0] && s[n - 1] == t[|t| - 1];
    LeadIndexOfPadded(s, |pre|, 0);
    TrailIndexOfPadded(s, |pre|, n, |s|);
    assert s[|pre|..n] == t;
  }

  // ----- str() of a value -----

  function DigitChar(d: int): char
    requires 0 <= d < 10
  {
    ('0' as int + d) as char
  }

  function DigitOf(c: char): int
    requires IsAsciiDigit(c)
  {
    c as int - '0' as int
  }

  /** Decimal digits of a natural number, most significant first. */
  function NatToString(n: nat): (r: string)
    ensures |r| > 0 && forall i :: 0 <= i < |r| ==> IsAsciiDigit(r[i])
  {
    if n < 10 then [DigitChar(n)] else NatToString(n / 10) + [DigitChar(n % 10)]
  }

  function IntToString(n: int): string {
    if n < 0 then "-" + NatToString(-n) else NatToString(n)
  }

  /** `str(v)`. */
  function Repr(v: Value): string {
    match v
    case Str(s) => s
    case Int(n) => IntToString(n)
    case Null => "None"
  }

  function Zeros(k: nat): (r: string)
    ensures |r| == k && forall i :: 0 <= i < k ==> r[i] == '0'
  {
    seq(k, _ => '0')
  }

  /** Left-pads with zeros to `width` characters. */
  function ZeroPad(s: string, width: nat): (r: string)
    ensures |r| >= width && |r| >= |s|
  {
    if |s| >= width then s else Zeros(width - |s|) + s
  }

  /** `f"{n:04d}"`: at least four characters, zeros after the sign. */
  function Format04(n: int): (r: string)
    ensures |r| >= 4
  {
    if n < 0 then "-" + ZeroPad(NatToString(-n), 3) else ZeroPad(NatToString(n), 4)
  }

  // ----- int() -----

  /** The body of a base-10 integer literal as `int()` accepts it: ASCII
      digits, where single underscores may separate two digits. */
  predicate IsDigitRun(s: string) {
    && s != []
    && (forall i :: 0 <= i < |s| ==> IsAsciiDigit(s[i]) || s[i] == '_')
    && (forall i :: 0 <= i < |s| && s[i] == '_' ==>
          0 < i < |s| - 1 && IsAsciiDigit(s[i - 1]) && IsAsciiDigit(s[i + 1]))
  }

  /** The number written by digits and underscores; underscores are skipped. */
  function DigitsValue(s: string): nat
    requires forall i :: 0 <= i < |s| ==> IsAsciiDigit(s[i]) || s[i] == '_'
  {
    if s == [] then 0
    else if s[|s| - 1] == '_' then DigitsValue(s[..|s| - 1])
    else DigitsValue(s[..|s| - 1]) * 10 + DigitOf(s[|s| - 1])
  }

  /** `int(s)`, or None where it raises `ValueError`. */
  function ParseInt(s: string): Option<int> {
    var t := Strip(s);
    if t != [] && (t[0] == '+' || t[0] == '-') then
      if IsDigitRun(t[1..]) then
        var v: int := DigitsValue(t[1..]);
        Some(if t[0] == '-' then -v else v)
      else None
    else if IsDigitRun(t) then Some(DigitsValue(t))
    else None
  }

  lemma {:induction false} DigitsValueOfNatToString(n: nat)
    ensures DigitsValue(NatToString(n)) == n
  {
    var r := NatToString(n);
    if n >= 10 {
      DigitsValueOfNatToString(n / 10);
      assert r[..|r| - 1] == NatToString(n / 10);
    }
  }

  lemma {:induction false} DigitsValueLeadingZeros(k: nat, d: string)
    requires forall i :: 0 <= i < |d| ==> IsAsciiDigit(d[i])
    ensures forall i :: 0 <= i < |Zeros(k) + d| ==> IsAsciiDigit((Zeros(k) + d)[i])
    ensures DigitsValue(Zeros(k) + d) == DigitsValue(d)
    decreases |d|
  {
    var z := Zeros(k) + d;
    if d == [] {
      ZerosValue(k);
      assert z == Zeros(k);
    } else {
      var d' := d[..|d| - 1];
      DigitsValueLeadingZeros(k, d');
      assert z[..|z| - 1] == Zeros(k) + d';
    }
  }

  lemma {:induction false} ZerosValue(k: nat)
    ensures DigitsValue(Zeros(k)) == 0
  {
    if k > 0 {
      assert Zeros(k)[..k - 1] == Zeros(k - 1);
      ZerosValue(k - 1);
    }
  }

  lemma ZeroPadDigits(n: nat, width: nat)
    ensures var p := ZeroPad(NatToString(n), width);
      IsDigitRun(p) && (forall i :: 0 <= i < |p| ==> IsAsciiDigit(p[i])) && DigitsValue(p) == n
  {
    var d := NatToString(n);
    DigitsValueOfNatToString(n);
    if |d| < width {
      DigitsValueLeadingZeros(width - |d|, d);
    }
  }

  lemma StripOfSignedDigits(f: string)
    requires f != [] && forall i :: 0 <= i < |f| ==> IsAsciiDigit(f[i]) || f[i] == '-'
    ensures Strip(f) == f
  {
    StripOfPadded([], f, []);
    assert [] + f + [] == f;
  }

  /** `int(f"{n:04d}") == n`: the zero-padded rendering parses back. */
  lemma ParseFormat04(n: int)
    ensures ParseInt(Format04(n)) == Some(n)
  {
    if n < 0 {
      ParseFormat04Negative(n);
    } else {
      ParseFormat04NonNegative(n);
    }
  }

  lemma ParseFormat04Negative(n: int)
    requires n < 0
    ensures ParseInt(Format04(n)) == Some(n)
  {
    var m: nat := -n;
    var body := ZeroPad(NatToString(m), 3);
    ZeroPadDigits(m, 3);
    ParseNegated(body);
    assert ParseInt("-" + body) == Some(n);
    assert Format04(n) == "-" + body;
  }

  /** A minus sign before a digit run parses to the negated value. */
  lemma ParseNegated(body: string)
    requires IsDigitRun(body) && IsAsciiDigit(body[|body| - 1])
    ensures ParseInt("-" + body) == Some(-(DigitsValue(body) as int))
  {
    var f := "-" + body;
    StripOfDash(body);
    assert f[0] == '-' && f[1..] == body;
    ParseOfNegative(f);
    assert ParseInt(f) == Some(-(DigitsValue(body) as int));
  }

  lemma StripOfDash(body: string)
    requires body != [] && IsAsciiDigit(body[|body| - 1])
    ensures Strip("-" + body) == "-" + body
  {
    var f := "-" + body;
    var none: string := [];
    assert f[|f| - 1] == body[|body| - 1];
    StripOfPadded(none, f, none);
    assert none + f + none == f;
  }

  /** A string with no surrounding spaces, a minus sign and a digit run
      parses to the negated value. */
  lemma ParseOfNegative(f: string)
    requires Strip(f) == f && f != [] && f[0] == '-' && IsDigitRun(f[1..])
    ensures ParseInt(f) == Some(-(DigitsValue(f[1..]) as int))
  {
  }

  lemma ParseFormat04NonNegative(n: int)
    requires n >= 0
    ensures ParseInt(Format04(n)) == Some(n)
  {
    var f := Format04(n);
    ZeroPadDigits(n, 4);
    StripOfSignedDigits(f);
    assert f[0] != '+' && f[0] != '-';
  }

  // ----- searching and replacing -----

  /** `s.startswith(p)`. */
  predicate StartsWith(s: string, p: string) {
    |p| <= |s| && s[..|p|] == p
  }

  /** `sub` occurs in `s` starting at position `i`. */
  predicate OccursAt(s: string, sub: string, i: int) {
    0 <= i <= |s| - |sub| && forall k :: 0 <= k < |sub| ==> s[i + k] == sub[k]
  }

  /** `sub in s`. */
  predicate Contains(s: string, sub: string) {
    exists i | 0 <= i <= |s| - |sub| :: OccursAt(s, sub, i)
  }

  /** `s.replace(p, '')`: removes every occurrence of `p`, scanning left to
      right without overlaps; an empty `p` leaves `s` as it is. */
  function RemoveAll(s: string, p: string): string
    decreases |s|
  {
    if p == [] || |s| < |p| then s
    else if s[..|p|] == p then RemoveAll(s[|p|..], p)
    else [s[0]] + RemoveAll(s[1..], p)
  }

  lemma {:induction false} RemoveAllAbsent(s: string, p: string)
    requires p != [] && forall i :: 0 <= i < |s| ==> s[i] != p[0]
    ensures RemoveAll(s, p) == s
    decreases |s|
  {
    if |s| >= |p| {
      assert s[..|p|][0] == s[0];
      RemoveAllAbsent(s[1..], p);
    }
  }

  // ----- slicing and comparison -----

  /** A slice bound as Python normalises it for a sequence of length `n`. */
  function SliceBound(k: int, n: nat): (r: nat)
    ensures r <= n
  {
    if k < 0 then (if k + n < 0 then 0 else k + n) else if k > n then n else k
  }

  /** `s[i:j]` with Python's treatment of negative and out-of-range bounds. */
  function PySlice<T>(s: seq<T>, i: int, j: int): (r: seq<T>)
    ensures |r| <= |s|
  {
    var lo, hi := SliceBound(i, |s|), SliceBound(j, |s|);
    if lo < hi then s[lo..hi] else []
  }

  lemma PySliceNonNegative<T>(s: seq<T>, i: nat, j: nat)
    ensures PySlice(s, i, j) == if i < j && i < |s| then s[i..if j > |s| then |s| else j] else []
  {
  }

  /** A slice `s[i:i + len]` holds at most `len` consecutive elements of `s`. */
  lemma PySliceWindow<T>(s: seq<T>, i: int, len: nat) returns (lo: nat, r: seq<T>)
    ensures lo == SliceBound(i, |s|) && r == PySlice(s, i, i + len) && |r| <= len
    ensures forall k :: 0 <= k < |r| ==> lo + k < |s| && r[k] == s[lo + k]
  {
    lo := SliceBound(i, |s|);
    r := PySlice(s, i, i + len);
  }

  /** From a non-negative start, `s[i:i + len]` is the whole window of `s`
      that starts at the clamped `i` and holds up to `len` elements. */
  lemma PySliceFrom<T>(s: seq<T>, i: int, len: nat)
    requires i >= 0
    ensures var lo := SliceBound(i, |s|);
      PySlice(s, i, i + len) == s[lo..if lo + len > |s| then |s| else lo + len]
  {
  }

  /** `s[i:i + len]` is consecutive elements of `s` from the clamped start,
      and from a non-negative start the whole window of up to `len` of them. */
  lemma PySliceExact<T>(s: seq<T>, i: int, len: nat)
    ensures var lo, r := SliceBound(i, |s|), PySlice(s, i, i + len);
      && (forall k :: 0 <= k < |r| ==> lo + k < |s| && r[k] == s[lo + k])
      && (i >= 0 ==> r == s[lo..if lo + len > |s| then |s| else lo + len])
  {
    var lo, r := PySliceWindow(s, i, len);
    if i >= 0 {
      PySliceFrom(s, i, len);
    }
  }

  /** Lexicographic `<` on strings, by code point. */
  predicate StrLess(a: string, b: string) {
    if a == [] then b != []
    else if b == [] then false
    else if a[0] != b[0] then a[0] < b[0]
    else StrLess(a[1..], b[1..])
  }

  lemma {:induction false} StrLessIrreflexive(a: string)
    ensures !StrLess(a, a)
  {
    if a != [] { StrLessIrreflexive(a[1..]); }
  }

  /** `a < b` between two values: strings compare lexicographically, ints
      numerically; any other pair raises `TypeError`. */
  function PyLess(a: Value, b: Value): (r: Checked<bool>)
    ensures r.Raised? <==> !((a.Str? && b.Str?) || (a.Int? && b.Int?))
  {
    if a.Str? && b.Str? then Done(StrLess(a.s, b.s))
    else if a.Int? && b.Int? then Done(a.n < b.n)
    else Raised
  }

  /** No value of a comparable kind is below itself. */
  lemma PyLessIrreflexive(a: Value)
    requires a.Str? || a.Int?
    ensures PyLess(a, a) == Done(false)
  {
    if a.Str? { StrLessIrreflexive(a.s); }
  }
}
