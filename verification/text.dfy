/**
  Character classes, stripping and number formatting shared by the JavaScript
  front end and the Python tools. Strings are sequences of Unicode code points.
 */
module Text {
  import opened Wrappers
  import opened Seqs

  /** Python's `str.isspace()`, which is also what `\s` matches in a `str` regular expression. */
  predicate IsPySpace(c: char) {
    || ('\t' <= c <= '\r')
    || ('\U{1C}' <= c <= '\U{1F}')
    || c == ' ' || c == '\U{85}' || c == '\U{A0}' || c == '\U{1680}'
    || ('\U{2000}' <= c <= '\U{200A}')
    || c == '\U{2028}' || c == '\U{2029}' || c == '\U{202F}' || c == '\U{205F}' || c == '\U{3000}'
  }

  /** The characters JavaScript's `String.prototype.trim` removes (WhiteSpace and LineTerminator). */
  predicate IsJsSpace(c: char) {
    || ('\t' <= c <= '\r')
    || c == ' ' || c == '\U{A0}' || c == '\U{1680}'
    || ('\U{2000}' <= c <= '\U{200A}')
    || c == '\U{2028}' || c == '\U{2029}' || c == '\U{202F}' || c == '\U{205F}' || c == '\U{3000}' || c == '\U{FEFF}'
  }

  predicate IsDigit(c: char) {
    '0' <= c <= '9'
  }

  /** The first index at or after `i` whose character is not a space, or `|s|`. */
  function SkipSpace(s: string, i: nat, space: char -> bool): (j: nat)
    requires i <= |s|
    ensures i <= j <= |s|
    ensures forall k :: i <= k < j ==> space(s[k])
    ensures j == |s| || !space(s[j])
    decreases |s| - i
  {
    if i == |s| || !space(s[i]) then i else SkipSpace(s, i + 1, space)
  }

  /** The smallest `j >= lo` such that `s[j..]` is all spaces. */
  function ContentEnd(s: string, lo: nat, space: char -> bool): (j: nat)
    requires lo <= |s|
    ensures lo <= j <= |s|
    ensures forall k :: j <= k < |s| ==> space(s[k])
    ensures j == lo || !space(s[j - 1])
    decreases |s| - lo
  {
    if |s| == lo then lo
    else if space(s[|s| - 1]) then ContentEnd(s[..|s| - 1], lo, space)
    else |s|
  }

  /** `s` without leading and trailing characters of the class `space`. */
  function StripBy(s: string, space: char -> bool): (r: string)
    ensures exists i, j :: (0 <= i <= j <= |s| && r == s[i..j]
      && (forall k :: 0 <= k < i ==> space(s[k]))
      && (forall k :: j <= k < |s| ==> space(s[k])))
    ensures |r| > 0 ==> !space(r[0]) && !space(r[|r| - 1])
    ensures |r| == 0 <==> forall k :: 0 <= k < |s| ==> space(s[k])
  {
    var i := SkipSpace(s, 0, space);
    var j := ContentEnd(s, i, space);
    s[i..j]
  }

  /** A string that neither starts nor ends with a space is its own stripped form. */
  lemma StripByUnchanged(s: string, space: char -> bool)
    requires |s| > 0 && !space(s[0]) && !space(s[|s| - 1])
    ensures StripBy(s, space) == s
  {
    var i := SkipSpace(s, 0, space);
    assert i == 0;
    var j := ContentEnd(s, i, space);
    assert j == |s|;
  }

  /**
    The Unicode tables the Python tools consult, given as parameters:
    per-character lower- and upper-casing (`str.lower`, `str.upper`), the
    full compatibility (NFKD) decomposition of one character,
    `unicodedata.combining(c) != 0`, and the regular-expression class `\w`.
   */
  datatype Unicode = Unicode(
    lower: char -> string,
    upper: char -> string,
    decompose: char -> string,
    combining: char -> bool,
    word: char -> bool)

  /** Python's `str.upper()`. */
  function Upper(u: Unicode, s: string): string {
    FlatMap(s, u.upper)
  }

  /** Python's `str.strip()`. */
  function Strip(s: string): string {
    StripBy(s, IsPySpace)
  }

  /** `r` is a contiguous piece of `s`. */
  predicate IsPiece(r: string, s: string) {
    exists i, j :: 0 <= i <= j <= |s| && r == s[i..j]
  }

  /** `str.strip()` keeps a contiguous piece of its argument that starts and ends with a non-space. */
  lemma StripIsPiece(s: string)
    ensures IsPiece(Strip(s), s)
    ensures |Strip(s)| > 0 ==> !IsPySpace(Strip(s)[0]) && !IsPySpace(Strip(s)[|Strip(s)| - 1])
  {
    var i := SkipSpace(s, 0, IsPySpace);
    var j := ContentEnd(s, i, IsPySpace);
    assert Strip(s) == s[i..j];
  }

  /** JavaScript's `String.prototype.trim()`. */
  function JsTrim(s: string): string {
    StripBy(s, IsJsSpace)
  }

  /** The decimal spelling of `n`, without leading zeros. */
  function NatToString(n: nat): (r: string)
    ensures |r| > 0
    ensures forall i :: 0 <= i < |r| ==> IsDigit(r[i])
    ensures n < 10 <==> |r| == 1
    decreases n
  {
    if n < 10 then [DigitChar(n)] else NatToString(n / 10) + [DigitChar(n % 10)]
  }

  function DigitChar(d: nat): (c: char)
    requires d < 10
    ensures IsDigit(c)
  {
    "0123456789"[d]
  }

  /** The number a string of decimal digits spells. */
  function DecimalValue(s: string): nat
    requires forall i :: 0 <= i < |s| ==> IsDigit(s[i])
  {
    if |s| == 0 then 0 else 10 * DecimalValue(s[..|s| - 1]) + DigitValue(s[|s| - 1])
  }

  function DigitValue(c: char): (d: nat)
    requires IsDigit(c)
    ensures d < 10
  {
    (c as int) - ('0' as int)
  }

  lemma {:induction false} NatToStringRoundTrip(n: nat)
    ensures DecimalValue(NatToString(n)) == n
    decreases n
  {
    if n >= 10 {
      NatToStringRoundTrip(n / 10);
      var s := NatToString(n);
      assert s[..|s| - 1] == NatToString(n / 10);
    }
  }

  /** Python's `f"{n}"` for an integer. */
  function IntToString(n: int): string {
    if n < 0 then "-" + NatToString(-n) else NatToString(n)
  }

  /** Python's `f"{n:02d}"`: at least two characters, zero-padded when non-negative. */
  function Pad2(n: int): (r: string)
    ensures |r| >= 2
    ensures n >= 0 ==> (forall i :: 0 <= i < |r| ==> IsDigit(r[i])) && DecimalValue(r) == n
  {
    NatToStringRoundTrip(if n < 0 then -n else n);
    if n < 0 then "-" + NatToString(-n)
    else if n < 10 then "0" + NatToString(n)
    else NatToString(n)
  }

  /** The index after the one or two digits that start at `i` (greedy), or `i` when none does. */
  function DigitsEnd(s: string, i: nat): (j: nat)
    requires i <= |s|
    ensures i <= j <= |s| && j <= i + 2
    ensures forall k :: i <= k < j ==> IsDigit(s[k])
    ensures j == i <==> (i == |s| || !IsDigit(s[i]))
    ensures j == i + 1 ==> i + 1 == |s| || !IsDigit(s[i + 1])
  {
    if i < |s| && IsDigit(s[i]) then (if i + 1 < |s| && IsDigit(s[i + 1]) then i + 2 else i + 1) else i
  }

  /**
    The pieces of a match of `^\s*\d{1,2}\s*[.\)]\s*` against `s[..k]`:
    whitespace up to `a`, one or two digits up to `b`, whitespace up to `c`,
    the `.` or `)` at `c`, and whitespace up to `k`, where the greedy final
    `\s*` stops.
   */
  predicate PrefixParts(s: string, a: int, b: int, c: int, k: int) {
    && 0 <= a < b <= a + 2 && b <= c && c < k <= |s|
    && (forall i :: 0 <= i < a ==> IsPySpace(s[i]))
    && (forall i :: a <= i < b ==> IsDigit(s[i]))
    && (forall i :: b <= i < c ==> IsPySpace(s[i]))
    && (s[c] == '.' || s[c] == ')')
    && (forall i :: c < i < k ==> IsPySpace(s[i]))
    && (k == |s| || !IsPySpace(s[k]))
  }

  /** The question-number prefix matches `s` and ends at `k`. */
  ghost predicate NumberPrefix(s: string, k: int) {
    0 <= k <= |s| && exists a, b, c :: PrefixParts(s, a, b, c, k)
  }

  /** A scan that stops at `j` is the scan `SkipSpace` performs. */
  lemma SkipSpaceAt(s: string, i: nat, j: nat, space: char -> bool)
    requires i <= j <= |s|
    requires forall k :: i <= k < j ==> space(s[k])
    requires j == |s| || !space(s[j])
    ensures SkipSpace(s, i, space) == j
  {
  }

  /** The pieces of a match are the ones the left-to-right scan finds: the match is unique. */
  lemma PrefixPartsAre(s: string, a: int, b: int, c: int, k: int)
    requires PrefixParts(s, a, b, c, k)
    ensures a == SkipSpace(s, 0, IsPySpace) && b == DigitsEnd(s, a)
    ensures c == SkipSpace(s, b, IsPySpace) && k == SkipSpace(s, c + 1, IsPySpace)
  {
    assert !IsPySpace(s[a]);
    SkipSpaceAt(s, 0, a, IsPySpace);
    assert !IsDigit(s[b]);
    SkipSpaceAt(s, b, c, IsPySpace);
    SkipSpaceAt(s, c + 1, k, IsPySpace);
  }

  /** The left-to-right scan: a match ends where the scan ends, and a successful scan is a match. */
  lemma ScanFindsPrefix(s: string, i: nat, j: nat, c: nat)
    requires i == SkipSpace(s, 0, IsPySpace) && j == DigitsEnd(s, i) && c == SkipSpace(s, j, IsPySpace)
    ensures j != i && c < |s| && (s[c] == '.' || s[c] == ')') ==> PrefixParts(s, i, j, c, SkipSpace(s, c + 1, IsPySpace))
    ensures forall k :: NumberPrefix(s, k) ==>
      j != i && c < |s| && (s[c] == '.' || s[c] == ')') && k == SkipSpace(s, c + 1, IsPySpace)
  {
    forall k | NumberPrefix(s, k)
      ensures j != i && c < |s| && (s[c] == '.' || s[c] == ')') && k == SkipSpace(s, c + 1, IsPySpace)
    {
      var a, b, c' :| PrefixParts(s, a, b, c', k);
      PrefixPartsAre(s, a, b, c', k);
    }
  }

  /**
    Where the question-number prefix of `s` ends, or nothing when `s` does
    not start with one.
   */
  function PrefixEnd(s: string): (r: Option<nat>)
    ensures r.Some? ==> NumberPrefix(s, r.value)
    ensures forall k :: NumberPrefix(s, k) ==> r == Some(k)
  {
    var i := SkipSpace(s, 0, IsPySpace);
    var j := DigitsEnd(s, i);
    var c := SkipSpace(s, j, IsPySpace);
    ScanFindsPrefix(s, i, j, c);
    if j != i && c < |s| && (s[c] == '.' || s[c] == ')') then Some(SkipSpace(s, c + 1, IsPySpace)) else None
  }

  /**
    `re.sub(r'^\s*\d{1,2}\s*[.\)]\s*', '', s)`: a leading question number
    written `NN.` or `NN)` is removed with the whitespace around it. The
    greedy `\d{1,2}` takes two digits when there are two, and nothing matches
    when a third digit follows.
   */
  function StripNumberPrefix(s: string): (r: string)
    ensures forall k :: NumberPrefix(s, k) ==> r == s[k..]
    ensures (forall k :: !NumberPrefix(s, k)) ==> r == s
    ensures exists i :: 0 <= i <= |s| && r == s[i..]
    ensures |s| > 0 && !IsPySpace(s[0]) && !IsDigit(s[0]) ==> r == s
  {
    assert s == s[0..];
    match PrefixEnd(s)
    case None => s
    case Some(k) =>
      assert NumberPrefix(s, k);
      s[k..]
  }

  /** A one- or two-digit number followed by `.` and a space is removed, and the text behind it is kept whole. */
  lemma StripNumberPrefixRemovesNumber(n: nat, body: string)
    requires 1 <= n <= 99
    requires |body| > 0 && !IsPySpace(body[0])
    ensures StripNumberPrefix(NatToString(n) + ". " + body) == body
  {
    var d := NatToString(n);
    if n >= 10 {
      assert NatToString(n / 10) == [DigitChar(n / 10)];
    }
    var s := d + ". " + body;
    var j := |d|;
    assert s[j] == '.' && s[j + 1] == ' ' && s[j + 2] == body[0];
    assert s[j + 2..] == body;
    assert forall k :: 0 <= k < j ==> s[k] == d[k];
    assert PrefixParts(s, 0, j, j, j + 2);
  }

  /** Bidirectional: `Blank` holds exactly when JavaScript's `trim()` leaves nothing. */
  predicate Blank(s: string) {
    forall k :: 0 <= k < |s| ==> IsJsSpace(s[k])
  }

  lemma BlankIffTrimEmpty(s: string)
    ensures Blank(s) <==> |JsTrim(s)| == 0
  {
  }
}
