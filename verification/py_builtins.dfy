/** The Python 2 built-ins the scraper relies on, with their exact semantics
    for the cases the scraper can reach: `str.find`, slicing `s[a:b]` and
    `int(str)`, plus the exceptions the scraper lets propagate. */
module PyBuiltins {
  import opened Wrappers

  /** The exceptions raised by the modelled code. */
  datatype Exception =
    | ValueError(literal: string)  // int() was given text that is not an integer
    | AttributeError(tag: string)  // getText() on the None that find() returns for a missing div
    | IndexError(index: int)       // list index out of range

  // ---------------------------------------------------------------------------
  // str.find

  /** `pat` occurs in `s` starting at index `i`. */
  predicate OccursAt(s: string, pat: string, i: int) {
    0 <= i && i + |pat| <= |s| && s[i..i + |pat|] == pat
  }

  /** `pat in s` */
  predicate Contains(s: string, pat: string) {
    exists i :: 0 <= i <= |s| && OccursAt(s, pat, i)
  }

  /** `s.find(pat, i)`: the first index at or after `i` where `pat` occurs, or -1. */
  function FindFrom(s: string, pat: string, i: nat): (r: int)
    requires i <= |s|
    ensures r == -1 || i <= r <= |s| - |pat|
    decreases |s| - i
  {
    if OccursAt(s, pat, i) then i
    else if i == |s| then -1
    else FindFrom(s, pat, i + 1)
  }

  /** `s.find(pat)` */
  function Find(s: string, pat: string): (r: int)
    ensures r == -1 || 0 <= r <= |s| - |pat|
  {
    FindFrom(s, pat, 0)
  }

  /** `s.find(pat, i)` is -1 exactly when `pat` does not occur at or after
      `i`, and otherwise the first such occurrence. */
  lemma {:induction false} FindFromIsFirst(s: string, pat: string, i: nat)
    requires i <= |s|
    ensures FindFrom(s, pat, i) == -1 || i <= FindFrom(s, pat, i)
    ensures FindFrom(s, pat, i) == -1 <==> forall j :: i <= j ==> !OccursAt(s, pat, j)
    ensures FindFrom(s, pat, i) != -1 ==>
      OccursAt(s, pat, FindFrom(s, pat, i)) &&
      forall j :: i <= j < FindFrom(s, pat, i) ==> !OccursAt(s, pat, j)
    decreases |s| - i
  {
    if !OccursAt(s, pat, i) && i < |s| {
      FindFromIsFirst(s, pat, i + 1);
    }
  }

  /** `s.find(pat)` is -1 exactly when `pat not in s`, and otherwise the index
      of the first occurrence. */
  lemma FindIsFirst(s: string, pat: string)
    ensures Find(s, pat) == -1 <==> !Contains(s, pat)
    ensures Find(s, pat) != -1 ==>
      OccursAt(s, pat, Find(s, pat)) && forall j :: 0 <= j < Find(s, pat) ==> !OccursAt(s, pat, j)
  {
    FindFromIsFirst(s, pat, 0);
  }

  /** Once the first occurrence is known, `find` returns it. */
  lemma FindIs(s: string, pat: string, p: int)
    requires OccursAt(s, pat, p)
    requires forall j :: 0 <= j < p ==> !OccursAt(s, pat, j)
    ensures Find(s, pat) == p
  {
    FindIsFirst(s, pat);
  }

  /** A non-empty pattern cannot occur where its first character does not. */
  lemma NoOccurrenceBefore(s: string, pat: string, p: int)
    requires pat != []
    requires 0 <= p <= |s| && pat[0] !in s[..p]
    ensures forall j :: 0 <= j < p ==> !OccursAt(s, pat, j)
  {
    forall j | 0 <= j < p
      ensures !OccursAt(s, pat, j)
    {
      if j + |pat| <= |s| {
        assert s[j..j + |pat|][0] == s[j] == s[..p][j];
      }
    }
  }

  /** `find` stops at the first occurrence, after a prefix that cannot start one. */
  lemma FindAfter(pre: string, pat: string, post: string)
    requires pat != [] && pat[0] !in pre
    ensures Find(pre + pat + post, pat) == |pre|
  {
    var s := pre + pat + post;
    assert s[|pre|..|pre| + |pat|] == pat;
    assert s[..|pre|] == pre;
    NoOccurrenceBefore(s, pat, |pre|);
    FindIs(s, pat, |pre|);
  }

  /** `find` reports -1 for a pattern whose first character never appears. */
  lemma FindAbsent(s: string, pat: string)
    requires pat != [] && pat[0] !in s
    ensures Find(s, pat) == -1
  {
    assert s[..|s|] == s;
    NoOccurrenceBefore(s, pat, |s|);
    FindIsFirst(s, pat);
  }

  // ---------------------------------------------------------------------------
  // Slicing

  /** How Python turns a slice bound into an index of a sequence of length `n`:
      a negative bound counts from the end, and the result is clamped to [0, n]. */
  function SliceBound(i: int, n: nat): nat {
    if i < 0 then (if i + n < 0 then 0 else i + n)
    else if i > n then n
    else i
  }

  /** `s[lo:hi]`: empty when the normalised bounds cross. */
  function Slice(s: string, lo: int, hi: int): (r: string)
    ensures |r| <= |s|
    ensures 0 <= lo <= hi <= |s| ==> r == s[lo..hi]
  {
    var a, b := SliceBound(lo, |s|), SliceBound(hi, |s|);
    if a <= b <= |s| then s[a..b] else []
  }

  // ---------------------------------------------------------------------------
  // int(str)

  /** The characters Python 2's `isspace` accepts in a byte string. */
  predicate IsSpace(c: char) {
    c == ' ' || c == '\t' || c == '\n' || c == '\r' || c == '\U{000B}' || c == '\U{000C}'
  }

  predicate IsDigit(c: char) {
    '0' <= c <= '9'
  }

  /** A non-empty run of decimal digits. */
  predicate IsNumeral(d: string) {
    d != [] && forall i :: 0 <= i < |d| ==> IsDigit(d[i])
  }

  function TrimLeft(s: string): string
    decreases |s|
  {
    if s != [] && IsSpace(s[0]) then TrimLeft(s[1..]) else s
  }

  function TrimRight(s: string): string
    decreases |s|
  {
    if s != [] && IsSpace(s[|s| - 1]) then TrimRight(s[..|s| - 1]) else s
  }

  function DigitValue(c: char): nat
    requires IsDigit(c)
  {
    c as int - '0' as int
  }

  /** The value of a run of decimal digits, most significant first. */
  function DigitsValue(d: string): nat
    requires forall i :: 0 <= i < |d| ==> IsDigit(d[i])
  {
    if d == [] then 0
    else DigitsValue(d[..|d| - 1]) * 10 + DigitValue(d[|d| - 1])
  }

  /** Python 2 `int(text)`: surrounding whitespace is ignored, a sign may come
      first and may be followed by whitespace, then at least one decimal digit.
      None stands for the ValueError that any other text raises. */
  function ParseInt(text: string): Option<int>
  {
    var t := TrimRight(TrimLeft(text));
    if t != [] && (t[0] == '+' || t[0] == '-') then
      var d := TrimLeft(t[1..]);
      if IsNumeral(d) then
        var v: int := DigitsValue(d);
        Some(if t[0] == '-' then -v else v)
      else None
    else if IsNumeral(t) then Some(DigitsValue(t))
    else None
  }

  /** Trimming only removes characters. */
  lemma {:induction false} TrimLeftKeepsChars(s: string)
    ensures forall c :: c in TrimLeft(s) ==> c in s
    decreases |s|
  {
    if s != [] && IsSpace(s[0]) {
      TrimLeftKeepsChars(s[1..]);
      assert forall c :: c in s[1..] ==> c in s;
    }
  }

  lemma {:induction false} TrimRightKeepsChars(s: string)
    ensures forall c :: c in TrimRight(s) ==> c in s
    decreases |s|
  {
    if s != [] && IsSpace(s[|s| - 1]) {
      TrimRightKeepsChars(s[..|s| - 1]);
      assert forall c :: c in s[..|s| - 1] ==> c in s;
    }
  }

  /** `int()` accepts only text holding a decimal digit: text without one
      raises ValueError. */
  lemma ParseIntNeedsDigit(text: string)
    ensures ParseInt(text).Some? ==> exists i :: 0 <= i < |text| && IsDigit(text[i])
  {
    var t := TrimRight(TrimLeft(text));
    TrimLeftKeepsChars(text);
    TrimRightKeepsChars(TrimLeft(text));
    if ParseInt(text).Some? {
      var c: char;
      if t != [] && (t[0] == '+' || t[0] == '-') {
        var d := TrimLeft(t[1..]);
        TrimLeftKeepsChars(t[1..]);
        c := d[0];
        assert c in d && c in t[1..];
      } else {
        c := t[0];
        assert c in t;
      }
      assert IsDigit(c) && c in text;
    }
  }

  // ---------------------------------------------------------------------------
  // str(n), the partner of int()

  function DigitChar(k: nat): (c: char)
    requires k < 10
    ensures IsDigit(c) && DigitValue(c) == k
  {
    (k + '0' as int) as char
  }

  /** `str(n)` for a natural number: its decimal digits without leading zeros. */
  function ShowNat(n: nat): (r: string)
    ensures IsNumeral(r)
  {
    if n < 10 then [DigitChar(n)] else ShowNat(n / 10) + [DigitChar(n % 10)]
  }

  lemma {:induction false} DigitsValueShowNat(n: nat)
    ensures DigitsValue(ShowNat(n)) == n
  {
    if n >= 10 {
      DigitsValueShowNat(n / 10);
      var s := ShowNat(n);
      assert s[..|s| - 1] == ShowNat(n / 10);
    }
  }

  /** `int(str(n)) == n` and `int("-" + str(n)) == -n`. */
  lemma ParseShowNat(n: nat)
    ensures ParseInt(ShowNat(n)) == Some(n)
    ensures ParseInt("-" + ShowNat(n)) == Some(-(n as int))
  {
    var s := ShowNat(n);
    DigitsValueShowNat(n);
    assert TrimLeft(s) == s;
    assert TrimRight(s) == s;
    var m := "-" + s;
    assert TrimLeft(m) == m;
    assert TrimRight(m) == m;
    assert m[1..] == s;
  }
}
