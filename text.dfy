/** The string handling the ledger relies on, as Python performs it: `str` of an integer,
  * `int` of a string, `str.split`, `str.startswith` and `str.join`. */
module Text {
  import opened Common

  predicate IsDigit(c: char) { '0' <= c <= '9' }

  /** The characters `str.strip()` removes (the ASCII ones). */
  predicate IsSpace(c: char) {
    c == ' ' || c == '\t' || c == '\n' || c == '\r' || c == '\U{B}' || c == '\U{C}'
  }

  function DigitChar(d: nat): (c: char)
    requires d < 10
    ensures IsDigit(c) && c as int - '0' as int == d
  {
    ['0', '1', '2', '3', '4', '5', '6', '7', '8', '9'][d]
  }

  /** Decimal digits of a natural number, most significant first, no leading zero. */
  function NatToString(n: nat): (s: string)
    ensures |s| > 0 && forall i :: 0 <= i < |s| ==> IsDigit(s[i])
    decreases n
  {
    if n < 10 then [DigitChar(n)] else NatToString(n / 10) + [DigitChar(n % 10)]
  }

  /** Python's `str(n)` for an integer. */
  function IntToString(n: int): (s: string)
    ensures |s| > 0
    ensures forall i :: 0 <= i < |s| ==> IsDigit(s[i]) || (i == 0 && s[i] == '-')
  {
    if n < 0 then "-" + NatToString(-n) else NatToString(n)
  }

  function TrimStart(s: string): (t: string)
    ensures |t| <= |s|
  {
    if |s| > 0 && IsSpace(s[0]) then TrimStart(s[1..]) else s
  }

  function TrimEnd(s: string): (t: string)
    ensures |t| <= |s|
  {
    if |s| > 0 && IsSpace(s[|s| - 1]) then TrimEnd(s[..|s| - 1]) else s
  }

  /** A run of digits in which single underscores may separate digits, as `int` accepts it. */
  predicate WellFormedDigits(s: string) {
    && |s| > 0 && IsDigit(s[0]) && IsDigit(s[|s| - 1])
    && (forall i :: 0 <= i < |s| ==> IsDigit(s[i]) || s[i] == '_')
    && (forall i :: 0 <= i < |s| - 1 ==> s[i] == '_' ==> s[i + 1] != '_')
  }

  /** The value of a run of digits, skipping underscores. */
  function DigitsValue(s: string): nat
  {
    if s == [] then 0
    else if IsDigit(s[|s| - 1]) then DigitsValue(s[..|s| - 1]) * 10 + (s[|s| - 1] as int - '0' as int)
    else DigitsValue(s[..|s| - 1])
  }

  /** Python's `int(s)` in base 10: surrounding white space, an optional sign, then digits.
    * `None` stands for the `ValueError` it raises. */
  function ParseInt(s: string): (r: Option<int>)
    ensures r.Some? ==> exists i :: 0 <= i < |s| && IsDigit(s[i])
  {
    var t := TrimEnd(TrimStart(s));
    TrimmedIsInside(s);
    if |t| > 0 && (t[0] == '-' || t[0] == '+') then
      var body := t[1..];
      if WellFormedDigits(body) then
        assert IsDigit(t[1]);
        var v: int := DigitsValue(body);
        Some(if t[0] == '-' then -v else v)
      else None
    else if WellFormedDigits(t) then
      assert IsDigit(t[0]);
      Some(DigitsValue(t))
    else None
  }

  lemma TrimmedIsInside(s: string)
    ensures forall i :: 0 <= i < |TrimEnd(TrimStart(s))| ==>
              exists j :: 0 <= j < |s| && TrimEnd(TrimStart(s))[i] == s[j]
  {
    var a := TrimStart(s);
    TrimStartIsSuffix(s);
    TrimEndIsPrefix(a);
    var t := TrimEnd(a);
    forall i | 0 <= i < |t| ensures exists j :: 0 <= j < |s| && t[i] == s[j] {
      assert t[i] == a[i] == s[|s| - |a| + i];
    }
  }

  lemma TrimStartIsSuffix(s: string)
    ensures TrimStart(s) == s[|s| - |TrimStart(s)|..]
  {
  }

  lemma TrimEndIsPrefix(s: string)
    ensures TrimEnd(s) == s[..|TrimEnd(s)|]
  {
  }

  lemma {:induction false} NatToStringValue(n: nat)
    ensures WellFormedDigits(NatToString(n)) && DigitsValue(NatToString(n)) == n
    decreases n
  {
    var s := NatToString(n);
    if n >= 10 {
      NatToStringValue(n / 10);
      assert s[..|s| - 1] == NatToString(n / 10);
    }
  }

  /** `int(str(n)) == n`: the integer written by an f-string reads back unchanged. */
  lemma {:induction false} ParseIntToString(n: int)
    ensures ParseInt(IntToString(n)) == Some(n)
  {
    if n < 0 {
      ParseNegative(-n);
    } else {
      ParseNatural(n);
    }
  }

  /** Nothing is stripped from a string that neither starts nor ends with white space. */
  lemma NothingTrimmed(s: string)
    requires |s| > 0 && !IsSpace(s[0]) && !IsSpace(s[|s| - 1])
    ensures TrimEnd(TrimStart(s)) == s
  {
  }

  lemma ParseNatural(n: nat)
    ensures ParseInt(NatToString(n)) == Some(n)
  {
    var s := NatToString(n);
    NothingTrimmed(s);
    NatToStringValue(n);
    assert IsDigit(s[0]);
  }

  lemma ParseNegative(m: nat)
    ensures ParseInt("-" + NatToString(m)) == Some(-(m as int))
  {
    var s := "-" + NatToString(m);
    MinusDigits(m, s);
    ParseMinus(s, m);
  }

  lemma MinusDigits(m: nat, s: string)
    requires s == "-" + NatToString(m)
    ensures |s| > 1 && s[0] == '-' && TrimEnd(TrimStart(s)) == s
      && WellFormedDigits(s[1..]) && DigitsValue(s[1..]) == m
  {
    var digits := NatToString(m);
    assert s[1..] == digits && s[|s| - 1] == digits[|digits| - 1];
    NothingTrimmed(s);
    NatToStringValue(m);
  }

  /** `int` of a minus sign followed by well-formed digits, with nothing to strip. */
  lemma ParseMinus(s: string, m: nat)
    requires |s| > 1 && s[0] == '-' && TrimEnd(TrimStart(s)) == s && WellFormedDigits(s[1..])
    requires DigitsValue(s[1..]) == m
    ensures ParseInt(s) == Some(-(m as int))
  {
  }

  /** `p.startswith` as `str.startswith` checks it. */
  predicate StartsWith(s: string, p: string) {
    |p| <= |s| && s[..|p|] == p
  }

  /** `pat` occurs in `s` starting at index `j`. */
  predicate OccursAt(s: string, pat: string, j: int) {
    0 <= j && j + |pat| <= |s| && s[j..j + |pat|] == pat
  }

  /** Index of the first occurrence of `pat` in `s` at or after `from`, as `str.find` reports it. */
  function FindFrom(s: string, pat: string, from: nat): (r: Option<nat>)
    requires |pat| > 0
    ensures r.Some? ==> from <= r.value && OccursAt(s, pat, r.value)
    ensures r.Some? ==> forall j :: from <= j < r.value ==> !OccursAt(s, pat, j)
    ensures r.None? ==> forall j :: from <= j ==> !OccursAt(s, pat, j)
    decreases |s| - from
  {
    if from + |pat| > |s| then None
    else if s[from..from + |pat|] == pat then Some(from)
    else FindFrom(s, pat, from + 1)
  }

  function Find(s: string, pat: string): Option<nat>
    requires |pat| > 0
  {
    FindFrom(s, pat, 0)
  }

  /** `s.split(sep)[0]`: everything before the first separator, or all of `s`. */
  function SplitHead(s: string, sep: string): (h: string)
    requires |sep| > 0
    ensures StartsWith(s, h)
  {
    match Find(s, sep)
    case None => s
    case Some(i) => s[..i]
  }

  /** Everything after the first separator; `None` when there is none. Hence
    * `s.split(sep)[1] == SplitHead(SplitTail(s, sep).value, sep)`, and `None` is the
    * `IndexError` of indexing a one-element split. */
  function SplitTail(s: string, sep: string): (t: Option<string>)
    requires |sep| > 0
    ensures t.Some? ==> |t.value| + |sep| <= |s|
  {
    match Find(s, sep)
    case None => None
    case Some(i) => Some(s[i + |sep|..])
  }

  /** `sep.join(parts)`. */
  function Join(parts: seq<string>, sep: string): string
  {
    if parts == [] then ""
    else if |parts| == 1 then parts[0]
    else parts[0] + sep + Join(parts[1..], sep)
  }

  /** A separator placed right after a prefix in which it does not occur is the first one. */
  lemma {:induction false} FindAfterClearPrefix(s: string, pat: string, k: nat)
    requires |pat| > 0 && OccursAt(s, pat, k)
    requires forall j :: 0 <= j < k ==> !OccursAt(s, pat, j)
    ensures Find(s, pat) == Some(k)
  {
    FindFromAt(s, pat, 0, k);
  }

  /** Splitting `a + sep + b` on `sep` separates `a` from `b` when no occurrence of `sep` starts
    * inside `a`, not even one running into the separator itself. */
  lemma SplitAtFirst(a: string, sep: string, b: string, early: string)
    requires |sep| > 0 && early == a + sep[..|sep| - 1]
    requires forall j :: 0 <= j < |a| ==> !OccursAt(early, sep, j)
    ensures SplitHead(a + sep + b, sep) == a
    ensures SplitTail(a + sep + b, sep) == Some(b)
  {
    var d := a + sep + b;
    assert d[..|early|] == early;
    assert OccursAt(d, sep, |a|) by { assert d[|a|..|a| + |sep|] == sep; }
    forall j | 0 <= j < |a| ensures !OccursAt(d, sep, j) {
      if OccursAt(d, sep, j) {
        assert early[j..j + |sep|] == d[..|early|][j..j + |sep|] == d[j..j + |sep|];
        assert OccursAt(early, sep, j);
      }
    }
    FindAfterClearPrefix(d, sep, |a|);
    assert d[|a| + |sep|..] == b;
  }

  lemma {:induction false} FindFromAt(s: string, pat: string, from: nat, k: nat)
    requires |pat| > 0 && from <= k && OccursAt(s, pat, k)
    requires forall j :: from <= j < k ==> !OccursAt(s, pat, j)
    ensures FindFrom(s, pat, from) == Some(k)
    decreases k - from
  {
    if from < k {
      FindFromAt(s, pat, from + 1, k);
    }
  }
}
