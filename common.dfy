/** Values shared by the three scripts: optional JSON fields, the character
    classes their regular expressions use, decimal numbers as the scripts read
    and print them, and the order on strings that the sorts use. */
module Common {

  /** An optional JSON field: absent (`undefined`) or present. */
  datatype Option<+T> = None | Some(value: T)

  /** JavaScript truthiness of an optional string: present and non-empty. */
  predicate Truthy(s: Option<string>) {
    s.Some? && s.value != ""
  }

  // ---------------------------------------------------------------------------
  // Sequences

  lemma AppendAssoc<T>(a: seq<T>, b: seq<T>, c: seq<T>)
    ensures a + (b + c) == (a + b) + c
  {
  }

  lemma PrefixSnoc<T>(s: seq<T>, k: nat)
    requires k < |s|
    ensures s[..k + 1][..k] == s[..k] && s[..k + 1][k] == s[k]
  {
  }

  /** Growing a prefix of `b` by one element, after a fixed `a`. */
  lemma ExtendPrefix<T>(a: seq<T>, b: seq<T>, j: nat)
    requires j < |b|
    ensures a + b[..j + 1] == (a + b[..j]) + [b[j]]
  {
    assert b[..j + 1] == b[..j] + [b[j]];
  }

  lemma TakeSnoc<T>(s: seq<T>, k: nat)
    requires k < |s|
    ensures s[..k + 1] == s[..k] + [s[k]]
  {
  }

  lemma WholePrefix<T>(a: seq<T>, b: seq<T>)
    ensures a + b[..0] == a && b[..|b|] == b
  {
  }

  /** `s.map(f)`. */
  function MapSeq<A, B>(f: A -> B, s: seq<A>): (r: seq<B>)
    ensures |r| == |s|
    ensures forall k :: 0 <= k < |s| ==> r[k] == f(s[k])
  {
    seq(|s|, k requires 0 <= k < |s| => f(s[k]))
  }

  lemma MapSeqSnoc<A, B>(f: A -> B, s: seq<A>, i: nat)
    requires i < |s|
    ensures MapSeq(f, s[..i + 1]) == MapSeq(f, s[..i]) + [f(s[i])]
  {
    assert MapSeq(f, s[..i + 1])[..i] == MapSeq(f, s[..i]);
  }

  // ---------------------------------------------------------------------------
  // Character classes (`\d`, `[A-Z]`)

  predicate IsDigit(c: char) {
    '0' <= c <= '9'
  }

  predicate IsUpper(c: char) {
    'A' <= c <= 'Z'
  }

  predicate AllDigits(s: string) {
    forall k :: 0 <= k < |s| ==> IsDigit(s[k])
  }

  function DigitValue(c: char): (d: nat)
    requires IsDigit(c)
    ensures d < 10
  {
    c as int - '0' as int
  }

  function DigitChar(d: nat): (c: char)
    requires d < 10
    ensures IsDigit(c) && DigitValue(c) == d
  {
    (d + '0' as int) as char
  }

  // ---------------------------------------------------------------------------
  // Decimal numbers

  /** The value of a string of decimal digits, most significant first. */
  function DigitsValue(s: string): (n: nat)
    requires AllDigits(s)
    decreases |s|
  {
    if s == [] then 0 else DigitsValue(s[..|s| - 1]) * 10 + DigitValue(s[|s| - 1])
  }

  /** The longest prefix of `s` made of decimal digits. */
  function LeadingDigits(s: string): (p: string)
    ensures |p| <= |s| && p == s[..|p|] && AllDigits(p)
    ensures |p| < |s| ==> !IsDigit(s[|p|])
    ensures AllDigits(s) ==> p == s
  {
    if s == [] || !IsDigit(s[0]) then [] else [s[0]] + LeadingDigits(s[1..])
  }

  /** `parseInt(s, 10)` on a string without leading blanks or sign: the value
      of the leading digits, or `None` (NaN) when `s` does not start with one. */
  function ParseInt(s: string): (r: Option<nat>)
    ensures r.None? <==> (s == [] || !IsDigit(s[0]))
    ensures AllDigits(s) && s != [] ==> r == Some(DigitsValue(s))
  {
    var p := LeadingDigits(s);
    if p == [] then None else Some(DigitsValue(p))
  }

  /** `parseInt(date.substring(0, 4), 10)`: the year a date string starts with. */
  function YearOf(date: string): (r: Option<nat>)
    ensures |date| >= 4 && AllDigits(date[..4]) ==> r == Some(DigitsValue(date[..4]))
  {
    ParseInt(if |date| <= 4 then date else date[..4])
  }

  /** Digit strings of one length with one value are the same string. */
  lemma {:induction false} DigitsValueInjective(a: string, b: string)
    requires AllDigits(a) && AllDigits(b) && |a| == |b|
    requires DigitsValue(a) == DigitsValue(b)
    ensures a == b
    decreases |a|
  {
    if a != [] {
      var n := |a| - 1;
      assert DigitValue(a[n]) == DigitsValue(a) % 10 && DigitValue(b[n]) == DigitsValue(b) % 10;
      assert DigitsValue(a[..n]) == DigitsValue(a) / 10 && DigitsValue(b[..n]) == DigitsValue(b) / 10;
      DigitsValueInjective(a[..n], b[..n]);
      assert a == a[..n] + [a[n]] && b == b[..n] + [b[n]];
    }
  }

  lemma {:induction false} DigitsValueBound(s: string)
    requires AllDigits(s)
    ensures DigitsValue(s) < Pow10(|s|)
    decreases |s|
  {
    if s != [] {
      DigitsValueBound(s[..|s| - 1]);
    }
  }

  function Pow10(n: nat): (p: nat)
    ensures p >= 1
  {
    if n == 0 then 1 else 10 * Pow10(n - 1)
  }

  /** The decimal text of a natural number, as JavaScript prints it. */
  function NatToString(n: nat): (s: string)
    ensures s != [] && AllDigits(s)
    decreases n
  {
    if n < 10 then [DigitChar(n)] else NatToString(n / 10) + [DigitChar(n % 10)]
  }

  /** The decimal text of an integer: a minus sign before negative values. */
  function IntToString(n: int): (s: string)
    ensures s != []
    ensures n >= 0 <==> AllDigits(s)
    ensures n >= 0 ==> s == NatToString(n)
    ensures forall k :: 0 <= k < |s| ==> s[k] != ':'
  {
    if n >= 0 then NatToString(n)
    else
      var s := "-" + NatToString(-n);
      assert !IsDigit(s[0]);
      s
  }

  /** Reading back what NatToString printed gives the number. */
  lemma {:induction false} NatToStringRoundTrip(n: nat)
    ensures DigitsValue(NatToString(n)) == n
    decreases n
  {
    if n >= 10 {
      NatToStringRoundTrip(n / 10);
      var s := NatToString(n);
      assert s[..|s| - 1] == NatToString(n / 10);
    }
  }

  // ---------------------------------------------------------------------------
  // The formats checked by validate.ts

  /** `/^[A-Z]{2}[A-Z0-9]{10}$/` */
  predicate IsIsin(s: string) {
    && |s| == 12
    && IsUpper(s[0]) && IsUpper(s[1])
    && forall k :: 2 <= k < 12 ==> IsUpper(s[k]) || IsDigit(s[k])
  }

  /** The index of the first ':' in `s`, or `|s|` when there is none. */
  function ColonIndex(s: string): (k: nat)
    ensures k <= |s|
    ensures k < |s| ==> s[k] == ':'
    ensures forall j :: 0 <= j < k ==> s[j] != ':'
  {
    if s == [] then 0 else if s[0] == ':' then 0 else 1 + ColonIndex(s[1..])
  }

  /** `/^\d+:\d+$/`: digits cannot be ':', so the separator is the first colon. */
  predicate IsRatio(s: string) {
    var k := ColonIndex(s);
    0 < k < |s| - 1 && AllDigits(s[..k]) && AllDigits(s[k + 1..])
  }

  /** The two numbers of a well-formed ratio "new:old". */
  function ParseRatio(s: string): (r: Option<(nat, nat)>)
    ensures r.Some? <==> IsRatio(s)
  {
    if IsRatio(s) then
      var k := ColonIndex(s);
      Some((DigitsValue(s[..k]), DigitsValue(s[k + 1..])))
    else None
  }

  /** A ratio is accepted exactly when it is two digit runs around one colon. */
  lemma {:induction false} IsRatioCharacterized(a: string, b: string)
    requires AllDigits(a) && AllDigits(b)
    ensures IsRatio(a + ":" + b) <==> a != [] && b != []
    ensures a != [] && b != [] ==> ParseRatio(a + ":" + b) == Some((DigitsValue(a), DigitsValue(b)))
  {
    var s := a + ":" + b;
    ColonIndexAfter(a, b);
    assert s[..|a|] == a;
    assert s[|a| + 1..] == b;
  }

  /** Two parts around a colon, the first without a colon of its own, form
      a ratio exactly when both are non-empty digit runs. */
  lemma {:induction false} RatioOfParts(a: string, b: string)
    requires forall k :: 0 <= k < |a| ==> a[k] != ':'
    ensures IsRatio(a + ":" + b) <==> a != [] && b != [] && AllDigits(a) && AllDigits(b)
  {
    var s := a + ":" + b;
    ColonIndexAfter(a, b);
    assert s[..|a|] == a;
    assert s[|a| + 1..] == b;
  }

  lemma {:induction false} ColonIndexAfter(a: string, b: string)
    requires forall k :: 0 <= k < |a| ==> a[k] != ':'
    ensures ColonIndex(a + ":" + b) == |a|
    decreases |a|
  {
    if a != [] {
      assert (a + ":" + b)[1..] == a[1..] + ":" + b;
      ColonIndexAfter(a[1..], b);
    }
  }

  /** A separator other than ':' is never a ratio ("3-1"). */
  lemma WrongSeparatorIsNotRatio()
    ensures !IsRatio("3-1")
  {
    assert ColonIndex("3-1") == 3 by {
      assert "3-1"[1..] == "-1";
      assert "-1"[1..] == "1";
      assert "1"[1..] == "";
    }
  }

  // ---------------------------------------------------------------------------
  // String order: `a.localeCompare(b) <= 0` and the default `Array.sort`
  // order, both modelled as lexicographic order on characters. A `char` is a
  // Unicode scalar value, so this is code-point order; it agrees with the
  // UTF-16 code-unit order of `Array.sort` on strings without characters
  // above U+FFFF.

  predicate StrLe(a: string, b: string)
    decreases |a|
  {
    if a == [] then true
    else if b == [] then false
    else if a[0] != b[0] then a[0] < b[0]
    else StrLe(a[1..], b[1..])
  }

  /** Strict order: `a.localeCompare(b) < 0`. */
  predicate StrLt(a: string, b: string) {
    StrLe(a, b) && a != b
  }

  lemma {:induction false} StrLeReflexive(a: string)
    ensures StrLe(a, a)
    decreases |a|
  {
    if a != [] {
      StrLeReflexive(a[1..]);
    }
  }

  lemma {:induction false} StrLeTotal(a: string, b: string)
    ensures StrLe(a, b) || StrLe(b, a)
    decreases |a|
  {
    if a != [] && b != [] && a[0] == b[0] {
      StrLeTotal(a[1..], b[1..]);
    }
  }

  lemma {:induction false} StrLeAntisymmetric(a: string, b: string)
    requires StrLe(a, b) && StrLe(b, a)
    ensures a == b
    decreases |a|
  {
    if a != [] && b != [] {
      StrLeAntisymmetric(a[1..], b[1..]);
      assert a == [a[0]] + a[1..];
      assert b == [b[0]] + b[1..];
    }
  }

  lemma {:induction false} StrLeTransitive(a: string, b: string, c: string)
    requires StrLe(a, b) && StrLe(b, c)
    ensures StrLe(a, c)
    decreases |a|
  {
    if a != [] && b != [] && c != [] && a[0] == b[0] && b[0] == c[0] {
      StrLeTransitive(a[1..], b[1..], c[1..]);
    }
  }
}
