/**
 * Python's `int(text)` on a `str`, base 10, restricted to ASCII digits:
 * surrounding whitespace is stripped, one optional sign may lead, and the
 * digits may be grouped by single underscores ("1_000") but may not start,
 * end or double them. `None` stands for the `ValueError` Python raises.
 * This is `int()` as CPython 3.6 and later read text, without the limit on
 * the number of digits that some versions add.
 */
module PyInt {
  import opened Wrappers

  /**
   * The characters `int()` strips: the ASCII whitespace `\t \n \v \f \r`
   * and space, and the non-ASCII characters `str.isspace()` accepts. The
   * ASCII separators U+001C to U+001F, which `str.isspace()` also accepts,
   * are not stripped: `int()` passes ASCII through to its digit reader, which
   * only skips the six ASCII whitespace characters.
   */
  predicate IsSpace(c: char)
  {
    || ('\t' <= c <= '\r')
    || c == ' ' || c == '\U{85}' || c == '\U{A0}' || c == '\U{1680}'
    || ('\U{2000}' <= c <= '\U{200A}')
    || c == '\U{2028}' || c == '\U{2029}' || c == '\U{202F}' || c == '\U{205F}' || c == '\U{3000}'
  }

  predicate IsDigit(c: char)
  {
    '0' <= c <= '9'
  }

  function DigitValue(c: char): (d: nat)
    ensures d < 10
  {
    if IsDigit(c) then (c as int - '0' as int) else 0
  }

  function DigitChar(d: nat): (c: char)
    requires d < 10
    ensures IsDigit(c) && DigitValue(c) == d
  {
    ('0' as int + d) as char
  }

  /** `s` without its leading whitespace. */
  function TrimLeft(s: string): (r: string)
    ensures |r| <= |s| && (r != [] ==> !IsSpace(r[0]))
  {
    if s != [] && IsSpace(s[0]) then TrimLeft(s[1..]) else s
  }

  /** `s` without its trailing whitespace. */
  function TrimRight(s: string): (r: string)
    ensures |r| <= |s| && (r != [] ==> !IsSpace(r[|r| - 1]))
  {
    if s != [] && IsSpace(s[|s| - 1]) then TrimRight(s[..|s| - 1]) else s
  }

  /** Only digits and underscores, and never two underscores in a row. */
  predicate Grouping(d: string)
  {
    d == [] || ((IsDigit(d[0]) || (d[0] == '_' && (|d| > 1 ==> d[1] != '_'))) && Grouping(d[1..]))
  }

  /** Digits grouped by single underscores: "7", "1_000"; not "", "_1", "1_", "1__0". */
  predicate WellFormedDigits(d: string)
  {
    |d| > 0 && IsDigit(d[0]) && IsDigit(d[|d| - 1]) && Grouping(d)
  }

  /** The scan `Grouping` agrees with the position-wise description of the grammar. */
  lemma {:induction false} GroupingIff(d: string)
    ensures Grouping(d) <==>
      && (forall k :: 0 <= k < |d| ==> IsDigit(d[k]) || d[k] == '_')
      && (forall k :: 0 <= k < |d| - 1 ==> d[k] == '_' ==> d[k + 1] != '_')
  {
    if d != [] {
      GroupingIff(d[1..]);
      assert forall k :: 0 < k < |d| ==> d[k] == d[1..][k - 1];
    }
  }

  /** The number the digits of `d` spell, underscores ignored. */
  function DigitsValue(d: string): nat
  {
    if d == [] then 0
    else if d[|d| - 1] == '_' then DigitsValue(d[..|d| - 1])
    else 10 * DigitsValue(d[..|d| - 1]) + DigitValue(d[|d| - 1])
  }

  /** `int(s)`: `Some(n)` where Python returns `n`, `None` where it raises `ValueError`. */
  function ParseInt(s: string): Option<int>
  {
    var t := TrimRight(TrimLeft(s));
    var negative := t != [] && t[0] == '-';
    var body := if t != [] && (t[0] == '-' || t[0] == '+') then t[1..] else t;
    var value: int := DigitsValue(body);
    if WellFormedDigits(body) then Some(if negative then -value else value) else None
  }

  /** The canonical decimal text of `n`, as `str(n)` writes it. */
  function Decimal(n: nat): (s: string)
    ensures |s| > 0
    ensures forall k :: 0 <= k < |s| ==> IsDigit(s[k])
    decreases n
  {
    if n < 10 then [DigitChar(n)] else Decimal(n / 10) + [DigitChar(n % 10)]
  }

  lemma {:induction false} DecimalValue(n: nat)
    ensures DigitsValue(Decimal(n)) == n
    decreases n
  {
    var s := Decimal(n);
    if n < 10 {
      assert s[..0] == [];
    } else {
      assert s[..|s| - 1] == Decimal(n / 10);
      DecimalValue(n / 10);
    }
  }

  lemma DigitIsNotSpace(c: char)
    requires IsDigit(c)
    ensures !IsSpace(c) && c != '-' && c != '+' && c != '_'
  {
  }

  /** `int(str(n)) == n` for every non-negative `n`. */
  lemma ParseDecimal(n: nat)
    ensures ParseInt(Decimal(n)) == Some(n)
  {
    var s := Decimal(n);
    GroupingIff(s);
    DigitIsNotSpace(s[0]);
    DigitIsNotSpace(s[|s| - 1]);
    assert TrimLeft(s) == s;
    assert TrimRight(s) == s;
    DecimalValue(n);
  }

  /** `int("-" + str(n)) == -n`. */
  lemma ParseNegated(n: nat)
    ensures ParseInt("-" + Decimal(n)) == Some(-(n as int))
  {
    var d := Decimal(n);
    GroupingIff(d);
    var s := "-" + d;
    DigitIsNotSpace(d[|d| - 1]);
    assert s[|s| - 1] == d[|d| - 1];
    assert TrimLeft(s) == s;
    assert TrimRight(s) == s;
    assert s[1..] == d;
    DecimalValue(n);
  }

  /** Trimming never drops a character that is not whitespace. */
  lemma {:induction false} TrimKeeps(s: string, c: char)
    requires c in s && !IsSpace(c)
    ensures c in TrimLeft(s) && c in TrimRight(s)
  {
    if s != [] && IsSpace(s[0]) {
      assert c in s[1..];
      TrimKeeps(s[1..], c);
    }
    if s != [] && IsSpace(s[|s| - 1]) {
      assert c in s[..|s| - 1];
      TrimKeeps(s[..|s| - 1], c);
    }
  }

  /** Text holding a character that is neither a digit, whitespace, a sign nor `_` makes `int()` raise. */
  lemma ParseRejects(s: string, k: nat)
    requires k < |s| && !IsDigit(s[k]) && !IsSpace(s[k]) && s[k] != '+' && s[k] != '-' && s[k] != '_'
    ensures ParseInt(s) == None
  {
    var c := s[k];
    TrimKeeps(s, c);
    TrimKeeps(TrimLeft(s), c);
    var t := TrimRight(TrimLeft(s));
    var body := if t != [] && (t[0] == '-' || t[0] == '+') then t[1..] else t;
    assert c in body by {
      var i :| 0 <= i < |t| && t[i] == c;
      if t != [] && (t[0] == '-' || t[0] == '+') { assert body[i - 1] == c; }
    }
    GroupingIff(body);
  }

  /** The ASCII separators U+001C to U+001F are not whitespace to `int()`: `int("\x1c5")` raises. */
  lemma SeparatorRejected(c: char, n: nat)
    requires '\U{1C}' <= c <= '\U{1F}'
    ensures ParseInt([c] + Decimal(n)) == None
  {
    ParseRejects([c] + Decimal(n), 0);
  }

  /** Empty or blank text, and a bare sign, make `int()` raise. */
  lemma ParseRejectsBlank(s: string)
    requires forall k :: 0 <= k < |s| ==> IsSpace(s[k]) || s[k] == '+' || s[k] == '-'
    ensures ParseInt(s) == None
  {
    var t := TrimRight(TrimLeft(s));
    var body := if t != [] && (t[0] == '-' || t[0] == '+') then t[1..] else t;
    assert forall c :: c in t ==> c in s by {
      TrimSubset(s);
      TrimSubset(TrimLeft(s));
    }
    if |body| > 0 {
      assert body[0] in t;
    }
  }

  /** Trimming only removes characters. */
  lemma {:induction false} TrimSubset(s: string)
    ensures forall c :: c in TrimLeft(s) ==> c in s
    ensures forall c :: c in TrimRight(s) ==> c in s
  {
    if s != [] && IsSpace(s[0]) {
      TrimSubset(s[1..]);
    }
    if s != [] && IsSpace(s[|s| - 1]) {
      TrimSubset(s[..|s| - 1]);
    }
  }
}
