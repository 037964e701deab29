/**
 * The string operations the application relies on: `str.strip()`, `str.lower()`,
 * `str.split(',')` and `int(str)`. Unicode case mapping and the whitespace table
 * are not spelled out; they are supplied as `CharRules`.
 */
module Text {
  import opened Common

  /** Per-character lower-casing and the whitespace test used by `strip`. */
  datatype CharRules = CharRules(lower: char -> char, isSpace: char -> bool)
  {
    /** The facts about lower-casing and whitespace the lemmas below rely on. */
    ghost predicate Valid() {
      && (forall c :: lower(lower(c)) == lower(c))
      && (forall c :: !isSpace(c) ==> !isSpace(lower(c)))
      && (forall c :: IsDigit(c) ==> !isSpace(c))
      && !isSpace('-') && !isSpace('+')
    }
  }

  /** `s.lower()`, character by character. */
  function Lower(rules: CharRules, s: string): string {
    seq(|s|, i requires 0 <= i < |s| => rules.lower(s[i]))
  }

  /** Lower-casing twice is lower-casing once. */
  lemma LowerIdempotent(rules: CharRules, s: string)
    requires rules.Valid()
    ensures Lower(rules, Lower(rules, s)) == Lower(rules, s)
  {
  }

  /** Number of whitespace characters at the front of `s`. */
  function SpanStart(rules: CharRules, s: string): (i: nat)
    ensures i <= |s|
    ensures forall k :: 0 <= k < i ==> rules.isSpace(s[k])
    ensures i < |s| ==> !rules.isSpace(s[i])
    decreases |s|
  {
    if s == [] || !rules.isSpace(s[0]) then 0 else 1 + SpanStart(rules, s[1..])
  }

  /** Length of `s` without its trailing whitespace. */
  function SpanEnd(rules: CharRules, s: string): (j: nat)
    ensures j <= |s|
    ensures forall k :: j <= k < |s| ==> rules.isSpace(s[k])
    ensures j > 0 ==> !rules.isSpace(s[j - 1])
    decreases |s|
  {
    if s == [] || !rules.isSpace(s[|s| - 1]) then |s| else SpanEnd(rules, s[..|s| - 1])
  }

  /** `s.strip()`: the middle of `s` once leading and trailing whitespace is removed. */
  function Strip(rules: CharRules, s: string): (r: string)
    ensures r == [] || (!rules.isSpace(r[0]) && !rules.isSpace(r[|r| - 1]))
    ensures r == [] <==> forall k :: 0 <= k < |s| ==> rules.isSpace(s[k])
    ensures var i := SpanStart(rules, s);
      && i + |r| <= |s|
      && r == s[i..i + |r|]
      && forall k :: i + |r| <= k < |s| ==> rules.isSpace(s[k])
  {
    var i := SpanStart(rules, s);
    var t := s[i..];
    var r := t[..SpanEnd(rules, t)];
    assert r != [] ==> r[0] == s[i];
    r
  }

  /** `s.split(sep)`: the pieces between separators, always at least one. */
  function Split(s: string, sep: char): (parts: seq<string>)
    ensures |parts| >= 1
    ensures forall p :: p in parts ==> sep !in p
    decreases |s|
  {
    if s == [] then [[]]
    else
      var rest := Split(s[1..], sep);
      if s[0] == sep then [[]] + rest
      else [[s[0]] + rest[0]] + rest[1..]
  }

  /** `sep.join(parts)`. */
  function Join(parts: seq<string>, sep: char): string
    requires |parts| >= 1
  {
    if |parts| == 1 then parts[0] else parts[0] + [sep] + Join(parts[1..], sep)
  }

  /** Joining the pieces of a split gives back the text. */
  lemma {:induction false} JoinSplit(s: string, sep: char)
    ensures Join(Split(s, sep), sep) == s
    decreases |s|
  {
    if s != [] {
      var rest := Split(s[1..], sep);
      JoinSplit(s[1..], sep);
      if s[0] == sep {
        assert Split(s, sep)[1..] == rest;
      } else if |rest| == 1 {
        assert Split(s, sep) == [[s[0]] + rest[0]];
      } else {
        assert Split(s, sep)[1..] == rest[1..];
        assert Join(rest, sep) == rest[0] + [sep] + Join(rest[1..], sep);
      }
    }
  }

  /** A text without separators is a single piece. */
  lemma {:induction false} SplitNoSeparator(s: string, sep: char)
    requires sep !in s
    ensures Split(s, sep) == [s]
    decreases |s|
  {
    if s != [] {
      SplitNoSeparator(s[1..], sep);
      assert [s[0]] + s[1..] == s;
    }
  }

  /** Splitting at a separator splits the pieces on either side independently. */
  lemma {:induction false} SplitAppend(a: string, b: string, sep: char)
    ensures Split(a + [sep] + b, sep) == Split(a, sep) + Split(b, sep)
    decreases |a|
  {
    var s := a + [sep] + b;
    if a == [] {
      assert s[1..] == b;
    } else {
      assert s[0] == a[0] && s[1..] == a[1..] + [sep] + b;
      SplitAppend(a[1..], b, sep);
      var left := Split(a[1..], sep);
      var rest := Split(s[1..], sep);
      assert rest == left + Split(b, sep);
      if a[0] != sep {
        assert rest[0] == left[0];
        assert rest[1..] == left[1..] + Split(b, sep);
      }
    }
  }

  /** Splitting pieces that have no separator in them, after joining them, gives back the pieces. */
  lemma {:induction false} SplitJoin(parts: seq<string>, sep: char)
    requires |parts| >= 1
    requires forall p :: p in parts ==> sep !in p
    ensures Split(Join(parts, sep), sep) == parts
    decreases |parts|
  {
    SplitNoSeparator(parts[0], sep);
    if |parts| > 1 {
      SplitJoin(parts[1..], sep);
      SplitAppend(parts[0], Join(parts[1..], sep), sep);
      assert [parts[0]] + parts[1..] == parts;
    }
  }

  predicate IsDigit(c: char) {
    '0' <= c <= '9'
  }

  predicate AllDigits(s: string) {
    forall k :: 0 <= k < |s| ==> IsDigit(s[k])
  }

  /** The number a run of decimal digits denotes. */
  function DigitsValue(s: string): nat
    requires AllDigits(s)
  {
    if s == [] then 0
    else 10 * DigitsValue(s[..|s| - 1]) + ((s[|s| - 1] as int) - ('0' as int))
  }

  /**
   * CPython's default limit on the number of digits `int(text)` converts and `str(n)`
   * produces; beyond it both raise `ValueError`.
   */
  const MaxStrDigits: nat := 4300

  /**
   * `int(text)`: optional surrounding whitespace, an optional sign and at least one digit,
   * at most `MaxStrDigits` of them.
   */
  function ParseInt(rules: CharRules, text: string): (r: Option<int>)
    ensures r.Some? <==>
      var t := Strip(rules, text);
      || (t != [] && AllDigits(t) && |t| <= MaxStrDigits)
      || (|t| > 1 && (t[0] == '-' || t[0] == '+') && AllDigits(t[1..]) && |t| - 1 <= MaxStrDigits)
  {
    var t := Strip(rules, text);
    if t != [] && AllDigits(t) then
      if |t| <= MaxStrDigits then Some(DigitsValue(t)) else None
    else if |t| > 1 && (t[0] == '-' || t[0] == '+') && AllDigits(t[1..]) then
      if |t| - 1 <= MaxStrDigits then
        var magnitude: int := DigitsValue(t[1..]);
        Some(if t[0] == '-' then -magnitude else magnitude)
      else None
    else None
  }

  /** Decimal digits of a natural number, most significant first, without leading zeros. */
  function ShowNat(n: nat): (s: string)
    ensures s != [] && AllDigits(s)
  {
    if n < 10 then [('0' as int + n) as char]
    else ShowNat(n / 10) + [('0' as int + n % 10) as char]
  }

  /** `str(n)` for an integer. */
  function ShowInt(n: int): string {
    if n < 0 then "-" + ShowNat(-n) else ShowNat(n)
  }

  lemma {:induction false} DigitsValueShowNat(n: nat)
    ensures DigitsValue(ShowNat(n)) == n
  {
    if n >= 10 {
      var s := ShowNat(n);
      DigitsValueShowNat(n / 10);
      assert s[..|s| - 1] == ShowNat(n / 10);
    }
  }

  /**
   * `int(str(n)) == n`: the decimal text of every integer that `str` can print (at most
   * `MaxStrDigits` digits) parses back to that integer.
   */
  lemma ParseShowInt(rules: CharRules, n: int)
    requires rules.Valid()
    requires |ShowNat(if n < 0 then -n else n)| <= MaxStrDigits
    ensures ParseInt(rules, ShowInt(n)) == Some(n)
  {
    var s := ShowInt(n);
    var digits := if n < 0 then ShowNat(-n) else ShowNat(n);
    assert !rules.isSpace(digits[|digits| - 1]);
    assert !rules.isSpace(s[0]) && !rules.isSpace(s[|s| - 1]);
    assert Strip(rules, s) == s;
    DigitsValueShowNat(if n < 0 then -n else n);
    if n < 0 {
      assert s[1..] == digits;
      assert !IsDigit(s[0]);
    }
  }
}
