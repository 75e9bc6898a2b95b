/** Python's `int(text)` for base 10 and the decimal rendering `f"{n}"`, as the snapshot
    numbering uses them to read file stems back and to name the next file. */
module PyInt {
  import opened Wrappers

  /** The white space `int()` ignores at both ends: below U+007F only space, tab, line feed,
      vertical tab, form feed and carriage return (the separators U+001C to U+001F, which
      `str.isspace` accepts, are refused); from U+007F on, every character `str.isspace`
      accepts, which `int()` first turns into a space. */
  predicate IsSpace(c: char)
  {
    ('\t' <= c <= '\r') || c == ' ' || c == '\U{85}' || c == '\U{A0}'
    || c == '\U{1680}' || ('\U{2000}' <= c <= '\U{200A}') || c == '\U{2028}' || c == '\U{2029}'
    || c == '\U{202F}' || c == '\U{205F}' || c == '\U{3000}'
  }

  predicate IsDigit(c: char)
  {
    '0' <= c <= '9'
  }

  function DigitValue(c: char): (d: nat)
    requires IsDigit(c)
    ensures d < 10
  {
    c as int - '0' as int
  }

  function DigitChar(d: nat): (c: char)
    requires d < 10
    ensures IsDigit(c) && DigitValue(c) == d
  {
    ('0' as int + d) as char
  }

  /** Where a left-to-right reading of an integer literal stands. */
  datatype Phase =
    | Leading                                          // white space only, so far
    | Signed(negative: bool)                           // a sign, no digit yet
    | InDigits(negative: bool, value: nat, afterUnderscore: bool)
    | Trailing(negative: bool, value: nat)             // white space after the digits
    | Rejected

  /** The phase after one more character: white space at both ends, an optional sign, then
      digits with single underscores between them. */
  function Step(p: Phase, c: char): Phase
  {
    match p
    case Leading =>
      if IsSpace(c) then Leading
      else if c == '+' then Signed(false)
      else if c == '-' then Signed(true)
      else if IsDigit(c) then InDigits(false, DigitValue(c), false)
      else Rejected
    case Signed(neg) =>
      if IsDigit(c) then InDigits(neg, DigitValue(c), false) else Rejected
    case InDigits(neg, v, u) =>
      if IsDigit(c) then InDigits(neg, 10 * v + DigitValue(c), false)
      else if c == '_' && !u then InDigits(neg, v, true)
      else if IsSpace(c) && !u then Trailing(neg, v)
      else Rejected
    case Trailing(neg, v) =>
      if IsSpace(c) then Trailing(neg, v) else Rejected
    case Rejected => Rejected
  }

  /** The value read once the text is exhausted: only a digit (possibly followed by white
      space) may end a literal. */
  function Finish(p: Phase): Option<int>
  {
    match p
    case InDigits(neg, v, u) => if u then None else Some(WithSign(neg, v))
    case Trailing(neg, v) => Some(WithSign(neg, v))
    case _ => None
  }

  function WithSign(negative: bool, v: nat): int
  {
    if negative then 0 - v else v
  }

  /** The characters of `s` from position `i` on, read from phase `p`. */
  function Scan(s: string, i: nat, p: Phase): Option<int>
    requires i <= |s|
    decreases |s| - i
  {
    if i == |s| then Finish(p) else Scan(s, i + 1, Step(p, s[i]))
  }

  /** `int(s)`: `Some(n)` when `s` is, after white space is stripped at both ends, an
      optional `+` or `-` followed by decimal digits with single underscores between them;
      `None` where Python raises `ValueError`. */
  function ParseInt(s: string): Option<int>
  {
    Scan(s, 0, Leading)
  }

  /** The value of a string of decimal digits. */
  function DigitsValue(b: string): nat
    requires forall k :: 0 <= k < |b| ==> IsDigit(b[k])
  {
    if b == [] then 0 else 10 * DigitsValue(b[..|b| - 1]) + DigitValue(b[|b| - 1])
  }

  /** Decimal digits of a natural number, most significant first, no leading zeros. */
  function ShowNat(n: nat): (s: string)
    ensures |s| > 0 && forall i :: 0 <= i < |s| ==> IsDigit(s[i])
  {
    if n < 10 then [DigitChar(n)] else ShowNat(n / 10) + [DigitChar(n % 10)]
  }

  /** `f"{n}"`: the decimal form of `n`, with a leading `-` when negative. */
  function Show(n: int): (s: string)
    ensures |s| > 0 && !IsSpace(s[0]) && IsDigit(s[|s| - 1])
  {
    if n < 0 then "-" + ShowNat(-n) else ShowNat(n)
  }

  lemma {:induction false} ShowNatValue(n: nat)
    ensures DigitsValue(ShowNat(n)) == n
  {
    var s := ShowNat(n);
    if n >= 10 {
      assert s[..|s| - 1] == ShowNat(n / 10);
      ShowNatValue(n / 10);
    }
  }

  /** Reading a run of digits `s[start..j]` accumulates its value. */
  lemma {:induction false} ScanDigits(s: string, start: nat, j: nat, neg: bool)
    requires start < j <= |s|
    requires forall k :: start <= k < j ==> IsDigit(s[k])
    ensures forall k :: 0 <= k < |s[start..j]| ==> IsDigit(s[start..j][k])
    ensures Scan(s, start + 1, InDigits(neg, DigitValue(s[start]), false)) ==
            Scan(s, j, InDigits(neg, DigitsValue(s[start..j]), false))
  {
    assert forall k :: 0 <= k < |s[start..j]| ==> s[start..j][k] == s[start + k];
    if j > start + 1 {
      ScanDigits(s, start, j - 1, neg);
      assert s[start..j][..j - start - 1] == s[start..j - 1];
    } else {
      assert s[start..j] == [s[start]] && [s[start]][..0] == [];
    }
  }

  /** Reading back the decimal form of any integer gives that integer: `int(f"{n}") == n`. */
  lemma ParseShow(n: int)
    ensures ParseInt(Show(n)) == Some(n)
  {
    var s := Show(n);
    var m: nat := if n < 0 then -n else n;
    var digits := ShowNat(m);
    ShowNatValue(m);
    var start := if n < 0 then 1 else 0;
    assert s[start..] == digits;
    assert s[start..|s|] == digits;
    ScanDigits(s, start, |s|, n < 0);
    if n < 0 {
      assert Scan(s, 0, Leading) == Scan(s, 1, Signed(true));
    }
  }

  /** One more leading character shifts every position by one. */
  lemma {:induction false} ScanShift(c: char, s: string, i: nat, p: Phase)
    requires i <= |s|
    ensures Scan([c] + s, i + 1, p) == Scan(s, i, p)
    decreases |s| - i
  {
    if i < |s| {
      assert ([c] + s)[i + 1] == s[i];
      ScanShift(c, s, i + 1, Step(p, s[i]));
    }
  }

  /** `int()` ignores leading white space. */
  lemma LeadingSpace(c: char, s: string)
    requires IsSpace(c)
    ensures ParseInt([c] + s) == ParseInt(s)
  {
    ScanShift(c, s, 0, Leading);
  }

  /** A white space character at the end changes nothing about what is read. */
  lemma FinishSpace(p: Phase, c: char)
    requires IsSpace(c)
    ensures Finish(Step(p, c)) == Finish(p)
  {
  }

  lemma {:induction false} ScanSnoc(s: string, c: char, i: nat, p: Phase)
    requires IsSpace(c) && i <= |s|
    ensures Scan(s + [c], i, p) == Scan(s, i, p)
    decreases |s| - i
  {
    if i == |s| {
      assert (s + [c])[i] == c;
      FinishSpace(p, c);
    } else {
      assert (s + [c])[i] == s[i];
      ScanSnoc(s, c, i + 1, Step(p, s[i]));
    }
  }

  /** `int()` ignores trailing white space. */
  lemma TrailingSpace(s: string, c: char)
    requires IsSpace(c)
    ensures ParseInt(s + [c]) == ParseInt(s)
  {
    ScanSnoc(s, c, 0, Leading);
  }

  /** Literals `int()` accepts. */
  lemma ParseAccepts()
    ensures ParseInt("1_000") == Some(1000)
    ensures ParseInt("+7") == Some(7) && ParseInt("-0") == Some(0)
    ensures ParseInt(" 12\n") == Some(12)
  {
  }

  /** Stems `int()` rejects with `ValueError`. */
  lemma ParseRejects()
    ensures ParseInt("") == None && ParseInt("  ") == None
    ensures ParseInt("1__0") == None && ParseInt("_1") == None && ParseInt("1_") == None
  {
  }

  /** More stems `int()` rejects: a space after the sign or between digits, and letters. */
  lemma ParseRejectsText()
    ensures ParseInt("- 1") == None && ParseInt("1 2") == None && ParseInt("backup") == None
  {
  }

  /** The information separators U+001C to U+001F are not stripped around a stem, while
      a no-break space U+00A0 is. */
  lemma ParseSeparators()
    ensures ParseInt("\U{1C}5") == None && ParseInt("5\U{1F}") == None
    ensures ParseInt("\U{A0}5") == Some(5)
  {
  }

  /** The characters that may occur in an accepted literal. */
  predicate Allowed(c: char)
  {
    IsDigit(c) || IsSpace(c) || c == '+' || c == '-' || c == '_'
  }

  /** A digit has been read. */
  predicate SeenDigit(p: Phase)
  {
    p.InDigits? || p.Trailing?
  }

  /** Once rejected, the rest of the text is never accepted. */
  lemma {:induction false} ScanRejected(s: string, i: nat)
    requires i <= |s|
    ensures Scan(s, i, Rejected) == None
    decreases |s| - i
  {
    if i < |s| {
      ScanRejected(s, i + 1);
    }
  }

  /** What reading from position `i` in phase `p` accepts uses only allowed characters, and
      contains a digit unless one was read before `i`. */
  lemma {:induction false} ScanAlphabet(s: string, i: nat, p: Phase)
    requires i <= |s| && Scan(s, i, p).Some?
    ensures forall k :: i <= k < |s| ==> Allowed(s[k])
    ensures SeenDigit(p) || exists k :: i <= k < |s| && IsDigit(s[k])
    decreases |s| - i
  {
    if i < |s| {
      var q := Step(p, s[i]);
      if !Allowed(s[i]) {
        assert q == Rejected;
        ScanRejected(s, i + 1);
        assert false;
      }
      ScanAlphabet(s, i + 1, q);
      if SeenDigit(q) && !SeenDigit(p) {
        assert IsDigit(s[i]);
      }
    }
  }

  /** `int()` accepts only text made of digits, white space, signs and underscores, with at
      least one digit. */
  lemma ParseAlphabet(s: string)
    requires ParseInt(s).Some?
    ensures forall k :: 0 <= k < |s| ==> Allowed(s[k])
    ensures exists k :: 0 <= k < |s| && IsDigit(s[k])
  {
    ScanAlphabet(s, 0, Leading);
  }

  /** Two distinct integers never have the same decimal form. */
  lemma ShowInjective(m: int, n: int)
    requires Show(m) == Show(n)
    ensures m == n
  {
    ParseShow(m);
    ParseShow(n);
  }
}
