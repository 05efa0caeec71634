/**
 * The JavaScript string operations the product controller relies on: `parseInt`,
 * `Number` on a string, decimal rendering, and `split` on a separator.
 */
module JsText {
  import opened Common

  /** The white space that `trim`, `parseInt` and `Number` skip (ASCII, no-break space, BOM). */
  predicate IsSpace(c: char)
  {
    c == ' ' || c == '\t' || c == '\n' || c == '\r' || c == '\U{000B}' || c == '\U{000C}'
    || c == '\U{00A0}' || c == '\U{FEFF}'
  }

  /** A digit of radix 10 or 16. */
  predicate IsDigitOf(c: char, radix: nat)
  {
    if radix == 16 then '0' <= c <= '9' || 'a' <= c <= 'f' || 'A' <= c <= 'F'
    else '0' <= c <= '9'
  }

  function DigitValue(c: char): (r: nat)
    requires IsDigitOf(c, 16)
    ensures r < 16 && (IsDigitOf(c, 10) ==> r < 10)
  {
    if '0' <= c <= '9' then c as int - '0' as int
    else if 'a' <= c <= 'f' then c as int - 'a' as int + 10
    else c as int - 'A' as int + 10
  }

  /** The character of a decimal digit. */
  function DigitChar(d: nat): (c: char)
    requires d < 10
    ensures IsDigitOf(c, 10) && DigitValue(c) == d
  {
    ('0' as int + d) as char
  }

  /** `s` without its leading white space. */
  function TrimStart(s: string): (r: string)
    ensures |r| <= |s|
    ensures r == [] || !IsSpace(r[0])
  {
    if s != [] && IsSpace(s[0]) then TrimStart(s[1..]) else s
  }

  /** `s` without its trailing white space. */
  function TrimEnd(s: string): (r: string)
    ensures |r| <= |s|
    ensures r == [] || !IsSpace(r[|r| - 1])
  {
    if s != [] && IsSpace(s[|s| - 1]) then TrimEnd(s[..|s| - 1]) else s
  }

  /** The length of the run of radix digits at the start of `s`. */
  function DigitRun(s: string, radix: nat): (n: nat)
    ensures n <= |s|
    ensures forall i :: 0 <= i < n ==> IsDigitOf(s[i], radix)
    ensures n == |s| || !IsDigitOf(s[n], radix)
  {
    if s != [] && IsDigitOf(s[0], radix) then 1 + DigitRun(s[1..], radix) else 0
  }

  /** The value of a string of radix digits, most significant first. */
  function ValueOf(ds: string, radix: nat): nat
    requires radix == 10 || radix == 16
    requires forall i :: 0 <= i < |ds| ==> IsDigitOf(ds[i], radix)
  {
    if ds == [] then 0
    else
      var last := ds[|ds| - 1];
      assert IsDigitOf(last, radix);
      ValueOf(ds[..|ds| - 1], radix) * radix + DigitValue(last)
  }

  /** `0x` or `0X` opens `s`. */
  predicate HexPrefixed(s: string)
  {
    |s| >= 2 && s[0] == '0' && (s[1] == 'x' || s[1] == 'X')
  }

  /** Whether one sign opens `t` and is a minus, and what follows the sign. */
  function Unsigned(t: string): (r: (bool, string))
    ensures r.0 <==> t != [] && t[0] == '-'
    ensures r.1 == if t != [] && (t[0] == '-' || t[0] == '+') then t[1..] else t
  {
    if t != [] && (t[0] == '-' || t[0] == '+') then (t[0] == '-', t[1..]) else (false, t)
  }

  /** `v`, negated when `negative`. */
  function Signed(negative: bool, v: nat): int
  {
    if negative then -(v as int) else v
  }

  /**
   * The digits `parseInt` reads after the sign: a `0x` prefix selects radix 16, and the
   * longest run of digits that follows is read; `None` when that run is empty.
   */
  function LeadingValue(body: string): Option<nat>
  {
    var radix := if HexPrefixed(body) then 16 else 10;
    var digits := if HexPrefixed(body) then body[2..] else body;
    var n := DigitRun(digits, radix);
    if n == 0 then None else Some(ValueOf(digits[..n], radix))
  }

  /**
   * `parseInt(s)` with no radix: leading white space and one sign are skipped, then the
   * digits are read as `LeadingValue` does; `None` (NaN) when there are none. Whatever
   * follows the digits is ignored.
   */
  function ParseInt(s: string): Option<int>
  {
    ReadLeadingInt(TrimStart(s))
  }

  /** `parseInt` after the leading white space. */
  function ReadLeadingInt(t: string): Option<int>
  {
    var u := Unsigned(t);
    match LeadingValue(u.1)
    case None => None
    case Some(v) => Some(Signed(u.0, v))
  }

  /** The value of a whole string of radix digits; `None` unless there is at least one and nothing else. */
  function WholeValue(digits: string, radix: nat): Option<nat>
    requires radix == 10 || radix == 16
  {
    if digits != [] && DigitRun(digits, radix) == |digits| then Some(ValueOf(digits, radix)) else None
  }

  /** `s.trim()`. */
  function Trim(s: string): string
  {
    TrimEnd(TrimStart(s))
  }

  /** A string that neither opens nor closes with white space is its own trim. */
  lemma TrimUnspaced(s: string)
    requires s == [] || (!IsSpace(s[0]) && !IsSpace(s[|s| - 1]))
    ensures Trim(s) == s
  {
  }

  /** A string that does not close with white space keeps its last character through `trimStart`. */
  lemma {:induction false} TrimStartKeepsLast(s: string)
    requires s != [] && !IsSpace(s[|s| - 1])
    ensures var r := TrimStart(s); r != [] && r[|r| - 1] == s[|s| - 1]
  {
    if IsSpace(s[0]) {
      TrimStartKeepsLast(s[1..]);
    }
  }

  /** A string that does not close with white space does not trim to nothing. */
  lemma TrimKeepsLast(s: string)
    requires s != [] && !IsSpace(s[|s| - 1])
    ensures Trim(s) != []
  {
    TrimStartKeepsLast(s);
  }

  /**
   * `Number(s)` for the integer forms: the whole trimmed string must be read; the empty
   * string is 0.
   */
  function ToNumber(s: string): Option<int>
  {
    ReadNumber(Trim(s))
  }

  /** `Number` on a trimmed string: a sign may precede decimal digits but not a `0x` prefix. */
  function ReadNumber(t: string): Option<int>
  {
    if t == [] then Some(0)
    else if HexPrefixed(t) then
      match WholeValue(t[2..], 16)
      case None => None
      case Some(v) => Some(v)
    else
      var u := Unsigned(t);
      match WholeValue(u.1, 10)
      case None => None
      case Some(v) => Some(Signed(u.0, v))
  }

  /** The decimal digits of `n`, most significant first, with no leading zero. */
  function ShowNat(n: nat): (r: string)
    ensures |r| >= 1
    ensures forall i :: 0 <= i < |r| ==> IsDigitOf(r[i], 10)
    ensures ValueOf(r, 10) == n
    ensures r[0] == '0' ==> n == 0 && |r| == 1
  {
    if n < 10 then [DigitChar(n)]
    else
      var r := ShowNat(n / 10) + [DigitChar(n % 10)];
      assert r[..|r| - 1] == ShowNat(n / 10);
      r
  }

  /** `String(n)` for an integer. */
  function Show(n: int): string
  {
    if n < 0 then "-" + ShowNat(-n) else ShowNat(n)
  }

  /** A whole run of digits is read in full. */
  lemma DigitRunAll(s: string, radix: nat)
    requires forall i :: 0 <= i < |s| ==> IsDigitOf(s[i], radix)
    ensures DigitRun(s, radix) == |s|
  {
  }

  /** Decimal digits with no leading zero, the form `String` writes. */
  predicate Canonical(digits: string)
  {
    && digits != []
    && (forall i :: 0 <= i < |digits| ==> IsDigitOf(digits[i], 10))
    && (digits[0] == '0' ==> |digits| == 1)
  }

  /** `String(n)` is a minus for a negative `n`, then the canonical digits of its magnitude. */
  lemma ShowForm(n: int)
    ensures Canonical(ShowNat(if n < 0 then -n else n))
    ensures Show(n) == (if n < 0 then "-" else "") + ShowNat(if n < 0 then -n else n)
  {
  }

  /** Canonical digits never open with `0x`, whatever follows them. */
  lemma CanonicalNotHex(digits: string, tail: string)
    requires Canonical(digits)
    requires tail == [] || (tail[0] != 'x' && tail[0] != 'X')
    ensures !HexPrefixed(digits + tail)
  {
    if |digits| == 1 && tail != [] {
      assert (digits + tail)[1] == tail[0];
    } else if |digits| > 1 {
      assert (digits + tail)[0] == digits[0];
    }
  }

  /** After the sign, `parseInt` reads canonical digits and stops where they end. */
  lemma LeadingValueOf(digits: string, tail: string)
    requires Canonical(digits)
    requires tail == [] || (!IsDigitOf(tail[0], 10) && tail[0] != 'x' && tail[0] != 'X')
    ensures LeadingValue(digits + tail) == Some(ValueOf(digits, 10))
  {
    CanonicalNotHex(digits, tail);
    DigitRunStops(digits, tail, 10);
    assert (digits + tail)[..|digits|] == digits;
  }

  /**
   * `parseInt` reads back what `String` writes, after any leading white space and before
   * any tail that does not continue the number.
   */
  lemma ParseIntShow(lead: string, n: int, tail: string)
    requires forall i :: 0 <= i < |lead| ==> IsSpace(lead[i])
    requires tail == [] || (!IsDigitOf(tail[0], 10) && tail[0] != 'x' && tail[0] != 'X')
    ensures ParseInt(lead + Show(n) + tail) == Some(n)
  {
    assert lead + Show(n) + tail == lead + (Show(n) + tail);
    TrimStartSkips(lead, Show(n) + tail);
    ReadShow(n, tail);
  }

  /** `parseInt(String(n))` is `n`. */
  lemma ParseIntOfShow(n: int)
    ensures ParseInt(Show(n)) == Some(n)
  {
    var t := Show(n);
    assert t + [] == t;
    ReadShow(n, []);
    if n < 0 {
      assert t[0] == '-';
    } else {
      assert IsDigitOf(ShowNat(n)[0], 10);
    }
    assert !IsSpace(t[0]);
    assert TrimStart(t) == t;
  }

  /** Past the white space, `parseInt` reads the sign and digits of `n` and stops where they end. */
  lemma ReadShow(n: int, tail: string)
    requires tail == [] || (!IsDigitOf(tail[0], 10) && tail[0] != 'x' && tail[0] != 'X')
    ensures ReadLeadingInt(Show(n) + tail) == Some(n)
  {
    if n < 0 {
      ReadShowNegative(n, tail);
    } else {
      ShowForm(n);
      ReadDigits(ShowNat(n), tail);
    }
  }

  /** Past the white space, `parseInt` reads the minus and the digits of a negative `n`. */
  lemma ReadShowNegative(n: int, tail: string)
    requires n < 0
    requires tail == [] || (!IsDigitOf(tail[0], 10) && tail[0] != 'x' && tail[0] != 'X')
    ensures ReadLeadingInt(Show(n) + tail) == Some(n)
  {
    var digits := ShowNat(-n);
    var body := digits + tail;
    assert Show(n) + tail == ['-'] + body;
    LeadingValueOf(digits, tail);
    ReadAfterMinus(body);
  }

  /** `parseInt` past the white space on canonical digits and a tail. */
  lemma ReadDigits(digits: string, tail: string)
    requires Canonical(digits)
    requires tail == [] || (!IsDigitOf(tail[0], 10) && tail[0] != 'x' && tail[0] != 'X')
    ensures ReadLeadingInt(digits + tail) == Some(ValueOf(digits, 10))
  {
    LeadingValueOf(digits, tail);
    ReadUnsigned(digits, tail);
  }

  /** A minus negates what `parseInt` reads after it. */
  lemma ReadAfterMinus(body: string)
    requires LeadingValue(body).Some?
    ensures ReadLeadingInt(['-'] + body) == Some(-(LeadingValue(body).value as int))
  {
    UnsignedMinus(body);
  }

  /** Digits with no sign are read as they stand. */
  lemma ReadUnsigned(digits: string, tail: string)
    requires Canonical(digits)
    requires LeadingValue(digits + tail).Some?
    ensures ReadLeadingInt(digits + tail) == Some(LeadingValue(digits + tail).value)
  {
    assert (digits + tail)[0] == digits[0];
    assert IsDigitOf(digits[0], 10);
  }

  /** A minus opens a negative number. */
  lemma UnsignedMinus(body: string)
    ensures Unsigned(['-'] + body) == (true, body)
  {
    assert (['-'] + body)[1..] == body;
  }

  /** `Number` reads back what `String` writes. */
  lemma ToNumberShow(n: int)
    ensures ToNumber(Show(n)) == Some(n)
  {
    var m: nat := if n < 0 then -n else n;
    var digits := ShowNat(m);
    var s := Show(n);
    assert s[|s| - 1] == digits[|digits| - 1];
    TrimUnspaced(s);
    ReadNumberShow(n);
  }

  /**
   * `Number` is NaN on text that neither opens nor closes with white space and is not a
   * number: it does not open with `0`, and either ends in something other than a digit or
   * opens with something other than a digit or a sign.
   */
  lemma ToNumberRejects(s: string)
    requires s != [] && !IsSpace(s[0]) && !IsSpace(s[|s| - 1]) && s[0] != '0'
    requires !IsDigitOf(s[|s| - 1], 10) || (!IsDigitOf(s[0], 10) && s[0] != '-' && s[0] != '+')
    ensures ToNumber(s) == None
  {
    TrimUnspaced(s);
    var u := Unsigned(s).1;
    assert u != [] ==> u[|u| - 1] == s[|s| - 1];
    assert s[0] != '-' && s[0] != '+' ==> u == s;
  }

  /** `Number` on the trimmed text of `n` gives `n`. */
  lemma ReadNumberShow(n: int)
    ensures ReadNumber(Show(n)) == Some(n)
  {
    var m: nat := if n < 0 then -n else n;
    ShowForm(n);
    ReadNumberSigned(n < 0, ShowNat(m));
  }

  /** `Number` on a trimmed optional minus and canonical digits. */
  lemma ReadNumberSigned(negative: bool, digits: string)
    requires Canonical(digits)
    ensures ReadNumber((if negative then "-" else "") + digits) == Some(Signed(negative, ValueOf(digits, 10)))
  {
    assert IsDigitOf(digits[0], 10);
    DigitRunAll(digits, 10);
    assert WholeValue(digits, 10) == Some(ValueOf(digits, 10));
    if negative {
      UnsignedMinus(digits);
      assert "-" + digits == ['-'] + digits;
    } else {
      CanonicalNotHex(digits, []);
      assert digits + [] == digits;
      assert "" + digits == digits;
    }
  }

  /** Leading white space is skipped up to the first other character. */
  lemma {:induction false} TrimStartSkips(lead: string, rest: string)
    requires forall i :: 0 <= i < |lead| ==> IsSpace(lead[i])
    requires rest == [] || !IsSpace(rest[0])
    ensures TrimStart(lead + rest) == rest
  {
    if lead != [] {
      assert (lead + rest)[1..] == lead[1..] + rest;
      TrimStartSkips(lead[1..], rest);
    }
  }

  /** A digit run ends where the digits do. */
  lemma {:induction false} DigitRunStops(digits: string, tail: string, radix: nat)
    requires forall i :: 0 <= i < |digits| ==> IsDigitOf(digits[i], radix)
    requires tail == [] || !IsDigitOf(tail[0], radix)
    ensures DigitRun(digits + tail, radix) == |digits|
  {
    if digits != [] {
      assert (digits + tail)[1..] == digits[1..] + tail;
      DigitRunStops(digits[1..], tail, radix);
    }
  }

  // ---------------------------------------------------------------------------
  // split and join

  /** `s.split(sep)`: the pieces between separators, in order; the empty string is one empty piece. */
  function Split(s: string, sep: char): (r: seq<string>)
    ensures |r| >= 1
    ensures forall i :: 0 <= i < |r| ==> sep !in r[i]
  {
    if s == [] then [[]]
    else
      var init := Split(s[..|s| - 1], sep);
      var c := s[|s| - 1];
      if c == sep then init + [[]]
      else init[..|init| - 1] + [init[|init| - 1] + [c]]
  }

  /** `parts.join(sep)`. */
  function Join(parts: seq<string>, sep: char): string
  {
    if |parts| == 0 then []
    else if |parts| == 1 then parts[0]
    else Join(parts[..|parts| - 1], sep) + [sep] + parts[|parts| - 1]
  }

  /** Joining the pieces of a split gives back the string. */
  lemma {:induction false} JoinSplit(s: string, sep: char)
    ensures Join(Split(s, sep), sep) == s
  {
    if s != [] {
      var init := Split(s[..|s| - 1], sep);
      JoinSplit(s[..|s| - 1], sep);
      var c := s[|s| - 1];
      if c == sep {
        assert (init + [[]])[..|init|] == init;
      } else {
        var ps := init[..|init| - 1] + [init[|init| - 1] + [c]];
        if |init| == 1 {
          assert ps == [init[0] + [c]];
        } else {
          assert ps[..|ps| - 1] == init[..|init| - 1];
          assert Join(init, sep) == Join(init[..|init| - 1], sep) + [sep] + init[|init| - 1];
        }
      }
      assert s == s[..|s| - 1] + [c];
    }
  }

  /** A string without the separator splits into itself alone. */
  lemma {:induction false} SplitWhole(s: string, sep: char)
    requires sep !in s
    ensures Split(s, sep) == [s]
  {
    if s != [] {
      SplitWhole(s[..|s| - 1], sep);
      assert s == s[..|s| - 1] + [s[|s| - 1]];
    }
  }

  /** One more character either starts a new piece or extends the last one. */
  lemma SplitSnoc(s: string, c: char, sep: char)
    ensures var ps := Split(s, sep);
      Split(s + [c], sep) == if c == sep then ps + [[]] else ps[..|ps| - 1] + [ps[|ps| - 1] + [c]]
  {
    assert (s + [c])[..|s|] == s;
  }

  /** Splitting around one separator splits each side. */
  lemma {:induction false} SplitAround(x: string, y: string, sep: char)
    ensures Split(x + [sep] + y, sep) == Split(x, sep) + Split(y, sep)
  {
    if y == [] {
      SplitSnoc(x, sep, sep);
      assert x + [sep] + y == x + [sep];
    } else {
      var y' := y[..|y| - 1];
      var c := y[|y| - 1];
      SplitAround(x, y', sep);
      assert x + [sep] + y == (x + [sep] + y') + [c];
      assert y == y' + [c];
      SplitSnoc(x + [sep] + y', c, sep);
      SplitSnoc(y', c, sep);
      ExtendPieces(Split(x, sep), Split(y', sep), c, sep);
    }
  }

  /** Extending the last piece of `a + b` extends the last piece of `b`. */
  lemma ExtendPieces(a: seq<string>, b: seq<string>, c: char, sep: char)
    requires |b| >= 1
    ensures var ab := a + b;
      (if c == sep then ab + [[]] else ab[..|ab| - 1] + [ab[|ab| - 1] + [c]])
      == a + (if c == sep then b + [[]] else b[..|b| - 1] + [b[|b| - 1] + [c]])
  {
    var ab := a + b;
    if c != sep {
      assert ab[..|ab| - 1] == a + b[..|b| - 1];
    }
  }

  /** Splitting pieces joined by a separator none of them holds gives back the pieces. */
  lemma {:induction false} SplitJoin(parts: seq<string>, sep: char)
    requires |parts| >= 1 && forall i :: 0 <= i < |parts| ==> sep !in parts[i]
    ensures Split(Join(parts, sep), sep) == parts
  {
    if |parts| == 1 {
      SplitWhole(parts[0], sep);
    } else {
      var init := parts[..|parts| - 1];
      SplitJoin(init, sep);
      SplitAround(Join(init, sep), parts[|parts| - 1], sep);
      SplitWhole(parts[|parts| - 1], sep);
      assert parts == init + [parts[|parts| - 1]];
    }
  }
}
