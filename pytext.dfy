/** The pieces of Python's text handling that the cleaning step relies on:
    `str.split(",")`, deleting characters (`str.replace(" ", "")` and the
    regular expression `[a-zA-Z\s]+`), the whitespace `strip` that `int()`
    and `float()` apply, and which texts `int()` and `float()` accept. */
module PyText {
  import opened Seqs

  /** The characters for which Python's `str.isspace()` holds; they are what
      `\s` matches in a `str` pattern. */
  predicate IsSpace(c: char) {
    || c == ' '
    || '\t' <= c <= '\r'
    || '\U{1c}' <= c <= '\U{1f}'
    || c == '\U{85}'
    || c == '\U{a0}'
    || c == '\U{1680}'
    || '\U{2000}' <= c <= '\U{200a}'
    || c == '\U{2028}'
    || c == '\U{2029}'
    || c == '\U{202f}'
    || c == '\U{205f}'
    || c == '\U{3000}'
  }

  /** The whitespace `int()` and `float()` strip around a number: every
      `str.isspace()` character but the four separators U+001C to U+001F,
      which make the conversion raise. */
  predicate IsStripSpace(c: char) {
    IsSpace(c) && !('\U{1c}' <= c <= '\U{1f}')
  }

  /** The class `[a-zA-Z]`. */
  predicate IsAsciiLetter(c: char) {
    'a' <= c <= 'z' || 'A' <= c <= 'Z'
  }

  predicate IsUnderscore(c: char) {
    c == '_'
  }

  /** The plain space character, the only one `str.replace(" ", "")` removes. */
  predicate IsBlank(c: char) {
    c == ' '
  }

  predicate IsDigit(c: char) {
    '0' <= c <= '9'
  }

  // ---------------------------------------------------------------------
  // Deleting characters
  // ---------------------------------------------------------------------

  /** `s` with every character that `drop` accepts removed, the others kept
      in order: `re.sub` with a class of single characters, or
      `str.replace(c, "")` for `drop` the test for `c`. */
  function Delete(s: string, drop: char -> bool): (r: string)
    ensures |r| <= |s|
    ensures forall i :: 0 <= i < |r| ==> !drop(r[i]) && r[i] in s
    ensures forall i :: 0 <= i < |s| && !drop(s[i]) ==> s[i] in r
  {
    Filter(s, c => !drop(c))
  }

  /** Deleting is idempotent: a second pass finds nothing left to delete. */
  lemma {:induction false} DeleteIdempotent(s: string, drop: char -> bool)
    ensures Delete(Delete(s, drop), drop) == Delete(s, drop)
  {
    FilterIdempotent(s, c => !drop(c));
  }

  /** Text with no character to delete is left as it is. */
  lemma {:induction false} DeleteNothing(s: string, drop: char -> bool)
    requires forall i :: 0 <= i < |s| ==> !drop(s[i])
    ensures Delete(s, drop) == s
  {
    FilterKeepsAll(s, c => !drop(c));
  }

  /** Text whose every character is deleted leaves nothing. */
  lemma {:induction false} DeleteAll(s: string, drop: char -> bool)
    requires forall i :: 0 <= i < |s| ==> drop(s[i])
    ensures Delete(s, drop) == ""
  {
    FilterKeepsNone(s, c => !drop(c));
  }

  /** Deleting from a concatenation deletes from each part. */
  lemma {:induction false} DeleteAppend(a: string, b: string, drop: char -> bool)
    ensures Delete(a + b, drop) == Delete(a, drop) + Delete(b, drop)
  {
    FilterAppend(a, b, c => !drop(c));
  }

  // ---------------------------------------------------------------------
  // str.split(sep) and its inverse sep.join(parts)
  // ---------------------------------------------------------------------

  /** `s.split(sep)` for a one-character separator: the text between
      consecutive separators, empty pieces included; never an empty list. */
  function Split(s: string, sep: char): (parts: seq<string>)
    ensures |parts| >= 1
  {
    if s == [] then [""]
    else
      var rest := Split(s[1..], sep);
      if s[0] == sep then [""] + rest else [[s[0]] + rest[0]] + rest[1..]
  }

  /** `sep.join(parts)`. */
  function Join(parts: seq<string>, sep: char): string
    requires |parts| >= 1
  {
    if |parts| == 1 then parts[0] else parts[0] + [sep] + Join(parts[1..], sep)
  }

  /** The number of occurrences of `c` in `s`. */
  function Occurrences(s: string, c: char): nat {
    |Filter(s, x => x == c)|
  }

  /** No piece contains the separator, and there is one piece more than
      there are separators in the text. */
  lemma {:induction false} SplitPieces(s: string, sep: char)
    ensures forall i :: 0 <= i < |Split(s, sep)| ==> sep !in Split(s, sep)[i]
    ensures |Split(s, sep)| == Occurrences(s, sep) + 1
  {
    if s != [] {
      SplitPieces(s[1..], sep);
      var rest := Split(s[1..], sep);
      if s[0] != sep {
        assert sep !in [s[0]] + rest[0];
      }
      assert s == [s[0]] + s[1..];
      FilterAppend([s[0]], s[1..], x => x == sep);
    }
  }

  /** Joining the pieces with the separator gives back the text. */
  lemma {:induction false} JoinSplit(s: string, sep: char)
    ensures Join(Split(s, sep), sep) == s
  {
    if s != [] {
      JoinSplit(s[1..], sep);
      var rest := Split(s[1..], sep);
      if s[0] == sep {
        assert Join([""] + rest, sep) == "" + [sep] + Join(rest, sep);
      } else if |rest| == 1 {
        assert Split(s, sep) == [[s[0]] + rest[0]];
      } else {
        var parts := Split(s, sep);
        assert parts[1..] == rest[1..];
        assert Join(rest, sep) == rest[0] + [sep] + Join(rest[1..], sep);
        assert Join(parts, sep) == ([s[0]] + rest[0]) + [sep] + Join(rest[1..], sep);
      }
    }
  }

  /** Text without the separator is a single piece. */
  lemma {:induction false} SplitWhole(p: string, sep: char)
    requires sep !in p
    ensures Split(p, sep) == [p]
  {
    if p != [] {
      SplitWhole(p[1..], sep);
      assert [p[0]] + p[1..] == p;
    }
  }

  /** A separator-free piece followed by the separator splits off as the
      first piece. */
  lemma {:induction false} SplitFirst(p: string, sep: char, t: string)
    requires sep !in p
    ensures Split(p + [sep] + t, sep) == [p] + Split(t, sep)
  {
    if p == [] {
      assert p + [sep] + t == [sep] + t;
      assert ([sep] + t)[1..] == t;
    } else {
      var s := p + [sep] + t;
      assert s[1..] == p[1..] + [sep] + t;
      SplitFirst(p[1..], sep, t);
      assert [p[0]] + p[1..] == p;
    }
  }

  /** Splitting what was joined from separator-free pieces gives the pieces. */
  lemma {:induction false} SplitJoin(parts: seq<string>, sep: char)
    requires |parts| >= 1
    requires forall i :: 0 <= i < |parts| ==> sep !in parts[i]
    ensures Split(Join(parts, sep), sep) == parts
  {
    if |parts| == 1 {
      SplitWhole(parts[0], sep);
    } else {
      SplitJoin(parts[1..], sep);
      SplitFirst(parts[0], sep, Join(parts[1..], sep));
      assert [parts[0]] + parts[1..] == parts;
    }
  }

  // ---------------------------------------------------------------------
  // The whitespace strip of int() and float()
  // ---------------------------------------------------------------------

  /** The leading whitespace strip of `int()` and `float()`. */
  function TrimStart(s: string): (r: string)
    ensures |r| <= |s| && r == s[|s| - |r|..]
    ensures r == [] || !IsStripSpace(r[0])
    ensures forall i :: 0 <= i < |s| - |r| ==> IsStripSpace(s[i])
  {
    if s != [] && IsStripSpace(s[0]) then TrimStart(s[1..]) else s
  }

  /** The trailing whitespace strip of `int()` and `float()`. */
  function TrimEnd(s: string): (r: string)
    ensures |r| <= |s| && r == s[..|r|]
    ensures r == [] || !IsStripSpace(r[|r| - 1])
    ensures forall i :: |r| <= i < |s| ==> IsStripSpace(s[i])
  {
    if s != [] && IsStripSpace(s[|s| - 1]) then TrimEnd(s[..|s| - 1]) else s
  }

  /** The strip `int()` and `float()` apply before reading a number: leading
      and trailing whitespace removed; a text that neither starts nor ends
      with such whitespace is its own strip. */
  function Strip(s: string): (r: string)
    ensures |r| <= |s|
    ensures r == [] || (!IsStripSpace(r[0]) && !IsStripSpace(r[|r| - 1]))
    ensures r == s <==> s == [] || (!IsStripSpace(s[0]) && !IsStripSpace(s[|s| - 1]))
  {
    var t := TrimStart(s);
    var r := TrimEnd(t);
    assert r != [] ==> r[0] == t[0];
    r
  }

  /** A text that neither starts nor ends with whitespace is its own strip. */
  lemma {:induction false} StripPlain(s: string)
    requires |s| > 0 && !IsStripSpace(s[0]) && !IsStripSpace(s[|s| - 1])
    ensures Strip(s) == s
  {
  }

  // ---------------------------------------------------------------------
  // int(text)
  // ---------------------------------------------------------------------

  /** Decimal digits with single underscores between them, as `int()` and
      `float()` accept them: "2010", "2_010", but not "_2010" or "20__10". */
  predicate IsDigitRun(s: string) {
    && |s| > 0
    && IsDigit(s[0])
    && IsDigit(s[|s| - 1])
    && (forall i :: 0 <= i < |s| ==> IsDigit(s[i]) || s[i] == '_')
    && (forall i :: 0 <= i < |s| - 1 ==> s[i] == '_' ==> s[i + 1] != '_')
  }

  /** The number a text of decimal digits denotes. */
  function DigitsValue(s: string): nat
    requires forall i :: 0 <= i < |s| ==> IsDigit(s[i])
  {
    if s == [] then 0
    else
      assert IsDigit(s[|s| - 1]);
      10 * DigitsValue(s[..|s| - 1]) + (s[|s| - 1] as int - '0' as int)
  }

  /** The number a digit run denotes, its underscores ignored. */
  function RunValue(s: string): nat
    requires IsDigitRun(s)
  {
    var digits := Delete(s, IsUnderscore);
    assert forall i :: 0 <= i < |digits| ==> IsDigit(digits[i]);
    DigitsValue(digits)
  }

  /** The text left after an optional leading sign. */
  function Unsigned(t: string): string {
    if |t| > 0 && (t[0] == '+' || t[0] == '-') then t[1..] else t
  }

  /** `int(s)` in base 10 over the ASCII digits: surrounding whitespace, one
      sign and underscores between digits are allowed, and the value is
      `Some(n)` for Python's `n`. Python also reads the other Unicode decimal
      digits, which this model rejects. */
  function ParseInt(s: string): Option<int> {
    var t := Strip(s);
    var body := Unsigned(t);
    if IsDigitRun(body) then
      var n: int := RunValue(body);
      Some(if |t| > 0 && t[0] == '-' then -n else n)
    else None
  }

  /** The digit character for `d`. */
  function DigitChar(d: nat): (c: char)
    requires d < 10
    ensures IsDigit(c) && c as int - '0' as int == d
  {
    ('0' as int + d) as char
  }

  /** `str(n)` for a natural number: its decimal digits, no leading zero. */
  function NatText(n: nat): (s: string)
    ensures |s| > 0
    ensures forall i :: 0 <= i < |s| ==> IsDigit(s[i])
  {
    if n < 10 then [DigitChar(n)] else NatText(n / 10) + [DigitChar(n % 10)]
  }

  /** `str(n)` for an integer. */
  function IntText(n: int): string {
    if n < 0 then "-" + NatText(-n) else NatText(n)
  }

  /** Reading back the digits of `str(n)` gives `n`. */
  lemma {:induction false} DigitsValueNatText(n: nat)
    ensures DigitsValue(NatText(n)) == n
  {
    if n >= 10 {
      var s := NatText(n);
      assert s[..|s| - 1] == NatText(n / 10);
      DigitsValueNatText(n / 10);
    }
  }

  /** A non-empty text of decimal digits is a digit run denoting its digits'
      value. */
  lemma {:induction false} DigitsRun(digits: string)
    requires |digits| > 0 && forall i :: 0 <= i < |digits| ==> IsDigit(digits[i])
    ensures IsDigitRun(digits) && RunValue(digits) == DigitsValue(digits)
  {
    DeleteNothing(digits, IsUnderscore);
  }

  /** `str(n)` is its digits, after a minus sign when `n` is negative. */
  lemma {:induction false} IntTextShape(n: int)
    ensures var s := IntText(n);
      && |s| > 0 && !IsStripSpace(s[0]) && !IsStripSpace(s[|s| - 1])
      && Unsigned(s) == NatText(if n < 0 then -n else n)
      && (s[0] == '-' <==> n < 0)
  {
    var digits := NatText(if n < 0 then -n else n);
    var s := IntText(n);
    assert s[|s| - 1] == digits[|digits| - 1];
  }

  /** `int(str(n)) == n`: `ParseInt` reads back every integer's own text. */
  lemma {:induction false} ParseIntText(n: int)
    ensures ParseInt(IntText(n)) == Some(n)
  {
    var m := if n < 0 then -n else n;
    var s := IntText(n);
    IntTextShape(n);
    StripPlain(s);
    DigitsRun(NatText(m));
    DigitsValueNatText(m);
  }

  /** Trailing whitespace of the stripped kind comes off a text that does
      not itself end in such whitespace. */
  lemma {:induction false} TrimEndPad(d: string, pad: string)
    requires |d| > 0 && !IsStripSpace(d[|d| - 1])
    requires forall i :: 0 <= i < |pad| ==> IsStripSpace(pad[i])
    ensures TrimEnd(d + pad) == d
    decreases |pad|
  {
    if pad == [] {
      assert d + pad == d;
    } else {
      var s := d + pad;
      var shorter := pad[..|pad| - 1];
      assert s[..|s| - 1] == d + shorter;
      TrimEndPad(d, shorter);
    }
  }

  /** `int()` reads an integer's text followed by whitespace it strips, such
      as a tab, as that integer. */
  lemma {:induction false} ParseIntPadded(n: int, pad: string)
    requires forall i :: 0 <= i < |pad| ==> IsStripSpace(pad[i])
    ensures ParseInt(IntText(n) + pad) == Some(n)
  {
    var s := IntText(n);
    IntTextShape(n);
    StripPlain(s);
    TrimEndPad(s, pad);
    assert (s + pad)[0] == s[0];
    assert TrimStart(s + pad) == s + pad;
    assert Strip(s + pad) == s;
    ParseIntText(n);
  }

  /** `str.isspace()` holds for the separator U+001C, yet `int()` does not
      strip it: an integer's text followed by it is no integer. */
  lemma {:induction false} ParseIntSeparator(n: int)
    ensures ParseInt(IntText(n) + "\U{1c}") == None
  {
    var s := IntText(n) + "\U{1c}";
    IntTextShape(n);
    assert s[0] == IntText(n)[0];
    assert IsSpace(s[|s| - 1]) && !IsStripSpace(s[|s| - 1]);
    StripPlain(s);
    var body := Unsigned(s);
    assert body[|body| - 1] == '\U{1c}';
  }

  // ---------------------------------------------------------------------
  // float(text), for text without ASCII letters
  // ---------------------------------------------------------------------

  /** The position of the first `c` in `s`, or `|s|` when there is none. */
  function IndexOf(s: string, c: char): (k: nat)
    ensures k <= |s|
    ensures k < |s| ==> s[k] == c
    ensures forall i :: 0 <= i < k ==> s[i] != c
  {
    if s == [] then 0
    else if s[0] == c then 0
    else 1 + IndexOf(s[1..], c)
  }

  /** The unsigned part of a decimal literal: a digit run, optionally with
      a point and a second digit run, or a point followed by a digit run
      ("72", "72.", "72.3", ".3"). */
  predicate IsDecimalBody(body: string) {
    var k := IndexOf(body, '.');
    if k == |body| then IsDigitRun(body)
    else
      var whole, fraction := body[..k], body[k + 1..];
      || (IsDigitRun(whole) && (fraction == [] || IsDigitRun(fraction)))
      || (whole == [] && IsDigitRun(fraction))
  }

  /** Whether `float(s)` succeeds on a text that holds no ASCII letter: after
      the whitespace strip and one optional sign, a decimal body. The
      exponent, "inf" and "nan" forms of Python's grammar all need letters. */
  predicate IsFloatText(s: string)
    requires forall i :: 0 <= i < |s| ==> !IsAsciiLetter(s[i])
  {
    IsDecimalBody(Unsigned(Strip(s)))
  }

  /** A decimal body holds a digit, and otherwise only digits, underscores
      and points. */
  lemma {:induction false} DecimalBodyChars(body: string)
    requires IsDecimalBody(body)
    ensures exists i :: 0 <= i < |body| && IsDigit(body[i])
    ensures forall i :: 0 <= i < |body| ==> IsDigit(body[i]) || body[i] in "._"
  {
    var k := IndexOf(body, '.');
    if k == |body| {
      assert IsDigit(body[0]);
    } else {
      var whole, fraction := body[..k], body[k + 1..];
      forall i | 0 <= i < |body| ensures IsDigit(body[i]) || body[i] in "._" {
        if i < k {
          assert body[i] == whole[i];
        } else if i > k {
          assert body[i] == fraction[i - k - 1];
        }
      }
      if IsDigitRun(whole) {
        assert body[0] == whole[0];
      } else {
        assert body[k + 1] == fraction[0];
      }
    }
  }

  /** Every character of `t` but a leading sign is a character of its
      unsigned part. */
  lemma {:induction false} UnsignedKeeps(t: string)
    ensures forall i :: 0 <= i < |t| ==> t[i] in Unsigned(t) || (i == 0 && t[0] in "+-")
  {
    if |t| > 0 && (t[0] == '+' || t[0] == '-') {
      assert forall i :: 1 <= i < |t| ==> t[i] == t[1..][i - 1];
    }
  }

  /** A text free of letters and whitespace that `float()` accepts holds a
      digit, and besides digits only signs, points and underscores. */
  lemma {:induction false} FloatTextChars(s: string)
    requires forall i :: 0 <= i < |s| ==> !IsAsciiLetter(s[i]) && !IsSpace(s[i])
    requires IsFloatText(s)
    ensures exists i :: 0 <= i < |s| && IsDigit(s[i])
    ensures forall i :: 0 <= i < |s| ==> IsDigit(s[i]) || s[i] in "+-._"
  {
    assert Strip(s) == s;
    var body := Unsigned(s);
    DecimalBodyChars(body);
    UnsignedKeeps(s);
    var d :| 0 <= d < |body| && IsDigit(body[d]);
    assert body[d] in s;
  }
}
