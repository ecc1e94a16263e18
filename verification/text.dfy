/**
 * String operations of the JavaScript runtime that the storefront helpers
 * rely on: case mapping (restricted to ASCII letters), the whitespace class
 * used by `\s`, `trim()` and `Number()`, substring search (`includes`) and
 * the decimal rendering of an integer (`String(n)`, `n.toString()`).
 */
module Text {
  import opened Wrappers

  predicate IsUpper(c: char) { 'A' <= c <= 'Z' }
  predicate IsLower(c: char) { 'a' <= c <= 'z' }
  predicate IsDigit(c: char) { '0' <= c <= '9' }

  /** ASCII letters, digits and `_`: the class `\w` of a JavaScript regular expression without the `u` flag. */
  predicate IsWordChar(c: char) { IsUpper(c) || IsLower(c) || IsDigit(c) || c == '_' }

  /**
   * The JavaScript WhiteSpace and LineTerminator characters: the class `\s`,
   * and what `String.prototype.trim` and `Number()` strip.
   */
  predicate IsJsSpace(c: char) {
    c == '\t' || c == '\n' || c == '\U{000B}' || c == '\U{000C}' || c == '\r' || c == ' '
    || c == '\U{00A0}' || c == '\U{1680}' || ('\U{2000}' <= c <= '\U{200A}')
    || c == '\U{2028}' || c == '\U{2029}' || c == '\U{202F}' || c == '\U{205F}'
    || c == '\U{3000}' || c == '\U{FEFF}'
  }

  function LowerChar(c: char): char {
    if IsUpper(c) then (c as int + 32) as char else c
  }

  function UpperChar(c: char): char {
    if IsLower(c) then (c as int - 32) as char else c
  }

  /** `toLowerCase()` on the ASCII letters; every other character is kept. */
  function ToLower(s: string): (r: string)
    ensures |r| == |s|
    ensures forall i :: 0 <= i < |s| ==> r[i] == LowerChar(s[i])
  {
    if s == [] then [] else [LowerChar(s[0])] + ToLower(s[1..])
  }

  /** `toUpperCase()` on the ASCII letters; every other character is kept. */
  function ToUpper(s: string): (r: string)
    ensures |r| == |s|
    ensures forall i :: 0 <= i < |s| ==> r[i] == UpperChar(s[i])
  {
    if s == [] then [] else [UpperChar(s[0])] + ToUpper(s[1..])
  }

  /** A lower-cased string holds no upper-case letter, and lower-casing it again changes nothing. */
  lemma ToLowerIdempotent(s: string)
    ensures forall i :: 0 <= i < |s| ==> !IsUpper(ToLower(s)[i])
    ensures ToLower(ToLower(s)) == ToLower(s)
  {
  }

  /** Lower-casing forgets any earlier upper-casing: case-insensitive comparison sees through both. */
  lemma LowerOfUpper(s: string)
    ensures ToLower(ToUpper(s)) == ToLower(s)
  {
  }

  lemma UpperOfLower(s: string)
    ensures ToUpper(ToLower(s)) == ToUpper(s)
  {
  }

  /** A string without upper-case letters is its own lower-case form. */
  lemma ToLowerNoUpper(s: string)
    requires forall i :: 0 <= i < |s| ==> !IsUpper(s[i])
    ensures ToLower(s) == s
  {
  }

  /** Lower-casing commutes with concatenation. */
  lemma ToLowerAppend(a: string, b: string)
    ensures ToLower(a + b) == ToLower(a) + ToLower(b)
  {
  }

  /** `s.startsWith(p)` */
  predicate StartsWith(s: string, p: string)
  {
    |p| <= |s| && (p == [] || (s[0] == p[0] && StartsWith(s[1..], p[1..])))
  }

  /** `s.includes(sub)`: `sub` occurs in `s` at some position. */
  predicate Contains(s: string, sub: string)
    decreases |s|
  {
    StartsWith(s, sub) || (s != [] && Contains(s[1..], sub))
  }

  lemma {:induction false} StartsWithPrefix(s: string, p: string)
    ensures StartsWith(s, p) <==> |p| <= |s| && s[..|p|] == p
  {
    if p != [] && |p| <= |s| {
      StartsWithPrefix(s[1..], p[1..]);
      assert s[..|p|] == [s[0]] + s[1..][..|p| - 1];
    }
  }

  /** `sub` is found in `s` starting at index `i`. */
  predicate OccursAt(s: string, sub: string, i: int) {
    0 <= i <= |s| - |sub| && s[i..i + |sub|] == sub
  }

  /** `includes` holds exactly when `sub` is found at some position of `s`. */
  lemma {:induction false} ContainsAt(s: string, sub: string)
    ensures Contains(s, sub) <==> exists i :: OccursAt(s, sub, i)
  {
    StartsWithPrefix(s, sub);
    if s != [] {
      ContainsAt(s[1..], sub);
      if Contains(s[1..], sub) {
        var i :| OccursAt(s[1..], sub, i);
        assert OccursAt(s, sub, i + 1);
      }
      if StartsWith(s, sub) {
        assert OccursAt(s, sub, 0);
      }
      if exists i :: OccursAt(s, sub, i) {
        var i :| OccursAt(s, sub, i);
        if i > 0 {
          assert OccursAt(s[1..], sub, i - 1);
          assert Contains(s[1..], sub);
        } else {
          assert s[..|sub|] == sub;
          assert StartsWith(s, sub);
        }
      }
    } else {
      if exists i :: OccursAt(s, sub, i) {
        var i :| OccursAt(s, sub, i);
        assert sub == [] && StartsWith(s, sub);
      }
      if Contains(s, sub) {
        assert OccursAt(s, sub, 0);
      }
    }
  }

  /** A string holding no lower-case letter contains no word that starts with one. */
  lemma {:induction false} NoLetterNoContains(s: string, sub: string)
    requires sub != [] && IsLower(sub[0])
    requires forall i :: 0 <= i < |s| ==> !IsLower(s[i])
    ensures !Contains(s, sub)
  {
    if s != [] {
      NoLetterNoContains(s[1..], sub);
    }
  }

  /** A text missing one of the characters of `sub` does not contain `sub`. */
  lemma AbsentCharNoContains(s: string, sub: string, k: nat)
    requires k < |sub|
    requires forall i :: 0 <= i < |s| ==> s[i] != sub[k]
    ensures !Contains(s, sub)
  {
    forall i | 0 <= i <= |s| - |sub|
      ensures !OccursAt(s, sub, i)
    {
      assert s[i..i + |sub|][k] == s[i + k];
    }
    ContainsAt(s, sub);
  }

  /** `String.prototype.trimStart` */
  function TrimStart(s: string): (r: string)
    ensures |r| <= |s| && r == s[|s| - |r|..]
    ensures forall i :: 0 <= i < |s| - |r| ==> IsJsSpace(s[i])
    ensures r == [] || !IsJsSpace(r[0])
  {
    if s != [] && IsJsSpace(s[0]) then TrimStart(s[1..]) else s
  }

  /** `String.prototype.trimEnd` */
  function TrimEnd(s: string): (r: string)
    ensures |r| <= |s| && r == s[..|r|]
    ensures forall i :: |r| <= i < |s| ==> IsJsSpace(s[i])
    ensures r == [] || !IsJsSpace(r[|r| - 1])
  {
    if s != [] && IsJsSpace(s[|s| - 1]) then TrimEnd(s[..|s| - 1]) else s
  }

  /** `String.prototype.trim` */
  function Trim(s: string): string {
    TrimEnd(TrimStart(s))
  }

  /** The whitespace that `trimStart` removes. */
  function LeadingSpace(s: string): (p: string)
    ensures s == p + TrimStart(s)
    ensures forall i :: 0 <= i < |p| ==> IsJsSpace(p[i])
  {
    s[..|s| - |TrimStart(s)|]
  }

  /** The first character and the rest of `x + y` when `x` is not empty. */
  lemma AppendHeadTail(x: string, y: string)
    requires x != []
    ensures (x + y)[0] == x[0] && (x + y)[1..] == x[1..] + y
  {
  }

  /** Concatenation is associative. */
  lemma ConcatAssoc(x: string, y: string, z: string)
    ensures x + y + z == x + (y + z)
  {
  }

  /** Whitespace in front is skipped: trimming the start of `w + c` trims the start of `c`. */
  lemma {:induction false} TrimStartSkipsSpace(w: string, c: string)
    requires forall i :: 0 <= i < |w| ==> IsJsSpace(w[i])
    ensures TrimStart(w + c) == TrimStart(c)
  {
    if w != [] {
      AppendHeadTail(w, c);
      TrimStartSkipsSpace(w[1..], c);
    } else {
      assert w + c == c;
    }
  }

  /** Trimming the start stops inside `x` when `x` is not blank, so what follows stays. */
  lemma {:induction false} TrimStartAppend(x: string, y: string)
    requires TrimStart(x) != []
    ensures TrimStart(x + y) == TrimStart(x) + y
  {
    AppendHeadTail(x, y);
    if IsJsSpace(x[0]) {
      TrimStartAppend(x[1..], y);
    }
  }

  /** A text that does not end in whitespace keeps its last character when its start is trimmed. */
  lemma TrimStartKeepsLast(x: string)
    requires x != [] && !IsJsSpace(x[|x| - 1])
    ensures TrimStart(x) != [] && TrimStart(x)[|TrimStart(x)| - 1] == x[|x| - 1]
  {
  }

  /** Trimming the end stops inside `y` when `y` is not blank, so the text in front stays. */
  lemma {:induction false} TrimEndAppend(x: string, y: string)
    requires TrimEnd(y) != []
    ensures TrimEnd(x + y) == x + TrimEnd(y)
    decreases |y|
  {
    if IsJsSpace(y[|y| - 1]) {
      assert (x + y)[..|x + y| - 1] == x + y[..|y| - 1];
      TrimEndAppend(x, y[..|y| - 1]);
    } else {
      assert (x + y)[|x + y| - 1] == y[|y| - 1];
    }
  }

  /**
   * Trimming a text that starts with a non-blank `x` and ends with a
   * text `s` that is not blank keeps `x`, the whitespace at the start of
   * `s` and the trimmed `s`.
   */
  lemma TrimAfterWord(x: string, s: string)
    requires x != [] && !IsJsSpace(x[0])
    requires Trim(s) != []
    ensures Trim(x + s) == x + LeadingSpace(s) + Trim(s)
  {
    var p := LeadingSpace(s);
    TrimEndAppend(p, TrimStart(s));
    AppendHeadTail(x, s);
    TrimEndAppend(x, s);
    ConcatAssoc(x, p, Trim(s));
  }

  function DigitChar(d: nat): char
    requires d < 10
  {
    ('0' as int + d) as char
  }

  /** The decimal numeral of a natural number, without leading zeros. */
  function NatToString(n: nat): (r: string)
    ensures r != []
    ensures forall i :: 0 <= i < |r| ==> IsDigit(r[i])
  {
    if n < 10 then [DigitChar(n)] else NatToString(n / 10) + [DigitChar(n % 10)]
  }

  /** `String(n)` for an integer `n`: a minus sign for negative numbers, then the digits. */
  function IntToString(n: int): (r: string)
    ensures r != []
    ensures forall i :: 0 <= i < |r| ==> IsDigit(r[i]) || r[i] == '-'
  {
    if n < 0 then "-" + NatToString(-n) else NatToString(n)
  }

  /** Lower-casing changes only upper-case letters, so whitespace stays whitespace and nothing else becomes it. */
  lemma LowerCharKind(c: char)
    ensures IsJsSpace(LowerChar(c)) == IsJsSpace(c)
    ensures IsDigit(LowerChar(c)) == IsDigit(c)
    ensures LowerChar(c) == c || IsUpper(c)
  {
  }

  lemma {:induction false} TrimStartLower(s: string)
    ensures TrimStart(ToLower(s)) == ToLower(TrimStart(s))
  {
    if s != [] {
      var l := ToLower(s);
      assert l[1..] == ToLower(s[1..]);
      LowerCharKind(s[0]);
      if IsJsSpace(s[0]) {
        TrimStartLower(s[1..]);
      }
    }
  }

  lemma {:induction false} TrimEndLower(s: string)
    ensures TrimEnd(ToLower(s)) == ToLower(TrimEnd(s))
  {
    if s != [] {
      var l := ToLower(s);
      assert l[..|s| - 1] == ToLower(s[..|s| - 1]);
      LowerCharKind(s[|s| - 1]);
      if IsJsSpace(s[|s| - 1]) {
        TrimEndLower(s[..|s| - 1]);
      }
    }
  }

  /** Lower-casing commutes with trimming: whitespace is not a letter. */
  lemma TrimLower(s: string)
    ensures Trim(ToLower(s)) == ToLower(Trim(s))
  {
    TrimStartLower(s);
    TrimEndLower(TrimStart(s));
  }

  /** One or more ASCII digits. */
  predicate IsDecimal(s: string) {
    s != [] && forall i :: 0 <= i < |s| ==> IsDigit(s[i])
  }

  /** The value of a string of decimal digits. */
  function DecimalValue(s: string): nat
    requires forall i :: 0 <= i < |s| ==> IsDigit(s[i])
  {
    if s == [] then 0 else DecimalValue(s[..|s| - 1]) * 10 + DigitValue(s[|s| - 1])
  }

  function DigitValue(c: char): nat
    requires IsDigit(c)
  {
    c as int - '0' as int
  }

  /**
   * `Number(s)` restricted to integers: surrounding whitespace is ignored,
   * an empty or blank string is 0, an optional sign may precede the digits;
   * anything else is not a number (`NaN`).
   */
  function ParseNumber(s: string): Option<int> {
    ParseTrimmed(Trim(s))
  }

  function ParseTrimmed(t: string): Option<int> {
    if t == [] then Some(0)
    else if (t[0] == '-' || t[0] == '+') && IsDecimal(t[1..]) then
      Some(if t[0] == '-' then 0 - DecimalValue(t[1..]) else DecimalValue(t[1..]))
    else if IsDecimal(t) then Some(DecimalValue(t))
    else None
  }

  lemma {:induction false} DecimalValueOfNatToString(n: nat)
    ensures DecimalValue(NatToString(n)) == n
  {
    if n >= 10 {
      DecimalValueOfNatToString(n / 10);
      var r := NatToString(n);
      assert r[..|r| - 1] == NatToString(n / 10);
    }
  }

  /** A string that neither starts nor ends with whitespace is its own trimmed form. */
  lemma TrimUnchanged(s: string)
    requires s == [] || (!IsJsSpace(s[0]) && !IsJsSpace(s[|s| - 1]))
    ensures Trim(s) == s
  {
    assert TrimStart(s) == s;
  }

  lemma NumeralCharNotSpace(c: char)
    requires IsDigit(c) || c == '-'
    ensures !IsJsSpace(c)
  {
  }

  /** The numerals `String` produces have no surrounding whitespace. */
  lemma IntToStringTrimmed(n: int)
    ensures Trim(IntToString(n)) == IntToString(n)
  {
    var r := IntToString(n);
    NumeralCharNotSpace(r[0]);
    NumeralCharNotSpace(r[|r| - 1]);
    TrimUnchanged(r);
  }

  lemma ParseUnsigned(t: string)
    requires IsDecimal(t)
    ensures ParseTrimmed(t) == Some(DecimalValue(t))
  {
  }

  lemma ParseNegative(t: string)
    requires t != [] && t[0] == '-' && IsDecimal(t[1..])
    ensures ParseTrimmed(t) == Some(0 - DecimalValue(t[1..]))
  {
  }

  lemma NatNumeralRoundTrip(m: nat)
    ensures ParseTrimmed(NatToString(m)) == Some(m)
  {
    ParseUnsigned(NatToString(m));
    DecimalValueOfNatToString(m);
  }

  lemma NegativeNumeralRoundTrip(m: nat)
    ensures ParseTrimmed("-" + NatToString(m)) == Some(0 - m)
  {
    var r := "-" + NatToString(m);
    assert r[1..] == NatToString(m);
    ParseNegative(r);
    DecimalValueOfNatToString(m);
  }

  /** `Number(String(n)) == n`: the decimal rendering of an integer reads back as that integer. */
  lemma IntToStringRoundTrip(n: int)
    ensures ParseNumber(IntToString(n)) == Some(n)
  {
    IntToStringTrimmed(n);
    if n < 0 {
      NegativeNumeralRoundTrip(-n);
    } else {
      NatNumeralRoundTrip(n);
    }
  }

  /** Lower-casing neither makes nor breaks a string of digits, and leaves one unchanged. */
  lemma DecimalIgnoresCase(t: string)
    ensures IsDecimal(ToLower(t)) == IsDecimal(t)
    ensures IsDecimal(t) ==> ToLower(t) == t
  {
    var u := ToLower(t);
    if IsDecimal(t) {
      ToLowerNoUpper(t);
    } else if IsDecimal(u) {
      var k :| 0 <= k < |t| && !IsDigit(t[k]);
      LowerCharKind(t[k]);
    }
  }

  lemma ParseTrimmedIgnoresCase(t: string)
    ensures ParseTrimmed(ToLower(t)) == ParseTrimmed(t)
  {
    if t != [] {
      var u := ToLower(t);
      LowerCharKind(t[0]);
      assert u[0] == LowerChar(t[0]);
      assert u[1..] == ToLower(t[1..]);
      DecimalIgnoresCase(t[1..]);
      DecimalIgnoresCase(t);
    }
  }

  /** For the integer numerals modelled here, `Number` is blind to letter case: no letter takes part in them. */
  lemma ParseNumberIgnoresCase(s: string)
    ensures ParseNumber(ToLower(s)) == ParseNumber(s)
  {
    TrimLower(s);
    ParseTrimmedIgnoresCase(Trim(s));
  }
}
