/** The few JavaScript string and number primitives the time codec relies on:
    whitespace and trim(), ASCII toUpperCase(), includes(), split() on one
    character (or a character class), Number#toString() for integers,
    padStart(2, "0") and parseInt(). */
module JsText {

  /** The characters JavaScript's `trim()` removes and its regex `\s` matches
      (WhiteSpace and LineTerminator of ECMAScript). */
  predicate IsSpace(c: char) {
    c == '\t' || c == '\n' || c == '\U{000B}' || c == '\U{000C}' || c == '\r' || c == ' ' ||
    c == '\U{00A0}' || c == '\U{1680}' || ('\U{2000}' <= c <= '\U{200A}') ||
    c == '\U{2028}' || c == '\U{2029}' || c == '\U{202F}' || c == '\U{205F}' ||
    c == '\U{3000}' || c == '\U{FEFF}'
  }

  predicate IsDigit(c: char) { '0' <= c <= '9' }

  predicate AllDigits(s: string) { forall i :: 0 <= i < |s| ==> IsDigit(s[i]) }

  /** `s.includes(c)` for a one-character needle. */
  predicate Includes(s: string, c: char) { c in s }

  function TrimStart(s: string): (r: string)
    ensures |r| <= |s| && r == s[|s| - |r|..]
    ensures r == [] || !IsSpace(r[0])
    ensures forall i :: 0 <= i < |s| - |r| ==> IsSpace(s[i])
  {
    if s != [] && IsSpace(s[0]) then TrimStart(s[1..]) else s
  }

  function TrimEnd(s: string): (r: string)
    ensures |r| <= |s| && r == s[..|r|]
    ensures r == [] || !IsSpace(r[|r| - 1])
    ensures forall i :: |r| <= i < |s| ==> IsSpace(s[i])
  {
    if s != [] && IsSpace(s[|s| - 1]) then TrimEnd(s[..|s| - 1]) else s
  }

  /** `s.trim()`. */
  function Trim(s: string): string {
    TrimEnd(TrimStart(s))
  }

  lemma TrimNoSpaceEnds(s: string)
    requires s != [] && !IsSpace(s[0]) && !IsSpace(s[|s| - 1])
    ensures Trim(s) == s
  {
  }

  /** A string is blank (`s.trim() === ""`) exactly when every character is whitespace. */
  lemma {:induction false} TrimBlank(s: string)
    ensures Trim(s) == [] <==> forall i :: 0 <= i < |s| ==> IsSpace(s[i])
  {
    var t := TrimStart(s);
    if t != [] {
      assert !IsSpace(t[0]) && t[0] == s[|s| - |t|];
      assert TrimEnd(t) != [];
    }
  }

  /** ASCII `toUpperCase()` of one character. */
  function UpperChar(c: char): char {
    if 'a' <= c <= 'z' then (c as int - 32) as char else c
  }

  function ToUpper(s: string): (r: string)
    ensures |r| == |s| && forall i :: 0 <= i < |s| ==> r[i] == UpperChar(s[i])
  {
    if s == [] then [] else [UpperChar(s[0])] + ToUpper(s[1..])
  }

  /** `s.replace(/[^0-9]/g, "")`: the digits of `s` in order. */
  function DigitsOf(s: string): (r: string)
    ensures AllDigits(r) && |r| <= |s|
  {
    if s == [] then []
    else if IsDigit(s[0]) then [s[0]] + DigitsOf(s[1..])
    else DigitsOf(s[1..])
  }

  lemma {:induction false} DigitsOfAppend(a: string, b: string)
    ensures DigitsOf(a + b) == DigitsOf(a) + DigitsOf(b)
  {
    if a != [] {
      assert (a + b)[0] == a[0] && (a + b)[1..] == a[1..] + b;
      DigitsOfAppend(a[1..], b);
      if IsDigit(a[0]) {
        assert DigitsOf(a + b) == [a[0]] + DigitsOf(a[1..] + b);
      } else {
        assert DigitsOf(a + b) == DigitsOf(a[1..] + b);
      }
    } else {
      assert a + b == b;
    }
  }

  lemma {:induction false} DigitsOfDigits(s: string)
    requires AllDigits(s)
    ensures DigitsOf(s) == s
  {
    if s != [] { DigitsOfDigits(s[1..]); }
  }

  lemma {:induction false} DigitsOfNone(s: string)
    requires forall i :: 0 <= i < |s| ==> !IsDigit(s[i])
    ensures DigitsOf(s) == []
  {
    if s != [] { DigitsOfNone(s[1..]); }
  }

  function DigitChar(d: nat): char
    requires d < 10
  {
    ('0' as int + d) as char
  }

  function DigitVal(c: char): nat
    requires IsDigit(c)
  {
    c as int - '0' as int
  }

  /** The decimal rendering of a natural number without leading zeros. */
  function NatText(n: nat): (r: string)
    ensures r != [] && AllDigits(r)
    ensures n < 10 <==> |r| == 1
  {
    if n < 10 then [DigitChar(n)] else NatText(n / 10) + [DigitChar(n % 10)]
  }

  /** `n.toString()` for an integral JavaScript number. */
  function NumberText(n: int): string {
    if n < 0 then "-" + NatText(-n) else NatText(n)
  }

  /** The value of a string of decimal digits. */
  function DecValue(s: string): nat
    requires AllDigits(s)
  {
    if s == [] then 0 else 10 * DecValue(s[..|s| - 1]) + DigitVal(s[|s| - 1])
  }

  lemma {:induction false} DecValueNatText(n: nat)
    ensures DecValue(NatText(n)) == n
  {
    if n >= 10 {
      var t := NatText(n / 10) + [DigitChar(n % 10)];
      assert t[..|t| - 1] == NatText(n / 10);
      DecValueNatText(n / 10);
    }
  }

  function Pow10(k: nat): (r: nat)
    ensures r >= 1
  {
    if k == 0 then 1 else 10 * Pow10(k - 1)
  }

  /** The rendering of `n` has more than k digits exactly when n >= 10^k. */
  lemma {:induction false} NatTextLength(n: nat, k: nat)
    requires k >= 1 || n >= 1
    ensures |NatText(n)| > k <==> n >= Pow10(k)
  {
    if k > 0 {
      if n >= 10 {
        NatTextLength(n / 10, k - 1);
        assert |NatText(n)| == |NatText(n / 10)| + 1;
        var p := Pow10(k - 1);
        assert Pow10(k) == 10 * p;
        assert n / 10 >= p ==> n >= 10 * p;
        assert n >= 10 * p ==> n / 10 >= p;
      } else {
        assert Pow10(k) >= 10 by { Pow10AtLeastTen(k); }
      }
    }
  }

  lemma {:induction false} Pow10AtLeastTen(k: nat)
    requires k > 0
    ensures Pow10(k) >= 10
  {
    if k > 1 { Pow10AtLeastTen(k - 1); }
  }

  /** `n.toString()` has exactly ten characters for a non-negative `n` exactly between 10^9 and 10^10. */
  lemma TenDigits(n: nat)
    ensures |NumberText(n)| == 10 <==> 1000000000 <= n < 10000000000
  {
    NatTextLength(n, 9);
    NatTextLength(n, 10);
    assert Pow10(9) == 1000000000;
    assert Pow10(10) == 10000000000;
  }

  /** `str.padStart(2, "0")`. */
  function PadStart2(s: string): (r: string)
    ensures |s| >= 2 ==> r == s
    ensures |s| < 2 ==> |r| == 2
  {
    if |s| == 0 then "00" else if |s| == 1 then "0" + s else s
  }

  /** `n.toString().padStart(2, "0")` for a time field. */
  function Pad2(n: int): string {
    PadStart2(NumberText(n))
  }

  lemma Pad2Small(n: int)
    requires 0 <= n < 100
    ensures |Pad2(n)| == 2 && AllDigits(Pad2(n)) && DecValue(Pad2(n)) == n
    ensures Pad2(n)[0] == DigitChar(n / 10) && Pad2(n)[1] == DigitChar(n % 10)
  {
    var p := Pad2(n);
    if n < 10 {
      assert p == [DigitChar(0), DigitChar(n)];
    } else {
      assert NatText(n / 10) == [DigitChar(n / 10)];
      assert p == [DigitChar(n / 10), DigitChar(n % 10)];
    }
    assert p[..1] == [p[0]] && p[..0] == [];
    assert DecValue(p) == 10 * DecValue(p[..1]) + DigitVal(p[1]);
    assert DecValue(p[..1]) == DigitVal(p[0]);
  }

  // ---------------------------------------------------------------------------
  // parseInt

  /** The value of a digit in base 10 or base 16 (either case), if it is one. */
  function RadixDigit(c: char, hex: bool): (r: Option<nat>)
    ensures r.Some? ==> r.value < (if hex then 16 else 10)
  {
    if IsDigit(c) then Some(DigitVal(c))
    else if hex && 'a' <= c <= 'f' then Some(c as int - 'a' as int + 10)
    else if hex && 'A' <= c <= 'F' then Some(c as int - 'A' as int + 10)
    else None
  }

  /** Number of leading characters of `s` that are digits of the radix. */
  function DigitRun(s: string, hex: bool): (k: nat)
    ensures k <= |s|
    ensures forall i :: 0 <= i < k ==> RadixDigit(s[i], hex).Some?
    ensures k < |s| ==> RadixDigit(s[k], hex).None?
    ensures AllRadix(s[..k], hex)
  {
    if s != [] && RadixDigit(s[0], hex).Some? then 1 + DigitRun(s[1..], hex) else 0
  }

  /** Every character is a digit of the radix. */
  predicate AllRadix(s: string, hex: bool) {
    forall i :: 0 <= i < |s| ==> RadixDigit(s[i], hex).Some?
  }

  function RadixValue(s: string, hex: bool): nat
    requires AllRadix(s, hex)
  {
    if s == [] then 0
    else (if hex then 16 else 10) * RadixValue(s[..|s| - 1], hex) + RadixDigit(s[|s| - 1], hex).value
  }

  lemma {:induction false} RadixValueDecimal(s: string)
    requires AllDigits(s)
    ensures RadixValue(s, false) == DecValue(s)
  {
    if s != [] { RadixValueDecimal(s[..|s| - 1]); }
  }

  /** `parseInt(s)` when `autoHex` holds (no radix: a `0x`/`0X` prefix selects base 16) and
      `parseInt(s, 10)` otherwise. `None` is NaN. */
  function ParseIntWith(s: string, autoHex: bool): Option<int> {
    var t := TrimStart(s);
    var neg := t != [] && t[0] == '-';
    var u := if t != [] && (t[0] == '-' || t[0] == '+') then t[1..] else t;
    var hex := autoHex && |u| >= 2 && u[0] == '0' && (u[1] == 'x' || u[1] == 'X');
    var body := if hex then u[2..] else u;
    var k := DigitRun(body, hex);
    if k == 0 then None
    else
      var v: int := RadixValue(body[..k], hex);
      Some(if neg then -v else v)
  }

  /** `parseInt(s)`. */
  function ParseInt(s: string): Option<int> { ParseIntWith(s, true) }

  /** `parseInt(s, 10)`. */
  function ParseInt10(s: string): Option<int> { ParseIntWith(s, false) }

  /** parseInt reads a plain digit string as its decimal value, with or without a radix. */
  lemma ParseIntDigits(s: string)
    requires s != [] && AllDigits(s)
    ensures ParseInt(s) == Some(DecValue(s)) && ParseInt10(s) == Some(DecValue(s))
  {
    ParseIntWithDigits(s, true);
    ParseIntWithDigits(s, false);
  }

  lemma ParseIntWithDigits(s: string, autoHex: bool)
    requires s != [] && AllDigits(s)
    ensures ParseIntWith(s, autoHex) == Some(DecValue(s))
  {
    var t := TrimStart(s);
    assert t == s by { assert !IsSpace(s[0]); }
    assert !(t[0] == '-' || t[0] == '+') by { assert IsDigit(s[0]); }
    var hex := autoHex && |s| >= 2 && s[0] == '0' && (s[1] == 'x' || s[1] == 'X');
    assert !hex by { assert |s| >= 2 ==> IsDigit(s[1]); }
    var k := DigitRun(s, false);
    assert k == |s| by { DigitRunAll(s, false); }
    assert RadixValue(s[..k], false) == DecValue(s) by {
      assert s[..k] == s;
      RadixValueDecimal(s);
    }
  }

  lemma {:induction false} DigitRunAll(s: string, hex: bool)
    requires forall i :: 0 <= i < |s| ==> RadixDigit(s[i], hex).Some?
    ensures DigitRun(s, hex) == |s|
  {
    if s != [] { DigitRunAll(s[1..], hex); }
  }

  /** parseInt of the zero-padded rendering of a time field gives the field back. */
  lemma ParseIntPad2(n: int)
    requires 0 <= n < 100
    ensures ParseInt(Pad2(n)) == Some(n) && ParseInt10(Pad2(n)) == Some(n)
  {
    Pad2Small(n);
    ParseIntDigits(Pad2(n));
  }

  // ---------------------------------------------------------------------------
  // split

  /** `s.split(sep)` where `sep` is one character or a one-character class: the pieces between
      separators, in order, including empty ones (`"".split(x)` is `[""]`). */
  function SplitWhere(s: string, isSep: char -> bool): (r: seq<string>)
    ensures |r| >= 1
  {
    if s == [] then [[]]
    else
      var rest := SplitWhere(s[1..], isSep);
      if isSep(s[0]) then [[]] + rest else [[s[0]] + rest[0]] + rest[1..]
  }

  /** `s.split(c)` for a one-character string `c`. */
  function Split(s: string, c: char): (r: seq<string>)
    ensures |r| >= 1
  {
    SplitWhere(s, x => x == c)
  }

  predicate NoSep(s: string, isSep: char -> bool) {
    forall i :: 0 <= i < |s| ==> !isSep(s[i])
  }

  lemma {:induction false} SplitNoSep(s: string, isSep: char -> bool)
    requires NoSep(s, isSep)
    ensures SplitWhere(s, isSep) == [s]
  {
    if s != [] {
      SplitNoSep(s[1..], isSep);
      assert [s[0]] + s[1..] == s;
    }
  }

  /** Splitting a piece, a separator and a remainder yields the piece followed by the split of
      the remainder. */
  lemma {:induction false} SplitCons(a: string, c: char, b: string, isSep: char -> bool)
    requires NoSep(a, isSep) && isSep(c)
    ensures SplitWhere(a + [c] + b, isSep) == [a] + SplitWhere(b, isSep)
  {
    if a == [] {
      assert a + [c] + b == [c] + b;
      assert ([c] + b)[1..] == b;
    } else {
      var s := a + [c] + b;
      assert s[0] == a[0] && s[1..] == a[1..] + [c] + b;
      SplitCons(a[1..], c, b, isSep);
      assert [a[0]] + a[1..] == a;
    }
  }

  /** The same for a one-character separator. */
  lemma SplitAt(a: string, c: char, b: string)
    requires c !in a
    ensures Split(a + [c] + b, c) == [a] + Split(b, c)
  {
    SplitCons(a, c, b, x => x == c);
  }

  lemma SplitWithout(s: string, c: char)
    requires c !in s
    ensures Split(s, c) == [s]
  {
    SplitNoSep(s, x => x == c);
  }

  /** `s.substring(start, end)` for `start <= end`: both ends are clamped to the length. */
  function Substring(s: string, start: nat, end: nat): (r: string)
    requires start <= end
    ensures |r| <= end - start
  {
    var e := if end < |s| then end else |s|;
    var b := if start < e then start else e;
    s[b..e]
  }

  /** Every piece of a split is free of separators. */
  lemma {:induction false} SplitPiecesNoSep(s: string, isSep: char -> bool)
    ensures forall i :: 0 <= i < |SplitWhere(s, isSep)| ==> NoSep(SplitWhere(s, isSep)[i], isSep)
  {
    if s != [] {
      SplitPiecesNoSep(s[1..], isSep);
    }
  }

  /** The value of a two-digit string. */
  lemma DecValue2(s: string)
    requires |s| == 2 && AllDigits(s)
    ensures DecValue(s) == 10 * DigitVal(s[0]) + DigitVal(s[1])
  {
    var a := s[..1];
    assert a[..|a| - 1] == [] && a[|a| - 1] == s[0];
    assert DecValue(a) == DigitVal(s[0]);
    assert s[..|s| - 1] == a;
  }

  /** A small number is padded to two digits. */
  lemma Pad2Shape(n: int)
    requires 0 <= n < 100
    ensures |Pad2(n)| == 2 && AllDigits(Pad2(n))
  {
    Pad2Small(n);
  }

  /** Two digits are the zero-padded text of their value. */
  lemma Pad2OfDigits(s: string)
    requires |s| == 2 && AllDigits(s)
    ensures Pad2(DecValue(s)) == s
  {
    DecValue2(s);
    var n := DecValue(s);
    Pad2Small(n);
    assert n / 10 == DigitVal(s[0]) && n % 10 == DigitVal(s[1]);
  }

  /** Upper-casing twice is upper-casing once. */
  lemma ToUpperIdempotent(s: string)
    ensures ToUpper(ToUpper(s)) == ToUpper(s)
  {
  }

  /** The element at index `i`, or `""` where JavaScript would read `undefined` and `|| ""`
      replaces it. */
  function ItemOr(pieces: seq<string>, i: nat): string {
    if i < |pieces| then pieces[i] else ""
  }

  datatype Option<+T> = None | Some(value: T)
}
