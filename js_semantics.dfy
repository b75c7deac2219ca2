/** The few JavaScript built-ins the controllers lean on, stated exactly enough
    to reason about the query-string scanning: `indexOf`, `substring`, `split`,
    `parseInt`, `Number`, truthiness and template-literal interpolation. */
module JsSemantics {

  datatype Option<T> = None | Some(value: T)

  /** A value decoded from a JSON request body, or read back from the store.
      `Obj` stands for any non-null object or array. */
  datatype JsValue = Undefined | Null | Bool(b: bool) | Num(n: int) | Str(s: string) | Obj

  /** JavaScript truthiness: `undefined`, `null`, `false`, `0` and `""` are falsy. */
  predicate Truthy(v: JsValue) {
    match v
    case Undefined => false
    case Null => false
    case Bool(b) => b
    case Num(n) => n != 0
    case Str(s) => s != ""
    case Obj => true
  }

  /** `v === undefined || v === null` */
  predicate Nullish(v: JsValue) {
    v == Undefined || v == Null
  }

  // ---------------------------------------------------------------- indexOf

  /** `w` occurs in `s` starting at index `i`. */
  predicate OccursAt(s: string, w: string, i: int) {
    0 <= i && i + |w| <= |s| && s[i..i + |w|] == w
  }

  /** `s.indexOf(w)`: the first index at which `w` occurs in `s`, or -1
      (its meaning is stated by `IndexOfSpec`). */
  function IndexOf(s: string, w: string): int {
    IndexFrom(s, w, 0)
  }

  /** The first index at or after `k` at which `w` occurs, or -1. */
  function IndexFrom(s: string, w: string, k: nat): int
    requires k <= |s|
    decreases |s| - k
  {
    if OccursAt(s, w, k) then k
    else if k == |s| then -1
    else IndexFrom(s, w, k + 1)
  }

  lemma {:induction false} IndexFromSpec(s: string, w: string, k: nat)
    requires k <= |s|
    ensures var r := IndexFrom(s, w, k);
      && (r == -1 || k <= r <= |s|)
      && (r == -1 <==> forall i :: k <= i ==> !OccursAt(s, w, i))
      && (r != -1 ==> OccursAt(s, w, r) && forall i :: k <= i < r ==> !OccursAt(s, w, i))
    decreases |s| - k
  {
    if !OccursAt(s, w, k) && k < |s| {
      IndexFromSpec(s, w, k + 1);
    }
  }

  /** `indexOf` finds the first occurrence, and -1 means there is none. */
  lemma IndexOfSpec(s: string, w: string)
    ensures var r := IndexOf(s, w);
      && -1 <= r <= |s|
      && (r == -1 <==> forall i :: !OccursAt(s, w, i))
      && (r != -1 ==> OccursAt(s, w, r) && forall i :: 0 <= i < r ==> !OccursAt(s, w, i))
  {
    IndexFromSpec(s, w, 0);
  }

  /** `s.indexOf(w) !== -1` */
  predicate Contains(s: string, w: string) {
    IndexOf(s, w) != -1
  }

  /** A one-character needle is found at the first position holding that character. */
  lemma IndexOfChar(a: string, c: char, b: string)
    requires c !in a
    ensures IndexOf(a + [c] + b, [c]) == |a|
  {
    var s := a + [c] + b;
    IndexOfSpec(s, [c]);
    assert OccursAt(s, [c], |a|);
    forall i | 0 <= i < |a| ensures !OccursAt(s, [c], i) {
      assert s[i] == a[i];
    }
  }

  /** A character absent from `s` is not found. */
  lemma IndexOfAbsentChar(s: string, c: char)
    requires c !in s
    ensures IndexOf(s, [c]) == -1
  {
    IndexOfSpec(s, [c]);
    forall i | 0 <= i < |s| ensures !OccursAt(s, [c], i) {
      assert s[i] != c;
    }
  }

  // -------------------------------------------------------------- substring

  function Clamp(x: int, n: nat): (r: nat)
    ensures r <= n
    ensures 0 <= x <= n ==> r == x
  {
    if x < 0 then 0 else if x > n then n else x
  }

  /** `s.substring(start, end)`: each argument is clamped into [0, |s|], and the
      two are swapped when start exceeds end. */
  function Substring(s: string, start: int, end: int): (r: string)
    ensures |r| <= |s|
    ensures 0 <= start <= end <= |s| ==> r == s[start..end]
    ensures 0 <= end <= start <= |s| ==> r == s[end..start]
  {
    var a, b := Clamp(start, |s|), Clamp(end, |s|);
    if a <= b then s[a..b] else s[b..a]
  }

  /** Cutting a segment at the position where a word was found yields the word
      itself: `s.substring(s.indexOf(w), s.indexOf(w) + w.length) === w`. */
  lemma SubstringAtIndexOf(s: string, w: string)
    requires Contains(s, w)
    ensures Substring(s, IndexOf(s, w), IndexOf(s, w) + |w|) == w
  {
    IndexOfSpec(s, w);
  }

  // ------------------------------------------------------------------ split

  /** `s.split(sep)` for a one-character separator. */
  function Split(s: string, sep: char): (parts: seq<string>)
    ensures |parts| >= 1
    ensures forall i :: 0 <= i < |parts| ==> sep !in parts[i]
    ensures Join(parts, sep) == s
    decreases |s|
  {
    if s == [] then [[]]
    else
      var rest := Split(s[1..], sep);
      if s[0] == sep then [[]] + rest
      else [[s[0]] + rest[0]] + rest[1..]
  }

  /** `parts.join(sep)` */
  function Join(parts: seq<string>, sep: char): string {
    if parts == [] then []
    else if |parts| == 1 then parts[0]
    else parts[0] + [sep] + Join(parts[1..], sep)
  }

  /** A piece free of the separator splits into itself alone. */
  lemma {:induction false} SplitNoSeparator(s: string, sep: char)
    requires sep !in s
    ensures Split(s, sep) == [s]
    decreases |s|
  {
    if s != [] {
      SplitNoSeparator(s[1..], sep);
    }
  }

  /** The first separator ends the first piece. */
  lemma {:induction false} SplitAtFirst(a: string, sep: char, b: string)
    requires sep !in a
    ensures Split(a + [sep] + b, sep) == [a] + Split(b, sep)
    decreases |a|
  {
    if a == [] {
      assert (a + [sep] + b)[1..] == b;
    } else {
      assert (a + [sep] + b)[1..] == a[1..] + [sep] + b;
      SplitAtFirst(a[1..], sep, b);
      assert [a[0]] + a[1..] == a;
    }
  }

  /** Splitting undoes joining, whenever no piece holds the separator. */
  lemma {:induction false} SplitJoin(parts: seq<string>, sep: char)
    requires |parts| >= 1
    requires forall i :: 0 <= i < |parts| ==> sep !in parts[i]
    ensures Split(Join(parts, sep), sep) == parts
  {
    if |parts| == 1 {
      SplitNoSeparator(parts[0], sep);
    } else {
      SplitJoin(parts[1..], sep);
      SplitAtFirst(parts[0], sep, Join(parts[1..], sep));
      assert [parts[0]] + parts[1..] == parts;
    }
  }

  // --------------------------------------------------------------- numbers

  /** The characters JavaScript's `parseInt` and `Number` treat as white space
      (the ECMAScript WhiteSpace and LineTerminator sets). */
  predicate IsJsSpace(c: char) {
    || c == ' ' || c == '\t' || c == '\n' || c == '\r' || c == '\U{B}' || c == '\U{C}'
    || c == '\U{A0}' || c == '\U{FEFF}' || c == '\U{1680}' || ('\U{2000}' <= c <= '\U{200A}')
    || c == '\U{2028}' || c == '\U{2029}' || c == '\U{202F}' || c == '\U{205F}' || c == '\U{3000}'
  }

  /** The value of `c` as a digit (letters count from 10, either case), or 36 for a non-digit. */
  function DigitValue(c: char): (d: nat)
    ensures d <= 36
  {
    if '0' <= c <= '9' then c as int - '0' as int
    else if 'a' <= c <= 'z' then c as int - 'a' as int + 10
    else if 'A' <= c <= 'Z' then c as int - 'A' as int + 10
    else 36
  }

  predicate IsDigitIn(c: char, radix: nat) {
    DigitValue(c) < radix
  }

  /** The number of leading characters of `s` that are digits in `radix`. */
  function LeadingDigits(s: string, radix: nat): (n: nat)
    ensures n <= |s|
  {
    if s != [] && IsDigitIn(s[0], radix) then 1 + LeadingDigits(s[1..], radix) else 0
  }

  /** The digit run is maximal: it holds only digits and stops at a non-digit. */
  lemma {:induction false} LeadingDigitsSpec(s: string, radix: nat)
    ensures forall i :: 0 <= i < LeadingDigits(s, radix) ==> IsDigitIn(s[i], radix)
    ensures LeadingDigits(s, radix) < |s| ==> !IsDigitIn(s[LeadingDigits(s, radix)], radix)
  {
    if s != [] && IsDigitIn(s[0], radix) {
      LeadingDigitsSpec(s[1..], radix);
    }
  }

  /** A string of digits is one digit run. */
  lemma {:induction false} LeadingDigitsAll(s: string, radix: nat)
    requires forall i :: 0 <= i < |s| ==> IsDigitIn(s[i], radix)
    ensures LeadingDigits(s, radix) == |s|
  {
    if s != [] {
      LeadingDigitsAll(s[1..], radix);
    }
  }

  /** The value of a digit string, most significant digit first. */
  function DigitsValue(d: string, radix: nat): nat {
    if d == [] then 0
    else DigitsValue(d[..|d| - 1], radix) * radix + DigitValue(d[|d| - 1])
  }

  function TrimStart(s: string): (r: string)
    ensures |r| <= |s|
  {
    if s != [] && IsJsSpace(s[0]) then TrimStart(s[1..]) else s
  }

  function TrimEnd(s: string): (r: string)
    ensures |r| <= |s|
  {
    if s != [] && IsJsSpace(s[|s| - 1]) then TrimEnd(s[..|s| - 1]) else s
  }

  predicate HexPrefixed(u: string) {
    |u| >= 2 && u[0] == '0' && (u[1] == 'x' || u[1] == 'X')
  }

  /** The digits after any sign: a `0x`/`0X` prefix selects base 16, and the
      longest run of digits is read; no digit at all is NaN, here `None`. */
  function ParseUnsigned(u: string): (r: Option<nat>)
    ensures r.None? <==> LeadingDigits(if HexPrefixed(u) then u[2..] else u, if HexPrefixed(u) then 16 else 10) == 0
  {
    var radix := if HexPrefixed(u) then 16 else 10;
    var body := if HexPrefixed(u) then u[2..] else u;
    var n := LeadingDigits(body, radix);
    if n == 0 then None else Some(DigitsValue(body[..n], radix))
  }

  function Negated(r: Option<nat>): Option<int> {
    match r
    case None => None
    case Some(n) => Some(-(n as int))
  }

  function Widened(r: Option<nat>): Option<int> {
    match r
    case None => None
    case Some(n) => Some(n)
  }

  /** `parseInt(s)` with no radix: leading white space is skipped, then an
      optional sign, then the digits as `ParseUnsigned` reads them. */
  function ParseInt(s: string): (r: Option<int>)
  {
    var t := TrimStart(s);
    if t != [] && t[0] == '-' then Negated(ParseUnsigned(t[1..]))
    else if t != [] && t[0] == '+' then Widened(ParseUnsigned(t[1..]))
    else Widened(ParseUnsigned(t))
  }

  /** `Number(u)` for text with no sign and no surrounding white space. */
  function NumberUnsigned(u: string): Option<nat> {
    if HexPrefixed(u) && |u| > 2 && LeadingDigits(u[2..], 16) == |u| - 2 then Some(DigitsValue(u[2..], 16))
    else if u != [] && LeadingDigits(u, 10) == |u| then Some(DigitsValue(u, 10))
    else None
  }

  /** `Number(s)` on a query-string value, for integer text: surrounding white
      space is ignored and empty text is 0; an optional sign and decimal digits
      give that integer; `0x`/`0X` and hexadecimal digits, unsigned, give their
      value; anything else is NaN, here `None`. */
  function NumberOf(s: string): (r: Option<int>)
  {
    var t := TrimEnd(TrimStart(s));
    if t == [] then Some(0)
    else if t[0] == '-' then (if HexPrefixed(t[1..]) then None else Negated(NumberUnsigned(t[1..])))
    else if t[0] == '+' then (if HexPrefixed(t[1..]) then None else Widened(NumberUnsigned(t[1..])))
    else Widened(NumberUnsigned(t))
  }

  // ------------------------------------------------------- number to text

  function DigitChar(d: nat): (c: char)
    requires d < 10
    ensures DigitValue(c) == d
  {
    ['0', '1', '2', '3', '4', '5', '6', '7', '8', '9'][d]
  }

  /** The decimal digits of `n`, with no leading zero. */
  function NatDigits(n: nat): (s: string)
    ensures s != []
    ensures forall i :: 0 <= i < |s| ==> IsDigitIn(s[i], 10)
    ensures s[0] == '0' ==> n == 0 && |s| == 1
    ensures DigitsValue(s, 10) == n
    decreases n
  {
    if n < 10 then [DigitChar(n)]
    else
      var s := NatDigits(n / 10) + [DigitChar(n % 10)];
      assert s[..|s| - 1] == NatDigits(n / 10);
      s
  }

  /** `String(n)` for an integer. */
  function DecimalString(n: int): string {
    if n < 0 then "-" + NatDigits(-n) else NatDigits(n)
  }

  /** A decimal digit string reads as its own value and is not hexadecimal. */
  lemma ParseUnsignedDigits(m: nat)
    ensures ParseUnsigned(NatDigits(m)) == Some(m)
    ensures NumberUnsigned(NatDigits(m)) == Some(m)
  {
    var u := NatDigits(m);
    assert !HexPrefixed(u);
    LeadingDigitsAll(u, 10);
    assert u[..|u|] == u;
  }

  lemma DigitIsNotSpace(c: char)
    requires IsDigitIn(c, 10)
    ensures !IsJsSpace(c) && c != '-' && c != '+'
  {
  }

  /** Text that starts with a digit has no leading white space to trim. */
  lemma TrimStartAtDigit(s: string)
    requires s != [] && IsDigitIn(s[0], 10)
    ensures TrimStart(s) == s
  {
    DigitIsNotSpace(s[0]);
  }

  lemma ParseIntNatDigits(m: nat)
    ensures ParseInt(NatDigits(m)) == Some(m)
    ensures ParseInt("-" + NatDigits(m)) == Some(-(m as int))
  {
    var digits := NatDigits(m);
    TrimStartAtDigit(digits);
    DigitIsNotSpace(digits[0]);
    ParseUnsignedDigits(m);
    assert ParseInt(digits) == Widened(ParseUnsigned(digits));
    var s := "-" + digits;
    assert s[1..] == digits;
    assert TrimStart(s) == s;
    assert ParseInt(s) == Negated(ParseUnsigned(digits));
  }

  lemma ParseIntNegative(n: int)
    requires n < 0
    ensures ParseInt(DecimalString(n)) == Some(n)
  {
    var m: nat := -n;
    ParseIntNatDigits(m);
    assert DecimalString(n) == "-" + NatDigits(m);
  }

  /** Reading back the decimal text of an integer gives that integer:
      `parseInt(String(n)) === n`. */
  lemma ParseIntDecimalString(n: int)
    ensures ParseInt(DecimalString(n)) == Some(n)
  {
    if n < 0 {
      ParseIntNegative(n);
    } else {
      ParseIntNatDigits(n);
    }
  }

  lemma NumberOfNatDigits(m: nat)
    ensures NumberOf(NatDigits(m)) == Some(m)
  {
    var digits := NatDigits(m);
    DigitIsNotSpace(digits[0]);
    DigitIsNotSpace(digits[|digits| - 1]);
    ParseUnsignedDigits(m);
    assert TrimStart(digits) == digits;
    assert TrimEnd(digits) == digits;
    assert NumberOf(digits) == Widened(NumberUnsigned(digits));
  }

  lemma NumberOfMinusNatDigits(m: nat)
    ensures NumberOf("-" + NatDigits(m)) == Some(-(m as int))
  {
    var digits := NatDigits(m);
    DigitIsNotSpace(digits[0]);
    DigitIsNotSpace(digits[|digits| - 1]);
    ParseUnsignedDigits(m);
    var s := "-" + digits;
    assert s[1..] == digits;
    assert s[|s| - 1] == digits[|digits| - 1];
    assert TrimStart(s) == s;
    assert TrimEnd(s) == s;
    assert !HexPrefixed(digits);
    assert NumberOf(s) == Negated(NumberUnsigned(digits));
  }

  lemma NumberOfNegative(n: int)
    requires n < 0
    ensures NumberOf(DecimalString(n)) == Some(n)
  {
    var m: nat := -n;
    NumberOfMinusNatDigits(m);
    assert DecimalString(n) == "-" + NatDigits(m);
  }

  /** `Number(String(n)) === n`. */
  lemma NumberOfDecimalString(n: int)
    ensures NumberOf(DecimalString(n)) == Some(n)
  {
    if n < 0 {
      NumberOfNegative(n);
    } else {
      NumberOfNatDigits(n);
    }
  }

  /** `${v}` in a template literal. */
  function Display(v: JsValue): string {
    match v
    case Undefined => "undefined"
    case Null => "null"
    case Bool(b) => if b then "true" else "false"
    case Num(n) => DecimalString(n)
    case Str(s) => s
    case Obj => "[object Object]"
  }
}
