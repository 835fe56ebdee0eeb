/** The text functions the modelled code takes from its standard library: numbers, words and cuts. */
module Text {
  datatype Option<+T> = None | Some(value: T)

  // ---------------------------------------------------------------- numbers

  const DIGITS: string := "0123456789"

  function Digit(d: nat): char
    requires d < 10
  {
    DIGITS[d]
  }

  predicate IsDigit(c: char) {
    '0' <= c <= '9'
  }

  function DigitValue(c: char): nat
    requires IsDigit(c)
  {
    c as nat - '0' as nat
  }

  function Decimal(n: nat): string {
    if n < 10 then [Digit(n)] else Decimal(n / 10) + [Digit(n % 10)]
  }

  /** strconv.Itoa */
  function Itoa(n: int): string {
    if n < 0 then "-" + Decimal(-n) else Decimal(n)
  }

  predicate AllDigits(s: string) {
    forall i :: 0 <= i < |s| ==> IsDigit(s[i])
  }

  function Value(s: string): nat
    requires AllDigits(s)
  {
    if s == "" then 0 else 10 * Value(s[..|s| - 1]) + DigitValue(s[|s| - 1])
  }

  /** The values of the 64-bit int of the source. */
  const MAX_INT: int := 0x7fff_ffff_ffff_ffff
  const MIN_INT: int := -0x8000_0000_0000_0000

  /** strconv.Atoi: an optional sign, digits, and a value the int holds. */
  function Atoi(s: string): Option<int> {
    var signed := s != "" && (s[0] == '+' || s[0] == '-');
    var digits := if signed then s[1..] else s;
    if digits == "" || !AllDigits(digits) then None
    else
      var v: int := if signed && s[0] == '-' then -(Value(digits) as int) else Value(digits);
      if MIN_INT <= v <= MAX_INT then Some(v) else None
  }

  lemma {:induction false} DecimalValue(n: nat)
    ensures Decimal(n) != "" && AllDigits(Decimal(n)) && Value(Decimal(n)) == n
  {
    var s := Decimal(n);
    if n < 10 {
      assert s[..0] == "";
    } else {
      DecimalValue(n / 10);
      assert s[..|s| - 1] == Decimal(n / 10);
    }
  }

  lemma AtoiOfDigits(s: string)
    requires s != "" && AllDigits(s)
    ensures Atoi(s) == if Value(s) <= MAX_INT then Some(Value(s)) else None
  {
    assert IsDigit(s[0]);
  }

  lemma AtoiItoa(n: nat)
    ensures Atoi(Itoa(n)) == if n <= MAX_INT then Some(n) else None
  {
    DecimalValue(n);
    AtoiOfDigits(Decimal(n));
  }

  lemma Regroup(a: string, b: string, c: string)
    ensures a + b + c == a + (b + c)
  {
  }

  // ---------------------------------------------------------------- words

  /** unicode.IsSpace */
  predicate IsSpace(c: char) {
    var u := c as nat;
    || 0x09 <= u <= 0x0d || u == 0x20 || u == 0x85 || u == 0xa0 || u == 0x1680
    || 0x2000 <= u <= 0x200a || u == 0x2028 || u == 0x2029 || u == 0x202f || u == 0x205f || u == 0x3000
  }

  predicate Spaceless(s: string) {
    forall i :: 0 <= i < |s| ==> !IsSpace(s[i])
  }

  /** The length of the word the text starts with. */
  function WordLength(s: string): (n: nat)
    ensures n <= |s|
    ensures Spaceless(s[..n])
    ensures n < |s| ==> IsSpace(s[n])
  {
    if s == "" || IsSpace(s[0]) then 0
    else
      var n := 1 + WordLength(s[1..]);
      assert s[..n] == [s[0]] + s[1..][..n - 1];
      n
  }

  /** strings.Fields */
  function Fields(s: string): (words: seq<string>)
    ensures forall i :: 0 <= i < |words| ==> words[i] != "" && Spaceless(words[i])
    decreases |s|
  {
    if s == "" then []
    else if IsSpace(s[0]) then Fields(s[1..])
    else var n := WordLength(s); [s[..n]] + Fields(s[n..])
  }

  /** strings.Join(words, " ") */
  function JoinSpaced(words: seq<string>): string {
    if words == [] then ""
    else if |words| == 1 then words[0]
    else words[0] + " " + JoinSpaced(words[1..])
  }

  lemma {:induction false} WordLengthOf(w: string, rest: string)
    requires Spaceless(w) && (rest == "" || IsSpace(rest[0]))
    ensures WordLength(w + rest) == |w|
  {
    if w == "" {
      assert w + rest == rest;
    } else {
      WordLengthOf(w[1..], rest);
      assert (w + rest)[1..] == w[1..] + rest;
    }
  }

  lemma {:induction false} FieldsOfJoin(words: seq<string>)
    requires forall i :: 0 <= i < |words| ==> words[i] != "" && Spaceless(words[i])
    ensures Fields(JoinSpaced(words)) == words
  {
    if words == [] {
    } else {
      var w := words[0];
      var rest := if |words| == 1 then "" else " " + JoinSpaced(words[1..]);
      var s := w + rest;
      assert JoinSpaced(words) == s;
      WordLengthOf(w, rest);
      FieldsOfJoin(words[1..]);
      assert s[..|w|] == w && s[|w|..] == rest;
      assert s[0] == w[0];
      assert |words| > 1 ==> rest[1..] == JoinSpaced(words[1..]);
    }
  }

  // ---------------------------------------------------------------- characters of a text

  predicate Has(s: string, c: char) {
    exists i :: 0 <= i < |s| && s[i] == c
  }

  /** The position of the first `c`, the length when there is none. */
  function IndexOf(s: string, c: char): (n: nat)
    ensures n <= |s|
    ensures n < |s| ==> s[n] == c
    ensures forall i :: 0 <= i < n ==> s[i] != c
  {
    if s == "" || s[0] == c then 0 else 1 + IndexOf(s[1..], c)
  }

  /** strings.Cut around one character. */
  function Cut(s: string, c: char): Option<(string, string)> {
    var n := IndexOf(s, c);
    if n < |s| then Some((s[..n], s[n + 1..])) else None
  }

  lemma CutAt(a: string, c: char, b: string)
    requires !Has(a, c)
    ensures Cut(a + [c] + b, c) == Some((a, b))
  {
    var s := a + [c] + b;
    assert s[|a|] == c;
    assert forall i :: 0 <= i < |a| ==> s[i] == a[i];
    assert IndexOf(s, c) == |a|;
    assert s[..|a|] == a && s[|a| + 1..] == b;
  }
}
