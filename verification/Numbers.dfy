/** Numbers and single characters of the match-state text, as printf writes and sscanf and strtol read them. */
module Numbers {

  predicate Digit(ch: char) { '0' <= ch <= '9' }

  predicate Space(ch: char) { ch == ' ' || ch == '\t' || ch == '\n' || ch == '\r' }

  function DigitChar(d: nat): char
    requires d < 10
  {
    "0123456789"[d]
  }

  function DigitValue(ch: char): (d: nat)
    ensures d < 10
  {
    if Digit(ch) then ch as int - '0' as int else 0
  }

  /** %u */
  function Dec(n: nat): (s: string)
    ensures s != []
  {
    if n < 10 then [DigitChar(n)] else Dec(n / 10) + [DigitChar(n % 10)]
  }

  /** %d */
  function DecInt(n: int): (s: string)
    ensures s != []
  {
    if n < 0 then ['-'] + Dec(-n) else Dec(n)
  }

  /** How many digits s starts with. */
  function DigitRun(s: string): (n: nat)
    ensures n <= |s|
  {
    if s == [] || !Digit(s[0]) then 0 else 1 + DigitRun(s[1..])
  }

  /** The value of a string of digits. */
  function Value(s: string): nat {
    if s == [] then 0 else 10 * Value(s[..|s| - 1]) + DigitValue(s[|s| - 1])
  }

  predicate AllDigits(s: string) {
    forall k :: 0 <= k < |s| ==> Digit(s[k])
  }

  lemma DigitCharIs(d: nat)
    requires d < 10
    ensures Digit(DigitChar(d)) && DigitValue(DigitChar(d)) == d
  {
  }

  lemma {:induction false} DecIsDigits(n: nat)
    ensures AllDigits(Dec(n)) && Digit(Dec(n)[0])
  {
    if n < 10 {
      DigitCharIs(n);
    } else {
      DecIsDigits(n / 10);
      DigitCharIs(n % 10);
    }
  }

  function SkipSpaces(s: string): (r: string)
    ensures |r| <= |s|
  {
    if s != [] && Space(s[0]) then SkipSpaces(s[1..]) else s
  }

  datatype Parsed<T> = Error | Got(value: T, rest: string)

  function ReadDigits(s: string): (p: Parsed<nat>)
    ensures p.Got? ==> |p.rest| < |s|
  {
    var n := DigitRun(s);
    if n == 0 then Error else Got(Value(s[..n]), s[n..])
  }

  /** Scanning an unsigned number. */
  function ReadNat(s: string): (p: Parsed<nat>)
    ensures p.Got? ==> |p.rest| < |s|
  {
    ReadDigits(SkipSpaces(s))
  }

  function Signed(negative: bool, n: int): int { if negative then -n else n }

  /** Scanning a number with a sign. */
  function ReadInt(s: string): (p: Parsed<int>)
    ensures p.Got? ==> |p.rest| < |s|
  {
    var t := SkipSpaces(s);
    var sign := t != [] && (t[0] == '-' || t[0] == '+');
    match ReadDigits(if sign then t[1..] else t)
    case Error => Error
    case Got(n, rest) => Got(Signed(sign && t[0] == '-', n), rest)
  }

  /** strtol reads 0 and nothing where there is no number. */
  function StrTol(s: string): (int, string) {
    match ReadInt(s)
    case Error => (0, s)
    case Got(n, rest) => (n, rest)
  }

  lemma {:induction false} ValueOfDec(n: nat)
    ensures Value(Dec(n)) == n
  {
    var s := Dec(n);
    if n < 10 {
      DigitCharIs(n);
      assert s[..|s| - 1] == [];
    } else {
      ValueOfDec(n / 10);
      DigitCharIs(n % 10);
      assert s[..|s| - 1] == Dec(n / 10);
    }
  }

  lemma {:induction false} RunOf(d: string, rest: string)
    requires AllDigits(d) && (rest == [] || !Digit(rest[0]))
    ensures DigitRun(d + rest) == |d|
  {
    if d != [] {
      RunOf(d[1..], rest);
      assert (d + rest)[1..] == d[1..] + rest;
    } else {
      assert d + rest == rest;
    }
  }

  lemma DigitsRead(n: nat, rest: string)
    requires rest == [] || !Digit(rest[0])
    ensures ReadDigits(Dec(n) + rest) == Got(n, rest)
  {
    DecIsDigits(n);
    RunOf(Dec(n), rest);
    ValueOfDec(n);
    Cut(Dec(n), rest);
  }

  lemma Cut(d: string, rest: string)
    ensures (d + rest)[..|d|] == d && (d + rest)[|d|..] == rest
  {
  }

  /** A printed number reads back. */
  lemma DecReads(n: nat, rest: string)
    requires rest == [] || !Digit(rest[0])
    ensures ReadNat(Dec(n) + rest) == Got(n, rest)
  {
    DigitsRead(n, rest);
    DecIsDigits(n);
    FirstOf(Dec(n), rest);
    NoSpace(Dec(n) + rest);
  }

  lemma NoSpace(s: string)
    requires s != [] && (Digit(s[0]) || s[0] == '-')
    ensures SkipSpaces(s) == s
  {
  }

  lemma PlainReads(s: string, n: nat, rest: string)
    requires s != [] && Digit(s[0]) && ReadDigits(s) == Got(n, rest)
    ensures ReadInt(s) == Got(n, rest)
  {
    NoSpace(s);
  }

  lemma NegativeReads(s: string, n: nat, rest: string)
    requires s != [] && s[0] == '-' && ReadDigits(s[1..]) == Got(n, rest)
    ensures ReadInt(s) == Got(-(n as int), rest)
  {
    NoSpace(s);
  }

  lemma PositiveReads(n: nat, rest: string)
    requires rest == [] || !Digit(rest[0])
    ensures ReadInt(Dec(n) + rest) == Got(n, rest)
  {
    DigitsRead(n, rest);
    DecIsDigits(n);
    FirstOf(Dec(n), rest);
    PlainReads(Dec(n) + rest, n, rest);
  }

  lemma FirstOf(s: string, rest: string)
    requires s != []
    ensures s + rest != [] && (s + rest)[0] == s[0]
  {
  }

  lemma MinusReads(n: nat, rest: string)
    requires rest == [] || !Digit(rest[0])
    ensures ReadInt((['-'] + Dec(n)) + rest) == Got(-(n as int), rest)
  {
    DigitsRead(n, rest);
    After('-', Dec(n), rest);
    NegativeReads((['-'] + Dec(n)) + rest, n, rest);
  }

  lemma After(ch: char, s: string, rest: string)
    ensures var t := ([ch] + s) + rest; t != [] && t[0] == ch && t[1..] == s + rest
  {
  }

  lemma DecIntReads(n: int, rest: string)
    requires rest == [] || !Digit(rest[0])
    ensures ReadInt(DecInt(n) + rest) == Got(n, rest) && StrTol(DecInt(n) + rest) == (n, rest)
  {
    if n >= 0 { PositiveReads(n, rest); } else { MinusReads(-n, rest); }
  }
}
