/** Byte strings as Go handles them.

    A Go `string` is an immutable sequence of bytes; indexing it yields a
    byte. The model writes such strings as sequences of characters below
    256, so that literals stay readable. This module holds the string
    primitives the client relies on: joining and splitting on a separator
    byte (`strings.Join`, `strings.Split`), ASCII lower-casing, trimming a
    byte from either end, bytewise ordering (`sort.Strings`), and decimal
    formatting and parsing (`strconv.Itoa`, `strconv.ParseInt`). */
module Text {

  type Byte = c: char | c as int < 256 witness 'a'
  type Bytes = seq<Byte>

  predicate IsDigit(c: char) { '0' <= c <= '9' }
  predicate IsUpperAscii(c: char) { 'A' <= c <= 'Z' }
  predicate IsLowerAscii(c: char) { 'a' <= c <= 'z' }
  predicate IsAlnum(c: char) { IsDigit(c) || IsUpperAscii(c) || IsLowerAscii(c) }

  predicate IsAscii(s: Bytes) { forall i :: 0 <= i < |s| ==> s[i] as int < 128 }

  /** Concatenation is associative. */
  lemma ConcatAssoc<T>(a: seq<T>, b: seq<T>, c: seq<T>)
    ensures a + b + c == a + (b + c)
  {
  }

  // ---------------------------------------------------------------------------
  // Joining and splitting

  /** `strings.Join(xs, string(sep))`. */
  function Join(xs: seq<Bytes>, sep: Byte): Bytes
  {
    if |xs| == 0 then []
    else if |xs| == 1 then xs[0]
    else xs[0] + [sep] + Join(xs[1..], sep)
  }

  /** `strings.Split(s, string(sep))`: the pieces between separators, so
      there is always at least one piece and `Split("")` is `[""]`. */
  function Split(s: Bytes, sep: Byte): (r: seq<Bytes>)
    ensures |r| >= 1
    decreases |s|
  {
    if |s| == 0 then [[]]
    else
      var rest := Split(s[1..], sep);
      if s[0] == sep then [[]] + rest
      else [[s[0]] + rest[0]] + rest[1..]
  }

  lemma {:induction false} SplitWithoutSeparator(s: Bytes, sep: Byte)
    requires sep !in s
    ensures Split(s, sep) == [s]
    decreases |s|
  {
    if |s| > 0 {
      SplitWithoutSeparator(s[1..], sep);
      assert [s[0]] + s[1..] == s;
    }
  }

  /** Splitting at a leading piece that holds no separator peels it off. */
  lemma {:induction false} SplitPeel(a: Bytes, sep: Byte, b: Bytes)
    requires sep !in a
    ensures Split(a + [sep] + b, sep) == [a] + Split(b, sep)
    decreases |a|
  {
    if |a| == 0 {
      assert a + [sep] + b == [sep] + b;
      assert ([sep] + b)[1..] == b;
    } else {
      assert (a + [sep] + b)[1..] == a[1..] + [sep] + b;
      SplitPeel(a[1..], sep, b);
      assert [a[0]] + a[1..] == a;
    }
  }

  /** Splitting undoes joining when no piece holds the separator. */
  lemma {:induction false} SplitJoin(xs: seq<Bytes>, sep: Byte)
    requires |xs| >= 1
    requires forall i :: 0 <= i < |xs| ==> sep !in xs[i]
    ensures Split(Join(xs, sep), sep) == xs
    decreases |xs|
  {
    if |xs| == 1 {
      SplitWithoutSeparator(xs[0], sep);
    } else {
      SplitJoin(xs[1..], sep);
      SplitPeel(xs[0], sep, Join(xs[1..], sep));
      assert [xs[0]] + xs[1..] == xs;
    }
  }

  /** No piece produced by `Split` contains the separator. */
  lemma {:induction false} SplitPiecesFree(s: Bytes, sep: Byte)
    ensures forall i :: 0 <= i < |Split(s, sep)| ==> sep !in Split(s, sep)[i]
    decreases |s|
  {
    if |s| > 0 {
      SplitPiecesFree(s[1..], sep);
    }
  }

  /** Joining undoes splitting. */
  lemma {:induction false} JoinSplit(s: Bytes, sep: Byte)
    ensures Join(Split(s, sep), sep) == s
    decreases |s|
  {
    if |s| > 0 {
      var rest := Split(s[1..], sep);
      JoinSplit(s[1..], sep);
      if s[0] == sep {
        JoinEmptyHead(rest, sep);
      } else {
        JoinGrowHead(s[0], rest, sep);
      }
      assert [s[0]] + s[1..] == s;
    }
  }

  /** An empty first piece joins as a leading separator. */
  lemma JoinEmptyHead(rest: seq<Bytes>, sep: Byte)
    requires |rest| >= 1
    ensures Join([[]] + rest, sep) == [sep] + Join(rest, sep)
  {
    assert ([[]] + rest)[1..] == rest;
  }

  /** A byte put in front of the first piece comes first in the join. */
  lemma JoinGrowHead(x: Byte, rest: seq<Bytes>, sep: Byte)
    requires |rest| >= 1
    ensures Join([[x] + rest[0]] + rest[1..], sep) == [x] + Join(rest, sep)
  {
    var first := [x] + rest[0];
    if |rest| == 1 {
      assert rest == [rest[0]];
    } else {
      assert ([first] + rest[1..])[1..] == rest[1..];
      assert first + [sep] + Join(rest[1..], sep) == [x] + (rest[0] + [sep] + Join(rest[1..], sep));
    }
  }

  /** Splitting a concatenation at a separator splits each side. */
  lemma {:induction false} SplitAround(a: Bytes, sep: Byte, b: Bytes)
    ensures Split(a + [sep] + b, sep) == Split(a, sep) + Split(b, sep)
    decreases |a|
  {
    if |a| == 0 {
      SplitPeel(a, sep, b);
    } else {
      var t := a[1..] + [sep] + b;
      SplitTail(a, sep, b);
      SplitCons(a[0], t, sep);
      SplitCons(a[0], a[1..], sep);
      SplitAround(a[1..], sep, b);
      if a[0] == sep {
        EmptyFront(Split(a[1..], sep), Split(b, sep));
      } else {
        MergeFront([a[0]], Split(a[1..], sep), Split(b, sep));
      }
    }
  }

  lemma EmptyFront(l: seq<Bytes>, r: seq<Bytes>)
    ensures [[]] + (l + r) == [[]] + l + r
  {
  }

  lemma MergeFront(h: Bytes, l: seq<Bytes>, r: seq<Bytes>)
    requires |l| >= 1
    ensures [h + (l + r)[0]] + (l + r)[1..] == [h + l[0]] + l[1..] + r
  {
    assert (l + r)[1..] == l[1..] + r;
  }

  /** How splitting sees the first byte. */
  lemma SplitCons(x: Byte, t: Bytes, sep: Byte)
    ensures Split([x] + t, sep)
         == if x == sep then [[]] + Split(t, sep) else [[x] + Split(t, sep)[0]] + Split(t, sep)[1..]
  {
    assert ([x] + t)[1..] == t;
  }

  lemma SplitTail(a: Bytes, sep: Byte, b: Bytes)
    requires |a| > 0
    ensures a + [sep] + b == [a[0]] + (a[1..] + [sep] + b)
    ensures a == [a[0]] + a[1..]
  {
  }

  // ---------------------------------------------------------------------------
  // Case and trimming

  function LowerByte(c: Byte): Byte
  {
    if IsUpperAscii(c) then (c as int + 32) as char else c
  }

  /** `strings.ToLower` restricted to ASCII text (the only text it is given
      here: method names and percent-encoded keys). */
  function ToLower(s: Bytes): (r: Bytes)
    ensures |r| == |s|
    ensures forall i :: 0 <= i < |s| ==> r[i] == LowerByte(s[i])
  {
    if |s| == 0 then [] else [LowerByte(s[0])] + ToLower(s[1..])
  }

  /** `strings.TrimLeft(s, string(c))`. */
  function TrimLeft(s: Bytes, c: Byte): (r: Bytes)
    ensures |r| <= |s|
    decreases |s|
  {
    if |s| > 0 && s[0] == c then TrimLeft(s[1..], c) else s
  }

  /** `strings.TrimRight(s, string(c))`. */
  function TrimRight(s: Bytes, c: Byte): (r: Bytes)
    ensures |r| <= |s|
    decreases |s|
  {
    if |s| > 0 && s[|s| - 1] == c then TrimRight(s[..|s| - 1], c) else s
  }

  /** `TrimLeft` removes exactly the longest prefix made only of `c`. */
  lemma {:induction false} TrimLeftShape(s: Bytes, c: Byte)
    ensures var r := TrimLeft(s, c);
            && r == s[|s| - |r|..]
            && (|r| > 0 ==> r[0] != c)
            && forall i :: 0 <= i < |s| - |r| ==> s[i] == c
    decreases |s|
  {
    if |s| > 0 && s[0] == c {
      TrimLeftShape(s[1..], c);
    }
  }

  /** `TrimRight` removes exactly the longest suffix made only of `c`. */
  lemma {:induction false} TrimRightShape(s: Bytes, c: Byte)
    ensures var r := TrimRight(s, c);
            && r == s[..|r|]
            && (|r| > 0 ==> r[|r| - 1] != c)
            && forall i :: |r| <= i < |s| ==> s[i] == c
    decreases |s|
  {
    if |s| > 0 && s[|s| - 1] == c {
      TrimRightShape(s[..|s| - 1], c);
    }
  }

  /** `strings.Trim(s, string(c))`. */
  function Trim(s: Bytes, c: Byte): Bytes
  {
    TrimRight(TrimLeft(s, c), c)
  }

  // ---------------------------------------------------------------------------
  // Bytewise ordering, as Go compares strings

  predicate LessOrEqual(a: Bytes, b: Bytes)
    decreases |a|
  {
    |a| == 0 || (|b| > 0 && (a[0] < b[0] || (a[0] == b[0] && LessOrEqual(a[1..], b[1..]))))
  }

  lemma {:induction false} LessOrEqualTotal(a: Bytes, b: Bytes)
    ensures LessOrEqual(a, b) || LessOrEqual(b, a)
    decreases |a|
  {
    if |a| > 0 && |b| > 0 && a[0] == b[0] {
      LessOrEqualTotal(a[1..], b[1..]);
    }
  }

  lemma {:induction false} LessOrEqualTransitive(a: Bytes, b: Bytes, c: Bytes)
    requires LessOrEqual(a, b) && LessOrEqual(b, c)
    ensures LessOrEqual(a, c)
    decreases |a|
  {
    if |a| > 0 && a[0] == b[0] && b[0] == c[0] {
      LessOrEqualTransitive(a[1..], b[1..], c[1..]);
    }
  }

  lemma {:induction false} LessOrEqualAntisymmetric(a: Bytes, b: Bytes)
    requires LessOrEqual(a, b) && LessOrEqual(b, a)
    ensures a == b
    decreases |a|
  {
    if |a| > 0 {
      LessOrEqualAntisymmetric(a[1..], b[1..]);
      assert a == [a[0]] + a[1..] && b == [b[0]] + b[1..];
    }
  }

  // ---------------------------------------------------------------------------
  // Decimal numbers

  const MaxInt64: int := 0x7fff_ffff_ffff_ffff
  const MinInt64: int := -0x8000_0000_0000_0000
  const MaxUint64: int := 0xffff_ffff_ffff_ffff

  function DigitChar(d: int): Byte
    requires 0 <= d < 10
  {
    ('0' as int + d) as char
  }

  function DigitValue(c: Byte): int
    requires IsDigit(c)
  {
    c as int - '0' as int
  }

  function NatToDecimal(n: nat): Bytes
    decreases n
  {
    if n < 10 then [DigitChar(n)] else NatToDecimal(n / 10) + [DigitChar(n % 10)]
  }

  /** `strconv.Itoa` / `strconv.FormatInt(n, 10)` / `fmt` `%d`. */
  function Itoa(n: int): Bytes
  {
    if n < 0 then ['-'] + NatToDecimal(-n) else NatToDecimal(n)
  }

  lemma {:induction false} NatToDecimalDigits(n: nat)
    ensures |NatToDecimal(n)| >= 1
    ensures forall i :: 0 <= i < |NatToDecimal(n)| ==> IsDigit(NatToDecimal(n)[i])
    decreases n
  {
    if n >= 10 {
      NatToDecimalDigits(n / 10);
    }
  }

  /** Outcome of `strconv.ParseInt(s, 10, 64)`: the value, or which error
      was met first together with the value Go returns alongside it (0 for
      a syntax error, the clamped bound for a range error). */
  datatype ParseOutcome = Parsed(value: int) | SyntaxError | RangeError(clamped: int)
  {
    /** The value a caller that ignores the error goes on to use. */
    function Lossy(): int
    {
      match this
      case Parsed(v) => v
      case SyntaxError => 0
      case RangeError(c) => c
    }
  }

  datatype DigitsOutcome = DigitsOk(value: nat) | DigitsSyntax | DigitsRange

  /** `strconv.ParseUint`'s scan of the digits, left to right, starting from
      the accumulated value `acc`: the first non-digit is a syntax error, the
      first step past 2^64-1 a range error, whichever comes first. */
  function ScanDigits(s: Bytes, acc: nat): DigitsOutcome
    decreases |s|
  {
    if |s| == 0 then DigitsOk(acc)
    else if !IsDigit(s[0]) then DigitsSyntax
    else if acc * 10 + DigitValue(s[0]) > MaxUint64 then DigitsRange
    else ScanDigits(s[1..], acc * 10 + DigitValue(s[0]))
  }

  /** `strconv.ParseUint(s, 10, 64)`: an empty string is a syntax error. */
  function ParseUint(s: Bytes): DigitsOutcome
  {
    if |s| == 0 then DigitsSyntax else ScanDigits(s, 0)
  }

  /** `strconv.ParseInt(s, 10, 64)`, and `strconv.Atoi` on a 64-bit
      platform: an optional sign, then decimal digits, within int64. */
  function ParseInt(s: Bytes): (r: ParseOutcome)
    ensures r.Parsed? ==> MinInt64 <= r.value <= MaxInt64
    ensures r.RangeError? ==> r.clamped == MinInt64 || r.clamped == MaxInt64
  {
    if |s| == 0 then SyntaxError
    else
      var neg := s[0] == '-';
      var digits := if s[0] == '+' || s[0] == '-' then s[1..] else s;
      match ParseUint(digits)
      case DigitsSyntax => SyntaxError
      case DigitsRange => RangeError(if neg then MinInt64 else MaxInt64)
      case DigitsOk(u) =>
        if !neg && u > MaxInt64 then RangeError(MaxInt64)
        else if neg && u > -MinInt64 then RangeError(MinInt64)
        else Parsed(if neg then -(u as int) else u)
  }

  lemma {:induction false} ScanDigitsAppend(s: Bytes, d: Byte, acc: nat, v: nat)
    requires ScanDigits(s, acc) == DigitsOk(v)
    requires IsDigit(d) && v * 10 + DigitValue(d) <= MaxUint64
    ensures ScanDigits(s + [d], acc) == DigitsOk(v * 10 + DigitValue(d))
    decreases |s|
  {
    if |s| == 0 {
      assert s + [d] == [d];
      assert ([d])[1..] == [];
    } else {
      assert (s + [d])[1..] == s[1..] + [d];
      ScanDigitsAppend(s[1..], d, acc * 10 + DigitValue(s[0]), v);
    }
  }

  lemma {:induction false} ScanNatToDecimal(n: nat)
    requires n <= MaxUint64
    ensures ScanDigits(NatToDecimal(n), 0) == DigitsOk(n)
    decreases n
  {
    if n < 10 {
      assert NatToDecimal(n)[1..] == [];
    } else {
      ScanNatToDecimal(n / 10);
      ScanDigitsAppend(NatToDecimal(n / 10), DigitChar(n % 10), 0, n / 10);
    }
  }

  /** Parsing undoes formatting for every 64-bit integer: this is what lets
      part numbers and byte offsets cross the wire as decimal text. */
  lemma ParseItoa(n: int)
    requires MinInt64 <= n <= MaxInt64
    ensures ParseInt(Itoa(n)) == Parsed(n)
  {
    if n < 0 {
      ScanNatToDecimal(-n);
      NatToDecimalDigits(-n);
      assert (['-'] + NatToDecimal(-n))[1..] == NatToDecimal(-n);
    } else {
      ScanNatToDecimal(n);
      NatToDecimalDigits(n);
      assert NatToDecimal(n)[0] != '-' && NatToDecimal(n)[0] != '+';
    }
  }
}
