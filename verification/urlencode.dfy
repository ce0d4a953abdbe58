/** Percent-encoding as the client's `urlEncode` performs it (common.go).

    The function makes two passes. The first keeps ASCII letters, digits and
    `- _ . ! ~ * ' ( )` and writes every other byte as `%XX` with upper-case
    hex. If the first pass escaped nothing, the input is returned as it is;
    otherwise the five sub-delimiters `! ' ( ) *` are then replaced by their
    escapes too. So whenever anything is escaped, exactly the unreserved
    characters of section 2.3 of RFC 3986 survive; when nothing is, the
    sub-delimiters survive as well. */
module UrlEncoding {
  import opened Text

  /** Bytes the first pass leaves alone. */
  predicate KeptOnFirstPass(c: Byte)
  {
    IsAlnum(c) || c in "-_.!~*'()"
  }

  /** The unreserved characters of section 2.3 of RFC 3986. */
  predicate Unreserved(c: Byte)
  {
    IsAlnum(c) || c in "-_.~"
  }

  /** The bytes that can appear in an encoded string. */
  predicate UrlSafe(c: Byte)
  {
    KeptOnFirstPass(c) || c == '%'
  }

  /** Upper-case hex digit, as `%02X` writes it. */
  function HexDigit(d: int): Byte
    requires 0 <= d < 16
  {
    if d < 10 then ('0' as int + d) as char else ('A' as int + d - 10) as char
  }

  predicate IsHex(c: Byte)
  {
    IsDigit(c) || 'A' <= c <= 'F' || 'a' <= c <= 'f'
  }

  function HexValue(c: Byte): int
    requires IsHex(c)
  {
    if IsDigit(c) then c as int - '0' as int
    else if 'A' <= c <= 'F' then c as int - 'A' as int + 10
    else c as int - 'a' as int + 10
  }

  function Escape(c: Byte): Bytes
  {
    ['%', HexDigit(c as int / 16), HexDigit(c as int % 16)]
  }

  function FirstPass(s: Bytes): Bytes
  {
    if |s| == 0 then []
    else (if KeptOnFirstPass(s[0]) then [s[0]] else Escape(s[0])) + FirstPass(s[1..])
  }

  /** The first pass wrote at least one escape (`written != 0`). */
  predicate EscapedAny(s: Bytes)
  {
    exists i :: 0 <= i < |s| && !KeptOnFirstPass(s[i])
  }

  /** `strings.ReplaceAll(s, string(c), rep)` for a one-byte pattern. */
  function ReplaceAll(s: Bytes, c: Byte, rep: Bytes): Bytes
  {
    if |s| == 0 then []
    else (if s[0] == c then rep else [s[0]]) + ReplaceAll(s[1..], c, rep)
  }

  /** The second pass: the five `strings.ReplaceAll` calls, in source order. */
  function SubDelimPass(s: Bytes): Bytes
  {
    ReplaceAll(ReplaceAll(ReplaceAll(ReplaceAll(ReplaceAll(s, '!', "%21"), '\'', "%27"), '(', "%28"), ')', "%29"), '*', "%2A")
  }

  /** `urlEncode` exactly as written: the first pass, then, only if it
      escaped something, the second. */
  function UrlEncodeAsWritten(s: Bytes): Bytes
  {
    if !EscapedAny(s) then s else SubDelimPass(FirstPass(s))
  }

  /** `urlEncode` in closed form, which the rest of the model uses: the
      input unchanged when every byte survives the first pass, and the
      strict per-byte encoding otherwise. `UrlEncodeAgrees` proves it equal
      to the two passes. Its output is made only of kept bytes and '%'. */
  function UrlEncode(s: Bytes): (r: Bytes)
    ensures forall i :: 0 <= i < |r| ==> UrlSafe(r[i])
  {
    if !EscapedAny(s) then s
    else
      EscapeEachSafe(s);
      EscapeEach(s)
  }

  // ---------------------------------------------------------------------------
  // Reference definition and proofs

  /** Reference encoding: every byte that is not unreserved becomes `%XX`. */
  function EscapeEach(s: Bytes): Bytes
  {
    if |s| == 0 then []
    else (if Unreserved(s[0]) then [s[0]] else Escape(s[0])) + EscapeEach(s[1..])
  }

  lemma {:induction false} ReplaceAllAppend(a: Bytes, b: Bytes, c: Byte, rep: Bytes)
    ensures ReplaceAll(a + b, c, rep) == ReplaceAll(a, c, rep) + ReplaceAll(b, c, rep)
    decreases |a|
  {
    if |a| > 0 {
      assert (a + b)[1..] == a[1..] + b;
      ReplaceAllAppend(a[1..], b, c, rep);
    } else {
      assert a + b == b;
    }
  }

  lemma ReplaceAllAbsent(s: Bytes, c: Byte, rep: Bytes)
    requires c !in s
    ensures ReplaceAll(s, c, rep) == s
  {
  }

  lemma SubDelimPassAppend(a: Bytes, b: Bytes)
    ensures SubDelimPass(a + b) == SubDelimPass(a) + SubDelimPass(b)
  {
    var a1, b1 := ReplaceAll(a, '!', "%21"), ReplaceAll(b, '!', "%21");
    ReplaceAllAppend(a, b, '!', "%21");
    var a2, b2 := ReplaceAll(a1, '\'', "%27"), ReplaceAll(b1, '\'', "%27");
    ReplaceAllAppend(a1, b1, '\'', "%27");
    var a3, b3 := ReplaceAll(a2, '(', "%28"), ReplaceAll(b2, '(', "%28");
    ReplaceAllAppend(a2, b2, '(', "%28");
    var a4, b4 := ReplaceAll(a3, ')', "%29"), ReplaceAll(b3, ')', "%29");
    ReplaceAllAppend(a3, b3, ')', "%29");
    ReplaceAllAppend(a4, b4, '*', "%2A");
  }

  /** The second pass on what the first pass wrote for one byte. */
  lemma SubDelimPassOne(c: Byte)
    ensures SubDelimPass(if KeptOnFirstPass(c) then [c] else Escape(c))
         == (if Unreserved(c) then [c] else Escape(c))
  {
    if !KeptOnFirstPass(c) {
      SubDelimPassEscape(c);
    } else if Unreserved(c) {
      ReplaceAllAbsent([c], '!', "%21");
      ReplaceAllAbsent([c], '\'', "%27");
      ReplaceAllAbsent([c], '(', "%28");
      ReplaceAllAbsent([c], ')', "%29");
      ReplaceAllAbsent([c], '*', "%2A");
    } else {
      SubDelimPassSubDelim(c);
    }
  }

  lemma SubDelimPassEscape(c: Byte)
    ensures SubDelimPass(Escape(c)) == Escape(c)
  {
    var e := Escape(c);
    EscapeHasNoSubDelim(c);
    ReplaceAllAbsent(e, '!', "%21");
    ReplaceAllAbsent(e, '\'', "%27");
    ReplaceAllAbsent(e, '(', "%28");
    ReplaceAllAbsent(e, ')', "%29");
    ReplaceAllAbsent(e, '*', "%2A");
  }

  lemma EscapeHasNoSubDelim(c: Byte)
    ensures forall k :: 0 <= k < 3 ==> Escape(c)[k] !in "!'()*"
  {
  }

  lemma SubDelimPassSubDelim(c: Byte)
    requires c in "!'()*"
    ensures SubDelimPass([c]) == Escape(c)
  {
    var s1 := ReplaceAll([c], '!', "%21");
    Stage(c, [c], '!', "%21");
    var s2 := ReplaceAll(s1, '\'', "%27");
    Stage(c, s1, '\'', "%27");
    var s3 := ReplaceAll(s2, '(', "%28");
    Stage(c, s2, '(', "%28");
    var s4 := ReplaceAll(s3, ')', "%29");
    Stage(c, s3, ')', "%29");
    Stage(c, s4, '*', "%2A");
  }

  /** One `strings.ReplaceAll` of the second pass, applied to a lone
      sub-delimiter or to its escape: the escape is left alone, and the
      sub-delimiter is replaced by its escape when it is the one replaced. */
  lemma Stage(c: Byte, s: Bytes, x: Byte, rep: Bytes)
    requires c in "!'()*" && x in "!'()*" && rep == Escape(x)
    requires s == [c] || s == Escape(c)
    ensures ReplaceAll(s, x, rep) == (if s == [c] && c == x then Escape(c) else s)
  {
    if s == [c] {
      ReplaceOne(c, x, rep);
    } else {
      EscapeHasNoSubDelim(c);
      ReplaceAllAbsent(s, x, rep);
    }
  }

  lemma ReplaceOne(c: Byte, x: Byte, rep: Bytes)
    ensures ReplaceAll([c], x, rep) == if c == x then rep else [c]
  {
    assert [c][1..] == [];
  }

  lemma {:induction false} TwoPassesAreEscapeEach(s: Bytes)
    ensures SubDelimPass(FirstPass(s)) == EscapeEach(s)
    decreases |s|
  {
    if |s| > 0 {
      var head := if KeptOnFirstPass(s[0]) then [s[0]] else Escape(s[0]);
      SubDelimPassAppend(head, FirstPass(s[1..]));
      SubDelimPassOne(s[0]);
      TwoPassesAreEscapeEach(s[1..]);
    }
  }

  lemma {:induction false} EscapeEachSafe(s: Bytes)
    ensures forall i :: 0 <= i < |EscapeEach(s)| ==> UrlSafe(EscapeEach(s)[i])
    decreases |s|
  {
    if |s| > 0 {
      EscapeEachSafe(s[1..]);
      var head := if Unreserved(s[0]) then [s[0]] else Escape(s[0]);
      assert forall k :: 0 <= k < |head| ==> UrlSafe(head[k]);
      assert EscapeEach(s) == head + EscapeEach(s[1..]);
    }
  }

  /** The closed form is the two-pass encoding: whenever `urlEncode`
      escapes anything, its result is the strict RFC 3986 encoding, in
      which only unreserved bytes survive; otherwise the input comes back
      unchanged, sub-delimiters and all. */
  lemma UrlEncodeAgrees(s: Bytes)
    ensures UrlEncodeAsWritten(s) == UrlEncode(s)
    ensures EscapedAny(s) ==> UrlEncodeAsWritten(s) == EscapeEach(s)
    ensures !EscapedAny(s) <==> forall i :: 0 <= i < |s| ==> KeptOnFirstPass(s[i])
  {
    TwoPassesAreEscapeEach(s);
  }

  // ---------------------------------------------------------------------------
  // Decoding, the partner of encoding

  /** Percent-decoding: `%` followed by two hex digits stands for one byte. */
  function Decode(s: Bytes): Bytes
    decreases |s|
  {
    if |s| == 0 then []
    else if s[0] == '%' && |s| >= 3 && IsHex(s[1]) && IsHex(s[2]) then
      [(16 * HexValue(s[1]) + HexValue(s[2])) as char] + Decode(s[3..])
    else [s[0]] + Decode(s[1..])
  }

  lemma {:induction false} DecodeEscapeEach(s: Bytes)
    ensures Decode(EscapeEach(s)) == s
    decreases |s|
  {
    if |s| > 0 {
      DecodeEscapeEach(s[1..]);
      if Unreserved(s[0]) {
        DecodeKept(s[0], EscapeEach(s[1..]));
      } else {
        DecodeEscape(s[0], EscapeEach(s[1..]));
      }
      assert [s[0]] + s[1..] == s;
    }
  }

  /** Each hex digit written is read back as its value. */
  lemma HexRoundTrip(d: int)
    requires 0 <= d < 16
    ensures IsHex(HexDigit(d)) && HexValue(HexDigit(d)) == d
  {
  }

  /** An escape decodes to the byte it stands for. */
  lemma DecodeEscape(c: Byte, rest: Bytes)
    ensures Decode(Escape(c) + rest) == [c] + Decode(rest)
  {
    var t := Escape(c) + rest;
    HexRoundTrip(c as int / 16);
    HexRoundTrip(c as int % 16);
    assert t[3..] == rest;
  }

  /** A byte other than '%' decodes to itself. */
  lemma DecodeKept(c: Byte, rest: Bytes)
    requires c != '%'
    ensures Decode([c] + rest) == [c] + Decode(rest)
  {
    assert ([c] + rest)[1..] == rest;
  }

  lemma {:induction false} DecodeNoPercent(s: Bytes)
    requires '%' !in s
    ensures Decode(s) == s
    decreases |s|
  {
    if |s| > 0 {
      DecodeNoPercent(s[1..]);
      assert [s[0]] + s[1..] == s;
    }
  }

  /** Decoding undoes `urlEncode` on every input. */
  lemma DecodeUrlEncode(s: Bytes)
    ensures Decode(UrlEncode(s)) == s
  {
    if EscapedAny(s) {
      DecodeEscapeEach(s);
    } else {
      DecodeNoPercent(s);
    }
  }
}
