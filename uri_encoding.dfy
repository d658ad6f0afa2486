/** The `encode` helper of `buildURL`: `encodeURIComponent` followed by six
    global replaces that turn "%3A", "%24", "%2C", "%5B" and "%5D" back into
    ":", "$", ",", "[" and "]" and "%20" into "+".

    `encodeURIComponent` leaves the characters of section 2.3 of RFC 3986
    (letters, digits, "-", ".", "_", "~") and also "!", "*", "'", "(", ")"
    as they are, and writes every other character as the percent-encoded
    bytes of its UTF-8 form (section 2.1 of RFC 3986, upper-case hex). */
module UriEncoding {
  import opened Strings

  // ---------------------------------------------------------------------
  // encodeURIComponent

  /** The characters `encodeURIComponent` does not escape. */
  predicate IsUnescaped(c: char) {
    IsAsciiLetter(c) || IsDigit(c)
    || c == '-' || c == '_' || c == '.' || c == '!' || c == '~'
    || c == '*' || c == '\'' || c == '(' || c == ')'
  }

  /** The UTF-8 bytes of one Unicode scalar value. */
  function Utf8(c: char): (bs: seq<nat>)
    ensures 1 <= |bs| <= 4
    ensures forall i :: 0 <= i < |bs| ==> bs[i] < 256
    ensures |bs| == 1 <==> c as int < 0x80
    ensures |bs| == 1 ==> bs[0] == c as int
    ensures |bs| > 1 ==> forall i :: 0 <= i < |bs| ==> bs[i] >= 0x80
  {
    var n := c as int;
    if n < 0x80 then [n]
    else if n < 0x800 then [0xC0 + n / 0x40, 0x80 + n % 0x40]
    else if n < 0x10000 then [0xE0 + n / 0x1000, 0x80 + n / 0x40 % 0x40, 0x80 + n % 0x40]
    else [0xF0 + n / 0x40000, 0x80 + n / 0x1000 % 0x40, 0x80 + n / 0x40 % 0x40, 0x80 + n % 0x40]
  }

  predicate IsUpperHexDigit(c: char) { IsDigit(c) || 'A' <= c <= 'F' }

  function HexDigit(d: nat): (c: char)
    requires d < 16
    ensures IsUpperHexDigit(c)
  {
    if d < 10 then ('0' as int + d) as char else ('A' as int + d - 10) as char
  }

  /** "%XY" for one byte. */
  function PercentByte(b: nat): (r: string)
    requires b < 256
    ensures |r| == 3 && r[0] == '%' && IsUpperHexDigit(r[1]) && IsUpperHexDigit(r[2])
  {
    ['%', HexDigit(b / 16), HexDigit(b % 16)]
  }

  /** Every "%" is followed by two characters that are not "%": the text
      reads as a run of single characters and "%XY" escapes. */
  ghost predicate EscapesWellFormed(s: string) {
    forall i :: 0 <= i < |s| && s[i] == '%' ==> i + 2 < |s| && s[i + 1] != '%' && s[i + 2] != '%'
  }

  lemma EscapesConcat(a: string, b: string)
    requires EscapesWellFormed(a) && EscapesWellFormed(b)
    ensures EscapesWellFormed(a + b)
  {
    forall i | 0 <= i < |a + b| && (a + b)[i] == '%'
      ensures i + 2 < |a + b| && (a + b)[i + 1] != '%' && (a + b)[i + 2] != '%'
    {
      if i >= |a| {
        assert b[i - |a|] == '%';
      }
    }
  }

  function PercentBytes(bs: seq<nat>): (r: string)
    requires forall i :: 0 <= i < |bs| ==> bs[i] < 256
    ensures |r| == 3 * |bs|
    ensures EscapesWellFormed(r)
    ensures forall i :: 0 <= i < |r| ==> r[i] == '%' || IsUpperHexDigit(r[i])
  {
    if bs == [] then []
    else
      EscapesConcat(PercentByte(bs[0]), PercentBytes(bs[1..]));
      PercentByte(bs[0]) + PercentBytes(bs[1..])
  }

  function EncodeChar(c: char): (r: string)
    ensures EscapesWellFormed(r)
  {
    if IsUnescaped(c) then [c] else PercentBytes(Utf8(c))
  }

  /** `encodeURIComponent(s)` for text made of Unicode scalar values. */
  function EncodeUriComponent(s: string): (r: string)
    ensures EscapesWellFormed(r)
  {
    if s == [] then []
    else
      EscapesConcat(EncodeChar(s[0]), EncodeUriComponent(s[1..]));
      EncodeChar(s[0]) + EncodeUriComponent(s[1..])
  }

  /** Text made only of unreserved characters and "%XY" escapes with two
      upper-case hexadecimal digits. */
  ghost predicate Encoded(s: string)
    decreases |s|
  {
    || s == []
    || (IsUnescaped(s[0]) && Encoded(s[1..]))
    || (|s| >= 3 && s[0] == '%' && IsUpperHexDigit(s[1]) && IsUpperHexDigit(s[2]) && Encoded(s[3..]))
  }

  lemma {:induction false} EncodedConcat(a: string, b: string)
    requires Encoded(a) && Encoded(b)
    ensures Encoded(a + b)
    decreases |a|
  {
    if a == [] {
      assert a + b == b;
    } else if IsUnescaped(a[0]) && Encoded(a[1..]) {
      EncodedConcat(a[1..], b);
      var ab := a + b;
      assert ab[0] == a[0];
      assert ab[1..] == a[1..] + b;
      assert IsUnescaped(ab[0]) && Encoded(ab[1..]);
    } else {
      assert |a| >= 3 && a[0] == '%' && IsUpperHexDigit(a[1]) && IsUpperHexDigit(a[2]) && Encoded(a[3..]);
      EncodedConcat(a[3..], b);
      var ab := a + b;
      assert ab[0] == '%' && ab[1] == a[1] && ab[2] == a[2];
      assert ab[3..] == a[3..] + b;
      assert |ab| >= 3 && ab[0] == '%' && IsUpperHexDigit(ab[1]) && IsUpperHexDigit(ab[2]) && Encoded(ab[3..]);
    }
  }

  lemma {:induction false} PercentBytesEncoded(bs: seq<nat>)
    requires forall i :: 0 <= i < |bs| ==> bs[i] < 256
    ensures Encoded(PercentBytes(bs))
  {
    if bs != [] {
      PercentBytesEncoded(bs[1..]);
      var r := PercentBytes(bs);
      assert r == PercentByte(bs[0]) + PercentBytes(bs[1..]);
      assert r[3..] == PercentBytes(bs[1..]);
    }
  }

  /** `encodeURIComponent` leaves only unreserved characters and escapes of
      the form "%XY" with upper-case hexadecimal digits. */
  lemma {:induction false} EncodeUriComponentEncoded(s: string)
    ensures Encoded(EncodeUriComponent(s))
  {
    if s != [] {
      EncodeUriComponentEncoded(s[1..]);
      if IsUnescaped(s[0]) {
        assert Encoded([s[0]]) by {
          assert [s[0]][1..] == [];
        }
      } else {
        PercentBytesEncoded(Utf8(s[0]));
      }
      EncodedConcat(EncodeChar(s[0]), EncodeUriComponent(s[1..]));
    }
  }

  // ---------------------------------------------------------------------
  // String.prototype.replace with a global, literal pattern

  /** `w` matches `pat`, ignoring letter case when the pattern has the `i` flag. */
  predicate MatchesLiteral(w: string, pat: string, ignoreCase: bool) {
    if ignoreCase then ToUpper(w) == ToUpper(pat) else w == pat
  }

  /** `s.replace(/pat/g, rep)` (with `i` when `ignoreCase`): scanning left
      to right, each match is replaced and the scan resumes after it. */
  function ReplaceAll(s: string, pat: string, rep: string, ignoreCase: bool): string
    requires |pat| > 0
    decreases |s|
  {
    if |s| < |pat| then s
    else if MatchesLiteral(s[..|pat|], pat, ignoreCase) then rep + ReplaceAll(s[|pat|..], pat, rep, ignoreCase)
    else [s[0]] + ReplaceAll(s[1..], pat, rep, ignoreCase)
  }

  /** An escape pattern: "%" and two more characters. */
  predicate IsEscapePattern(pat: string) {
    |pat| == 3 && pat[0] == '%'
  }

  lemma NoMatchWithoutPercent(w: string, pat: string, ignoreCase: bool)
    requires IsEscapePattern(pat) && |w| == 3 && w[0] != '%'
    ensures !MatchesLiteral(w, pat, ignoreCase)
  {
    assert ToUpper(w)[0] == UpperChar(w[0]);
    assert ToUpper(pat)[0] == '%';
  }

  lemma EscapesSuffix(a: string, k: nat)
    requires EscapesWellFormed(a) && k <= |a|
    ensures EscapesWellFormed(a[k..])
  {
    forall i | 0 <= i < |a[k..]| && a[k..][i] == '%'
      ensures i + 2 < |a[k..]| && a[k..][i + 1] != '%' && a[k..][i + 2] != '%'
    {
      assert a[k + i] == '%';
    }
  }

  /** A replace of an escape pattern works escape by escape: over a
      well-formed prefix, it acts on the prefix and the rest separately. */
  lemma {:induction false} ReplaceSplit(a: string, b: string, pat: string, rep: string, ignoreCase: bool)
    requires IsEscapePattern(pat) && EscapesWellFormed(a)
    ensures ReplaceAll(a + b, pat, rep, ignoreCase)
         == ReplaceAll(a, pat, rep, ignoreCase) + ReplaceAll(b, pat, rep, ignoreCase)
    decreases |a|, 1
  {
    if a == [] {
      assert a + b == b;
    } else if |a + b| < 3 {
      assert ReplaceAll(a + b, pat, rep, ignoreCase) == a + b;
    } else if a[0] != '%' {
      ReplaceSplitPlain(a, b, pat, rep, ignoreCase);
    } else {
      ReplaceSplitEscape(a, b, pat, rep, ignoreCase);
    }
  }

  /** The step over a first character that is not "%". */
  lemma {:induction false} ReplaceSplitPlain(a: string, b: string, pat: string, rep: string, ignoreCase: bool)
    requires IsEscapePattern(pat) && EscapesWellFormed(a)
    requires a != [] && |a + b| >= 3 && a[0] != '%'
    ensures ReplaceAll(a + b, pat, rep, ignoreCase)
         == ReplaceAll(a, pat, rep, ignoreCase) + ReplaceAll(b, pat, rep, ignoreCase)
    decreases |a|, 0
  {
    var ab := a + b;
    assert ReplaceAll(ab, pat, rep, ignoreCase) == [a[0]] + ReplaceAll(ab[1..], pat, rep, ignoreCase) by {
      NoMatchWithoutPercent(ab[..3], pat, ignoreCase);
    }
    assert ReplaceAll(ab[1..], pat, rep, ignoreCase)
        == ReplaceAll(a[1..], pat, rep, ignoreCase) + ReplaceAll(b, pat, rep, ignoreCase) by {
      EscapesSuffix(a, 1);
      assert ab[1..] == a[1..] + b;
      ReplaceSplit(a[1..], b, pat, rep, ignoreCase);
    }
    assert ReplaceAll(a, pat, rep, ignoreCase) == [a[0]] + ReplaceAll(a[1..], pat, rep, ignoreCase) by {
      if |a| >= 3 {
        NoMatchWithoutPercent(a[..3], pat, ignoreCase);
      } else {
        assert a == [a[0]] + a[1..];
      }
    }
  }

  /** The step over an escape "%XY" at the front. */
  lemma {:induction false} ReplaceSplitEscape(a: string, b: string, pat: string, rep: string, ignoreCase: bool)
    requires IsEscapePattern(pat) && EscapesWellFormed(a)
    requires a != [] && a[0] == '%'
    ensures ReplaceAll(a + b, pat, rep, ignoreCase)
         == ReplaceAll(a, pat, rep, ignoreCase) + ReplaceAll(b, pat, rep, ignoreCase)
    decreases |a|, 0
  {
    var ab := a + b;
    assert |a| >= 3;
    assert ab[..3] == a[..3];
    if MatchesLiteral(a[..3], pat, ignoreCase) {
      EscapesSuffix(a, 3);
      assert ab[3..] == a[3..] + b;
      ReplaceSplit(a[3..], b, pat, rep, ignoreCase);
    } else {
      EscapesSuffix(a, 1);
      assert ab[1..] == a[1..] + b;
      ReplaceSplit(a[1..], b, pat, rep, ignoreCase);
    }
  }

  /** A replacement free of "%" keeps the escapes well formed. */
  lemma {:induction false} ReplaceKeepsEscapes(a: string, pat: string, rep: string, ignoreCase: bool)
    requires IsEscapePattern(pat) && EscapesWellFormed(a) && '%' !in rep
    ensures EscapesWellFormed(ReplaceAll(a, pat, rep, ignoreCase))
    decreases |a|
  {
    if a == [] {
    } else if a[0] != '%' {
      var r := ReplaceAll(a[1..], pat, rep, ignoreCase);
      assert EscapesWellFormed([a[0]]);
      assert ReplaceAll(a, pat, rep, ignoreCase) == [a[0]] + r by {
        assert a == [a[0]] + a[1..];
        ReplaceSplit([a[0]], a[1..], pat, rep, ignoreCase);
      }
      EscapesSuffix(a, 1);
      ReplaceKeepsEscapes(a[1..], pat, rep, ignoreCase);
      EscapesConcat([a[0]], r);
    } else {
      var head, r := ReplaceAll(a[..3], pat, rep, ignoreCase), ReplaceAll(a[3..], pat, rep, ignoreCase);
      assert EscapesWellFormed(a[..3]);
      assert ReplaceAll(a, pat, rep, ignoreCase) == head + r by {
        assert a == a[..3] + a[3..];
        ReplaceSplit(a[..3], a[3..], pat, rep, ignoreCase);
      }
      EscapesSuffix(a, 3);
      ReplaceKeepsEscapes(a[3..], pat, rep, ignoreCase);
      assert head == rep || head == a[..3] by {
        var w := a[..3];
        assert w[3..] == [] && [w[0]] + w[1..] == w;
        assert ReplaceAll(w[1..], pat, rep, ignoreCase) == w[1..];
      }
      EscapesConcat(head, r);
    }
  }

  // ---------------------------------------------------------------------
  // encode

  /** The six replaces `encode` applies after `encodeURIComponent`. */
  function Restore(s: string): string {
    var s1 := ReplaceAll(s, "%3A", ":", true);
    var s2 := ReplaceAll(s1, "%24", "$", false);
    var s3 := ReplaceAll(s2, "%2C", ",", true);
    var s4 := ReplaceAll(s3, "%20", "+", false);
    var s5 := ReplaceAll(s4, "%5B", "[", true);
    ReplaceAll(s5, "%5D", "]", true)
  }

  function Encode(s: string): string {
    Restore(EncodeUriComponent(s))
  }

  lemma RestoreSplit(a: string, b: string)
    requires EscapesWellFormed(a)
    ensures Restore(a + b) == Restore(a) + Restore(b)
  {
    var a1 := ReplaceAll(a, "%3A", ":", true);
    var a2 := ReplaceAll(a1, "%24", "$", false);
    var a3 := ReplaceAll(a2, "%2C", ",", true);
    var a4 := ReplaceAll(a3, "%20", "+", false);
    var a5 := ReplaceAll(a4, "%5B", "[", true);
    var b1 := ReplaceAll(b, "%3A", ":", true);
    var b2 := ReplaceAll(b1, "%24", "$", false);
    var b3 := ReplaceAll(b2, "%2C", ",", true);
    var b4 := ReplaceAll(b3, "%20", "+", false);
    var b5 := ReplaceAll(b4, "%5B", "[", true);
    ReplaceSplit(a, b, "%3A", ":", true);
    ReplaceKeepsEscapes(a, "%3A", ":", true);
    ReplaceSplit(a1, b1, "%24", "$", false);
    ReplaceKeepsEscapes(a1, "%24", "$", false);
    ReplaceSplit(a2, b2, "%2C", ",", true);
    ReplaceKeepsEscapes(a2, "%2C", ",", true);
    ReplaceSplit(a3, b3, "%20", "+", false);
    ReplaceKeepsEscapes(a3, "%20", "+", false);
    ReplaceSplit(a4, b4, "%5B", "[", true);
    ReplaceKeepsEscapes(a4, "%5B", "[", true);
    ReplaceSplit(a5, b5, "%5D", "]", true);
  }

  /** The bytes `encode` writes back as a character, and that character. */
  function RestoredByte(b: nat): (r: char)
  {
    if b == 0x3A then ':' else if b == 0x24 then '$' else if b == 0x2C then ','
    else if b == 0x20 then '+' else if b == 0x5B then '[' else ']'
  }

  predicate IsRestoredByte(b: nat) {
    b == 0x3A || b == 0x24 || b == 0x2C || b == 0x20 || b == 0x5B || b == 0x5D
  }

  lemma UpperOfEscape(b: nat)
    requires b < 256
    ensures ToUpper(PercentByte(b)) == PercentByte(b)
  {
  }

  lemma HexDigitInjective(d: nat, e: nat)
    requires d < 16 && e < 16 && HexDigit(d) == HexDigit(e)
    ensures d == e
  {
  }

  /** A replace of a three-character text either replaces it whole or
      leaves it alone. */
  lemma ReplaceThree(t: string, pat: string, rep: string, ignoreCase: bool)
    requires |t| == 3 && |pat| == 3
    ensures ReplaceAll(t, pat, rep, ignoreCase) == if MatchesLiteral(t, pat, ignoreCase) then rep else t
  {
    if !MatchesLiteral(t, pat, ignoreCase) {
      assert [t[0]] + t[1..] == t;
    }
  }

  lemma EscapeMatches(b: nat, pat: string, ignoreCase: bool, p: nat)
    requires b < 256 && p < 256 && pat == PercentByte(p)
    ensures MatchesLiteral(PercentByte(b), pat, ignoreCase) <==> b == p
  {
    UpperOfEscape(b);
    UpperOfEscape(p);
    if PercentByte(b) == PercentByte(p) {
      HexDigitInjective(b / 16, p / 16);
      HexDigitInjective(b % 16, p % 16);
    }
  }

  /** What `encode` leaves of one escape "%XY". */
  lemma RestoreEscape(b: nat)
    requires b < 256
    ensures Restore(PercentByte(b)) == if IsRestoredByte(b) then [RestoredByte(b)] else PercentByte(b)
  {
    var t := PercentByte(b);
    assert "%3A" == PercentByte(0x3A);
    assert "%24" == PercentByte(0x24);
    assert "%2C" == PercentByte(0x2C);
    assert "%20" == PercentByte(0x20);
    assert "%5B" == PercentByte(0x5B);
    assert "%5D" == PercentByte(0x5D);
    EscapeMatches(b, "%3A", true, 0x3A);
    EscapeMatches(b, "%24", false, 0x24);
    EscapeMatches(b, "%2C", true, 0x2C);
    EscapeMatches(b, "%20", false, 0x20);
    EscapeMatches(b, "%5B", true, 0x5B);
    EscapeMatches(b, "%5D", true, 0x5D);
    var s1 := ReplaceAll(t, "%3A", ":", true);
    ReplaceThree(t, "%3A", ":", true);
    if !IsRestoredByte(b) {
      ReplaceThree(s1, "%24", "$", false);
      ReplaceThree(s1, "%2C", ",", true);
      ReplaceThree(s1, "%20", "+", false);
      ReplaceThree(s1, "%5B", "[", true);
      ReplaceThree(s1, "%5D", "]", true);
    } else if b != 0x3A {
      ReplaceThree(s1, "%24", "$", false);
      var s2 := ReplaceAll(s1, "%24", "$", false);
      if b != 0x24 {
        ReplaceThree(s2, "%2C", ",", true);
        var s3 := ReplaceAll(s2, "%2C", ",", true);
        if b != 0x2C {
          ReplaceThree(s3, "%20", "+", false);
          var s4 := ReplaceAll(s3, "%20", "+", false);
          if b != 0x20 {
            ReplaceThree(s4, "%5B", "[", true);
            var s5 := ReplaceAll(s4, "%5B", "[", true);
            if b != 0x5B {
              ReplaceThree(s5, "%5D", "]", true);
            }
          }
        }
      }
    }
  }

  /** The escapes of bytes none of which `encode` restores pass through. */
  lemma {:induction false} RestoreEscapes(bs: seq<nat>)
    requires forall i :: 0 <= i < |bs| ==> bs[i] < 256 && !IsRestoredByte(bs[i])
    ensures Restore(PercentBytes(bs)) == PercentBytes(bs)
  {
    if bs != [] {
      RestoreSplit(PercentByte(bs[0]), PercentBytes(bs[1..]));
      RestoreEscape(bs[0]);
      RestoreEscapes(bs[1..]);
    }
  }

  /** `encode` of one character, stated without the replace chain: the
      unescaped characters and ":", "$", ",", "[", "]" stay, a space
      becomes "+", and anything else is its UTF-8 bytes as "%XY". */
  function QueryChar(c: char): (r: string)
    ensures forall i :: 0 <= i < |r| ==> r[i] != '&' && r[i] != '=' && r[i] != '#' && r[i] != '?'
  {
    if IsUnescaped(c) || c == ':' || c == '$' || c == ',' || c == '[' || c == ']' then [c]
    else if c == ' ' then "+"
    else PercentBytes(Utf8(c))
  }

  function EncodeQuery(s: string): (r: string)
    ensures forall i :: 0 <= i < |r| ==> r[i] != '&' && r[i] != '=' && r[i] != '#' && r[i] != '?'
  {
    if s == [] then [] else QueryChar(s[0]) + EncodeQuery(s[1..])
  }

  lemma RestoreUnescaped(c: char)
    requires c != '%'
    ensures Restore([c]) == [c]
  {
  }

  lemma EncodeCharMeaning(c: char)
    ensures Restore(EncodeChar(c)) == QueryChar(c)
  {
    if IsUnescaped(c) {
      RestoreUnescaped(c);
    } else if c as int < 0x80 {
      EncodeAsciiMeaning(c);
    } else {
      RestoreEscapes(Utf8(c));
    }
  }

  lemma EncodeAsciiMeaning(c: char)
    requires c as int < 0x80 && !IsUnescaped(c)
    ensures Restore(PercentBytes(Utf8(c))) == QueryChar(c)
  {
    var b := c as int;
    SingleEscape(b);
    assert Utf8(c) == [b];
    RestoreEscape(b);
    AsciiQueryChar(c);
  }

  lemma SingleEscape(b: nat)
    requires b < 256
    ensures PercentBytes([b]) == PercentByte(b)
  {
    assert PercentBytes([b]) == PercentByte(b) + PercentBytes([]);
  }

  lemma AsciiQueryChar(c: char)
    requires c as int < 0x80 && !IsUnescaped(c)
    ensures QueryChar(c) == if IsRestoredByte(c as int) then [RestoredByte(c as int)] else PercentByte(c as int)
  {
    if !IsRestoredByte(c as int) {
      assert Utf8(c) == [c as int];
      SingleEscape(c as int);
    }
  }

  /** `encode(s)` is `s` with each character written as `QueryChar` says. */
  lemma {:induction false} EncodeMeaning(s: string)
    ensures Encode(s) == EncodeQuery(s)
  {
    if s != [] {
      RestoreSplit(EncodeChar(s[0]), EncodeUriComponent(s[1..]));
      EncodeCharMeaning(s[0]);
      EncodeMeaning(s[1..]);
    }
  }

  /** An encoded key or value never holds "&", "=", "#" or "?", so the
      query text built from it splits back at "&" and "=". */
  lemma EncodeIsQuerySafe(s: string)
    ensures forall i :: 0 <= i < |Encode(s)| ==>
      Encode(s)[i] != '&' && Encode(s)[i] != '=' && Encode(s)[i] != '#' && Encode(s)[i] != '?'
  {
    EncodeMeaning(s);
  }
}
