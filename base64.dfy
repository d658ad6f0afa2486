/** Base 64 encoding as section 4 of RFC 4648 defines it: every three bytes
    become four characters of a 64-letter alphabet, and a final group of one
    or two bytes is padded with "=". `btoa` applies it to a "binary string",
    whose characters must all lie in 0 .. 0xFF. The decoder here is the
    encoder's partner: it accepts exactly the canonical encodings (section
    3.5 of RFC 4648: the unused bits of the last group are zero). */
module Base64 {
  import opened Wrappers

  type Byte = b: int | 0 <= b < 256
  type Sextet = d: int | 0 <= d < 64

  /** Table 1 of RFC 4648: A-Z, a-z, 0-9, "+", "/". */
  function Digit(d: Sextet): (c: char)
    ensures c != '='
  {
    if d < 26 then ('A' as int + d) as char
    else if d < 52 then ('a' as int + (d - 26)) as char
    else if d < 62 then ('0' as int + (d - 52)) as char
    else if d == 62 then '+'
    else '/'
  }

  /** The value of an alphabet character; None for anything else. */
  function DigitValue(c: char): (r: Option<Sextet>)
    ensures r.Some? ==> Digit(r.value) == c
  {
    if 'A' <= c <= 'Z' then Some(c as int - 'A' as int)
    else if 'a' <= c <= 'z' then Some(c as int - 'a' as int + 26)
    else if '0' <= c <= '9' then Some(c as int - '0' as int + 52)
    else if c == '+' then Some(62)
    else if c == '/' then Some(63)
    else None
  }

  lemma DigitRoundTrip(d: Sextet)
    ensures DigitValue(Digit(d)) == Some(d)
  {
  }

  // ---------------------------------------------------------------------
  // Encoding

  /** Three bytes, 24 bits, cut into four 6-bit digits. */
  function EncodeTriple(a: Byte, b: Byte, c: Byte): seq<char> {
    [Digit(a / 4), Digit(a % 4 * 16 + b / 16), Digit(b % 16 * 4 + c / 64), Digit(c % 64)]
  }

  /** Two final bytes: three digits, the last with two zero bits, then "=". */
  function EncodePair(a: Byte, b: Byte): seq<char> {
    [Digit(a / 4), Digit(a % 4 * 16 + b / 16), Digit(b % 16 * 4), '=']
  }

  /** One final byte: two digits, the last with four zero bits, then "==". */
  function EncodeSingle(a: Byte): seq<char> {
    [Digit(a / 4), Digit(a % 4 * 16), '=', '=']
  }

  function Encode(bytes: seq<Byte>): (r: string)
    ensures |r| == (|bytes| + 2) / 3 * 4
  {
    if |bytes| >= 3 then EncodeTriple(bytes[0], bytes[1], bytes[2]) + Encode(bytes[3..])
    else if |bytes| == 2 then EncodePair(bytes[0], bytes[1])
    else if |bytes| == 1 then EncodeSingle(bytes[0])
    else []
  }

  /** Padding appears only in the last two places. */
  lemma {:induction false} PaddingAtEnd(bytes: seq<Byte>)
    ensures forall i :: 0 <= i < |Encode(bytes)| - 2 ==> Encode(bytes)[i] != '='
  {
    if |bytes| > 3 {
      var head, tail := EncodeTriple(bytes[0], bytes[1], bytes[2]), Encode(bytes[3..]);
      PaddingAtEnd(bytes[3..]);
      assert Encode(bytes) == head + tail;
      assert |head| == 4 && forall i :: 0 <= i < 4 ==> head[i] != '=' by {
        assert head == [head[0], head[1], head[2], head[3]];
      }
      forall i | 0 <= i < |head + tail| - 2 ensures (head + tail)[i] != '=' {
        if i < 4 {
          assert (head + tail)[i] == head[i];
        } else {
          assert (head + tail)[i] == tail[i - 4];
        }
      }
    } else if |bytes| == 3 {
      assert Encode(bytes) == EncodeTriple(bytes[0], bytes[1], bytes[2]) + Encode([]);
    }
  }

  // ---------------------------------------------------------------------
  // Decoding

  /** Four alphabet characters back to three bytes. */
  function DecodeFull(s: string): (r: Option<seq<Byte>>)
    requires |s| == 4
    ensures r.Some? ==> |r.value| == 3
  {
    var v0, v1, v2, v3 := DigitValue(s[0]), DigitValue(s[1]), DigitValue(s[2]), DigitValue(s[3]);
    if v0.None? || v1.None? || v2.None? || v3.None? then None
    else
      var d0, d1, d2, d3 := v0.value, v1.value, v2.value, v3.value;
      Some([d0 * 4 + d1 / 16, d1 % 16 * 16 + d2 / 4, d2 % 4 * 64 + d3])
  }

  /** The last group of four: full, or padded with "=" or "==", and with the
      unused bits zero. */
  function DecodeLast(s: string): (r: Option<seq<Byte>>)
    requires |s| == 4
    ensures r.Some? ==> 1 <= |r.value| <= 3
  {
    if s[2] == '=' && s[3] == '=' then
      var v0, v1 := DigitValue(s[0]), DigitValue(s[1]);
      if v0.None? || v1.None? || v1.value % 16 != 0 then None
      else Some([v0.value * 4 + v1.value / 16])
    else if s[3] == '=' then
      var v0, v1, v2 := DigitValue(s[0]), DigitValue(s[1]), DigitValue(s[2]);
      if v0.None? || v1.None? || v2.None? || v2.value % 4 != 0 then None
      else Some([v0.value * 4 + v1.value / 16, v1.value % 16 * 16 + v2.value / 4])
    else DecodeFull(s)
  }

  function Decode(s: string): (r: Option<seq<Byte>>)
    decreases |s|
  {
    if s == [] then Some([])
    else if |s| < 4 then None
    else if |s| == 4 then DecodeLast(s)
    else
      match DecodeFull(s[..4])
      case None => None
      case Some(group) =>
        match Decode(s[4..])
        case None => None
        case Some(rest) => Some(group + rest)
  }

  // ---------------------------------------------------------------------
  // The two directions

  /** The bit arithmetic of encoding: the three bytes rebuilt from the four
      digits cut out of them are the same bytes. */
  lemma Uncut(a: Byte, b: Byte, c: Byte)
    ensures var d0, d1, d2, d3 := a / 4, a % 4 * 16 + b / 16, b % 16 * 4 + c / 64, c % 64;
            d0 * 4 + d1 / 16 == a && d1 % 16 * 16 + d2 / 4 == b && d2 % 4 * 64 + d3 == c
  {
    DivMod(a % 4, b / 16, 16);
    DivMod(b % 16, c / 64, 4);
  }

  lemma TripleRoundTrip(a: Byte, b: Byte, c: Byte)
    ensures DecodeFull(EncodeTriple(a, b, c)) == Some([a, b, c])
    ensures DecodeLast(EncodeTriple(a, b, c)) == Some([a, b, c])
  {
    var d0, d1, d2, d3 := a / 4, a % 4 * 16 + b / 16, b % 16 * 4 + c / 64, c % 64;
    Uncut(a, b, c);
    DigitRoundTrip(d0);
    DigitRoundTrip(d1);
    DigitRoundTrip(d2);
    DigitRoundTrip(d3);
    var s := EncodeTriple(a, b, c);
    assert s == [Digit(d0), Digit(d1), Digit(d2), Digit(d3)];
    assert DecodeFull(s) == Some([d0 * 4 + d1 / 16, d1 % 16 * 16 + d2 / 4, d2 % 4 * 64 + d3]);
  }

  lemma PairRoundTrip(a: Byte, b: Byte)
    ensures DecodeLast(EncodePair(a, b)) == Some([a, b])
  {
    var d0, d1, d2 := a / 4, a % 4 * 16 + b / 16, b % 16 * 4;
    Uncut(a, b, 0);
    DigitRoundTrip(d0);
    DigitRoundTrip(d1);
    DigitRoundTrip(d2);
    var s := EncodePair(a, b);
    assert s == [Digit(d0), Digit(d1), Digit(d2), '='];
    assert d2 % 4 == 0;
    assert DecodeLast(s) == Some([d0 * 4 + d1 / 16, d1 % 16 * 16 + d2 / 4]);
  }

  lemma SingleRoundTrip(a: Byte)
    ensures DecodeLast(EncodeSingle(a)) == Some([a])
  {
    var d0, d1 := a / 4, a % 4 * 16;
    Uncut(a, 0, 0);
    DigitRoundTrip(d0);
    DigitRoundTrip(d1);
    var s := EncodeSingle(a);
    assert s == [Digit(d0), Digit(d1), '=', '='];
    assert d1 % 16 == 0;
    assert DecodeLast(s) == Some([d0 * 4 + d1 / 16]);
  }

  /** Decoding an encoding gives back the bytes. */
  lemma {:induction false} DecodeEncode(bytes: seq<Byte>)
    ensures Decode(Encode(bytes)) == Some(bytes)
  {
    if |bytes| > 3 {
      var head := EncodeTriple(bytes[0], bytes[1], bytes[2]);
      assert Encode(bytes) == head + Encode(bytes[3..]);
      TripleRoundTrip(bytes[0], bytes[1], bytes[2]);
      DecodeEncode(bytes[3..]);
      DecodeCons(head, Encode(bytes[3..]));
      assert [bytes[0], bytes[1], bytes[2]] + bytes[3..] == bytes;
    } else {
      DecodeEncodeLast(bytes);
    }
  }

  /** A full group in front decodes on its own. */
  lemma DecodeCons(head: string, tail: string)
    requires |head| == 4 && DecodeFull(head).Some? && |tail| >= 4
    ensures Decode(head + tail) == match Decode(tail)
                                   case None => None
                                   case Some(rest) => Some(DecodeFull(head).value + rest)
  {
    var s := head + tail;
    assert s[..4] == head;
    assert s[4..] == tail;
  }

  /** At most three bytes: one group, padded when short. */
  lemma DecodeEncodeLast(bytes: seq<Byte>)
    requires |bytes| <= 3
    ensures Decode(Encode(bytes)) == Some(bytes)
  {
    if |bytes| == 3 {
      DecodeEncodeThree(bytes);
    } else if |bytes| == 2 {
      DecodeEncodeTwo(bytes);
    } else if |bytes| == 1 {
      DecodeEncodeOne(bytes);
    }
  }

  lemma DecodeEncodeThree(bytes: seq<Byte>)
    requires |bytes| == 3
    ensures Decode(Encode(bytes)) == Some(bytes)
  {
    var s := EncodeTriple(bytes[0], bytes[1], bytes[2]);
    assert Encode(bytes) == s by {
      assert Encode(bytes) == s + Encode(bytes[3..]);
      assert bytes[3..] == [];
    }
    assert Decode(s) == DecodeLast(s);
    TripleRoundTrip(bytes[0], bytes[1], bytes[2]);
    assert [bytes[0], bytes[1], bytes[2]] == bytes;
  }

  lemma DecodeEncodeTwo(bytes: seq<Byte>)
    requires |bytes| == 2
    ensures Decode(Encode(bytes)) == Some(bytes)
  {
    var s := EncodePair(bytes[0], bytes[1]);
    assert Encode(bytes) == s;
    assert Decode(s) == DecodeLast(s);
    PairRoundTrip(bytes[0], bytes[1]);
    assert [bytes[0], bytes[1]] == bytes;
  }

  lemma DecodeEncodeOne(bytes: seq<Byte>)
    requires |bytes| == 1
    ensures Decode(Encode(bytes)) == Some(bytes)
  {
    var s := EncodeSingle(bytes[0]);
    assert Encode(bytes) == s;
    assert Decode(s) == DecodeLast(s);
    SingleRoundTrip(bytes[0]);
    assert [bytes[0]] == bytes;
  }

  /** Euclidean division by 4, 16 or 64 undoes `q * k + r`. */
  lemma DivMod(q: int, r: int, k: int)
    requires k == 4 || k == 16 || k == 64
    requires 0 <= r < k
    ensures (q * k + r) / k == q && (q * k + r) % k == r
  {
    if k == 4 {
      assert q * k + r == q * 4 + r;
    } else if k == 16 {
      assert q * k + r == q * 16 + r;
    } else {
      assert q * k + r == q * 64 + r;
    }
  }

  /** The bit arithmetic of a group: re-cutting the three bytes built from
      four digits gives the same digits. */
  lemma Recut(d0: Sextet, d1: Sextet, d2: Sextet, d3: Sextet)
    ensures var a, b, c := d0 * 4 + d1 / 16, d1 % 16 * 16 + d2 / 4, d2 % 4 * 64 + d3;
            a / 4 == d0 && a % 4 * 16 + b / 16 == d1 && b % 16 * 4 + c / 64 == d2 && c % 64 == d3
  {
    DivMod(d1 / 16, d1 % 16, 16);
    DivMod(d2 / 4, d2 % 4, 4);
    DivMod(d0, d1 / 16, 4);
    DivMod(d1 % 16, d2 / 4, 16);
    DivMod(d2 % 4, d3, 64);
  }

  lemma FullInverse(s: string)
    requires |s| == 4 && DecodeFull(s).Some?
    ensures var g := DecodeFull(s).value; EncodeTriple(g[0], g[1], g[2]) == s
  {
    Recut(DigitValue(s[0]).value, DigitValue(s[1]).value, DigitValue(s[2]).value, DigitValue(s[3]).value);
  }

  lemma LastInverse(s: string)
    requires |s| == 4 && DecodeLast(s).Some?
    ensures Encode(DecodeLast(s).value) == s
  {
    if s[2] == '=' && s[3] == '=' {
      SingleInverse(s);
    } else if s[3] == '=' {
      PairInverse(s);
    } else {
      FullInverse(s);
      var g := DecodeFull(s).value;
      assert Encode(g) == EncodeTriple(g[0], g[1], g[2]) + Encode(g[3..]);
    }
  }

  lemma PairInverse(s: string)
    requires |s| == 4 && s[2] != '=' && s[3] == '=' && DecodeLast(s).Some?
    ensures Encode(DecodeLast(s).value) == s
  {
    var d0: int, d1: int, d2: int := DigitValue(s[0]).value, DigitValue(s[1]).value, DigitValue(s[2]).value;
    var g := DecodeLast(s).value;
    assert g == [d0 * 4 + d1 / 16, d1 % 16 * 16 + d2 / 4];
    Recut(d0, d1, d2, 0);
    assert Encode(g) == EncodePair(g[0], g[1]);
  }

  lemma SingleInverse(s: string)
    requires |s| == 4 && s[2] == '=' && s[3] == '=' && DecodeLast(s).Some?
    ensures Encode(DecodeLast(s).value) == s
  {
    var d0: int, d1: int := DigitValue(s[0]).value, DigitValue(s[1]).value;
    var g := DecodeLast(s).value;
    assert g == [d0 * 4 + d1 / 16];
    Recut(d0, d1, 0, 0);
    assert Encode(g) == EncodeSingle(g[0]);
  }

  /** Only canonical encodings decode: encoding what was decoded gives back
      the text. */
  lemma {:induction false} EncodeDecode(s: string)
    requires Decode(s).Some?
    ensures Encode(Decode(s).value) == s
    decreases |s|
  {
    if |s| == 4 {
      LastInverse(s);
    } else if |s| > 4 {
      var g := DecodeFull(s[..4]).value;
      var rest := Decode(s[4..]).value;
      FullInverse(s[..4]);
      EncodeDecode(s[4..]);
      assert (g + rest)[3..] == rest;
      assert s == s[..4] + s[4..];
    }
  }

  // ---------------------------------------------------------------------
  // `btoa`

  /** The `InvalidCharacterError` `btoa` throws for a character above 0xFF. */
  datatype InvalidCharacterError = InvalidCharacterError

  predicate IsBinaryString(s: string) {
    forall i :: 0 <= i < |s| ==> s[i] as int < 256
  }

  function Codes(s: string): (bs: seq<Byte>)
    requires IsBinaryString(s)
    ensures |bs| == |s| && forall i :: 0 <= i < |s| ==> bs[i] == s[i] as int
  {
    seq(|s|, i requires 0 <= i < |s| => s[i] as int)
  }

  function Btoa(s: string): (r: Result<string, InvalidCharacterError>)
    ensures r.Err? <==> !IsBinaryString(s)
    ensures r.Ok? ==> |r.value| == (|s| + 2) / 3 * 4
  {
    if IsBinaryString(s) then Ok(Encode(Codes(s))) else Err(InvalidCharacterError)
  }

  /** `atob(btoa(s)) == s`: the encoded text carries every character code. */
  lemma BtoaRoundTrip(s: string)
    requires IsBinaryString(s)
    ensures Btoa(s).Ok? && Decode(Btoa(s).value) == Some(Codes(s))
  {
    DecodeEncode(Codes(s));
  }
}
