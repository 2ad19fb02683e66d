/** The canonical Base64 recogniser of the RPC schemas
    (packages/rpc/src/schemas.ts:98-121), against the encoding of sections 3.5 and 4
    of RFC 4648. */
module Base64 {

  type Byte = n: int | 0 <= n < 256

  datatype Option<T> = None | Some(value: T)

  // ---- The alphabet ------------------------------------------------------------

  /** The value of a character, or -1 outside the alphabet. */
  function Base64Value(c: char): int
  {
    var code := c as int;
    if 65 <= code <= 90 then code - 65
    else if 97 <= code <= 122 then code - 71
    else if 48 <= code <= 57 then code + 4
    else if c == '+' then 62 else if c == '/' then 63 else -1
  }

  predicate InAlphabet(c: char)
  {
    'A' <= c <= 'Z' || 'a' <= c <= 'z' || '0' <= c <= '9' || c == '+' || c == '/'
  }

  /** Table 1 of RFC 4648. */
  function Symbol(v: int): char
    requires 0 <= v < 64
  {
    if v < 26 then (v + 65) as char
    else if v < 52 then (v + 71) as char
    else if v < 62 then (v - 4) as char
    else if v == 62 then '+' else '/'
  }

  lemma SymbolsAreValues(c: char)
    ensures InAlphabet(c) <==> 0 <= Base64Value(c) < 64
    ensures InAlphabet(c) ==> Symbol(Base64Value(c)) == c
  {}

  lemma ValuesAreSymbols(v: int)
    requires 0 <= v < 64
    ensures InAlphabet(Symbol(v)) && Base64Value(Symbol(v)) == v
  {}

  // ---- The encoding ----------------------------------------------------------------

  function EncodeGroup(b0: Byte, b1: Byte, b2: Byte): (s: string)
    ensures |s| == 4
  {
    [Symbol(b0 / 4), Symbol(b0 % 4 * 16 + b1 / 16), Symbol(b1 % 16 * 4 + b2 / 64), Symbol(b2 % 64)]
  }

  /** Section 4 of RFC 4648: 24-bit groups from the left, zero pad bits, `=` padding. */
  function Encode(bytes: seq<Byte>): string
  {
    if bytes == [] then ""
    else if |bytes| == 1 then
      [Symbol(bytes[0] / 4), Symbol(bytes[0] % 4 * 16), '=', '=']
    else if |bytes| == 2 then
      [Symbol(bytes[0] / 4), Symbol(bytes[0] % 4 * 16 + bytes[1] / 16), Symbol(bytes[1] % 16 * 4), '=']
    else
      EncodeGroup(bytes[0], bytes[1], bytes[2]) + Encode(bytes[3..])
  }

  // ---- The recogniser ------------------------------------------------------------------

  /** How many `=` characters the string ends with, two at most. */
  function Padding(value: string): nat
    ensures Padding(value) <= |value|
  {
    if |value| >= 2 && value[|value| - 1] == '=' && value[|value| - 2] == '=' then 2
    else if |value| >= 1 && value[|value| - 1] == '=' then 1
    else 0
  }

  predicate AllInAlphabet(s: string)
  {
    forall i :: 0 <= i < |s| ==> InAlphabet(s[i])
  }

  predicate HasShape(value: string, p: nat)
  {
    && p < |value|
    && AllInAlphabet(value[..|value| - p])
    && forall i :: |value| - p <= i < |value| ==> value[i] == '='
  }

  /** `/^[A-Za-z0-9+/]+={0,2}$/` */
  predicate MatchesPattern(value: string)
  {
    exists p :: 0 <= p <= 2 && HasShape(value, p)
  }

  function Pow2(n: nat): nat
    ensures Pow2(n) > 0
  {
    if n == 0 then 1 else 2 * Pow2(n - 1)
  }

  /** JavaScript's `&` with the low bits set, for a non-negative operand. */
  function LowBits(v: int, bits: nat): int
  {
    v % Pow2(bits)
  }

  function DecodedBase64ByteLength(value: string): Option<nat>
  {
    if |value| == 0 || |value| % 4 != 0 || !MatchesPattern(value) then None
    else
      var padding := Padding(value);
      var last := |value| - padding - 1;
      if padding == 2 && (last < 0 || LowBits(Base64Value(value[last]), 4) != 0) then None
      else if padding == 1 && (last < 0 || LowBits(Base64Value(value[last]), 2) != 0) then None
      else Some(|value| / 4 * 3 - padding)
  }

  // ---- Decoding, as the witness of acceptance --------------------------------------------

  /** One accepted string, four characters at a time. */
  predicate Canonical(value: string)
    decreases |value|
  {
    if value == "" then true
    else
      |value| >= 4 && InAlphabet(value[0]) && InAlphabet(value[1])
      && if |value| == 4 && value[3] == '=' then
           if value[2] == '=' then Base64Value(value[1]) % 16 == 0
           else InAlphabet(value[2]) && Base64Value(value[2]) % 4 == 0
         else InAlphabet(value[2]) && InAlphabet(value[3]) && Canonical(value[4..])
  }

  /** Four six-bit values packed into three bytes, and back. */
  lemma PackedValues(v0: int, v1: int, v2: int, v3: int)
    requires 0 <= v0 < 64 && 0 <= v1 < 64 && 0 <= v2 < 64 && 0 <= v3 < 64
    ensures var b0, b1, b2 := v0 * 4 + v1 / 16, v1 % 16 * 16 + v2 / 4, v2 % 4 * 64 + v3;
            && 0 <= b0 < 256 && 0 <= b1 < 256 && 0 <= b2 < 256
            && b0 / 4 == v0 && b0 % 4 == v1 / 16 && b1 / 16 == v1 % 16
            && b1 % 16 == v2 / 4 && b2 / 64 == v2 % 4 && b2 % 64 == v3
  {}

  function DecodeGroup(c0: char, c1: char, c2: char, c3: char): (g: seq<Byte>)
    requires InAlphabet(c0) && InAlphabet(c1) && InAlphabet(c2) && InAlphabet(c3)
    ensures |g| == 3
  {
    SymbolsAreValues(c0); SymbolsAreValues(c1); SymbolsAreValues(c2); SymbolsAreValues(c3);
    var v0, v1, v2, v3 := Base64Value(c0), Base64Value(c1), Base64Value(c2), Base64Value(c3);
    PackedValues(v0, v1, v2, v3);
    var b0: Byte, b1: Byte, b2: Byte := v0 * 4 + v1 / 16, v1 % 16 * 16 + v2 / 4, v2 % 4 * 64 + v3;
    [b0, b1, b2]
  }

  function Decode(value: string): seq<Byte>
    requires Canonical(value)
    decreases |value|
  {
    if value == "" then []
    else
      SymbolsAreValues(value[0]); SymbolsAreValues(value[1]);
      var v0, v1 := Base64Value(value[0]), Base64Value(value[1]);
      var b0: Byte := v0 * 4 + v1 / 16;
      if |value| == 4 && value[3] == '=' then
        if value[2] == '=' then [b0]
        else
          SymbolsAreValues(value[2]);
          var b1: Byte := v1 % 16 * 16 + Base64Value(value[2]) / 4;
          [b0, b1]
      else
        DecodeGroup(value[0], value[1], value[2], value[3]) + Decode(value[4..])
  }

  lemma GroupEncodes(c0: char, c1: char, c2: char, c3: char)
    requires InAlphabet(c0) && InAlphabet(c1) && InAlphabet(c2) && InAlphabet(c3)
    ensures var g := DecodeGroup(c0, c1, c2, c3); EncodeGroup(g[0], g[1], g[2]) == [c0, c1, c2, c3]
  {
    hide Base64Value, Symbol, InAlphabet;
    SymbolsAreValues(c0); SymbolsAreValues(c1); SymbolsAreValues(c2); SymbolsAreValues(c3);
    PackedValues(Base64Value(c0), Base64Value(c1), Base64Value(c2), Base64Value(c3));
  }

  lemma UnpackedBytes(b0: int, b1: int, b2: int)
    requires 0 <= b0 < 256 && 0 <= b1 < 256 && 0 <= b2 < 256
    ensures var v0, v1, v2, v3 := b0 / 4, b0 % 4 * 16 + b1 / 16, b1 % 16 * 4 + b2 / 64, b2 % 64;
            && 0 <= v0 < 64 && 0 <= v1 < 64 && 0 <= v2 < 64 && 0 <= v3 < 64
            && v1 / 16 == b0 % 4 && v1 % 16 == b1 / 16 && v2 / 4 == b1 % 16 && v2 % 4 == b2 / 64
            && v0 * 4 + v1 / 16 == b0 && v1 % 16 * 16 + v2 / 4 == b1 && v2 % 4 * 64 + v3 == b2
  {}

  lemma SymbolsDecode(v0: int, v1: int, v2: int, v3: int)
    requires 0 <= v0 < 64 && 0 <= v1 < 64 && 0 <= v2 < 64 && 0 <= v3 < 64
    ensures var s0, s1, s2, s3 := Symbol(v0), Symbol(v1), Symbol(v2), Symbol(v3);
            && InAlphabet(s0) && InAlphabet(s1) && InAlphabet(s2) && InAlphabet(s3)
            && var g := DecodeGroup(s0, s1, s2, s3);
               g[0] == v0 * 4 + v1 / 16 && g[1] == v1 % 16 * 16 + v2 / 4 && g[2] == v2 % 4 * 64 + v3
  {
    hide Base64Value, Symbol, InAlphabet;
    ValuesAreSymbols(v0);
    ValuesAreSymbols(v1);
    ValuesAreSymbols(v2);
    ValuesAreSymbols(v3);
  }

  lemma GroupDecodes(b0: Byte, b1: Byte, b2: Byte)
    ensures var s := EncodeGroup(b0, b1, b2);
            && InAlphabet(s[0]) && InAlphabet(s[1]) && InAlphabet(s[2]) && InAlphabet(s[3])
            && DecodeGroup(s[0], s[1], s[2], s[3]) == [b0, b1, b2]
  {
    hide Base64Value, Symbol, InAlphabet, DecodeGroup;
    UnpackedBytes(b0, b1, b2);
    SymbolsDecode(b0 / 4, b0 % 4 * 16 + b1 / 16, b1 % 16 * 4 + b2 / 64, b2 % 64);
  }

  lemma EncodeWhole(g: seq<Byte>, rest: seq<Byte>)
    requires |g| == 3
    ensures Encode(g + rest) == EncodeGroup(g[0], g[1], g[2]) + Encode(rest)
  {
    hide EncodeGroup;
    assert (g + rest)[3..] == rest;
  }

  lemma WholeGroupEncodes(value: string)
    requires Canonical(value) && value != "" && !(|value| == 4 && value[3] == '=')
    ensures Encode(Decode(value)) ==
            (var g := DecodeGroup(value[0], value[1], value[2], value[3]); EncodeGroup(g[0], g[1], g[2]))
            + Encode(Decode(value[4..]))
    ensures value == [value[0], value[1], value[2], value[3]] + value[4..]
  {
    hide Base64Value, Symbol, InAlphabet, DecodeGroup, EncodeGroup, Encode;
    assert Decode(value) == DecodeGroup(value[0], value[1], value[2], value[3]) + Decode(value[4..]);
    hide Decode;
    EncodeWhole(DecodeGroup(value[0], value[1], value[2], value[3]), Decode(value[4..]));
  }

  lemma LastGroupEncodes(value: string)
    requires Canonical(value) && |value| == 4 && value[3] == '='
    ensures Encode(Decode(value)) == value
  {
    hide Base64Value, Symbol;
    SymbolsAreValues(value[0]); SymbolsAreValues(value[1]);
    var v0, v1 := Base64Value(value[0]), Base64Value(value[1]);
    if value[2] == '=' {
      PackedValues(v0, v1, 0, 0);
    } else {
      SymbolsAreValues(value[2]);
      PackedValues(v0, v1, Base64Value(value[2]), 0);
    }
  }

  lemma {:induction false} DecodeThenEncode(value: string)
    requires Canonical(value)
    ensures Encode(Decode(value)) == value
    decreases |value|
  {
    if value != "" {
      if |value| == 4 && value[3] == '=' {
        LastGroupEncodes(value);
      } else {
        DecodeThenEncode(value[4..]);
        GroupEncodes(value[0], value[1], value[2], value[3]);
        WholeGroupEncodes(value);
      }
    }
  }

  lemma EncodeThenDecodeTwo(b0: Byte, b1: Byte)
    ensures Canonical(Encode([b0, b1])) && Decode(Encode([b0, b1])) == [b0, b1]
  {
    hide Base64Value, Symbol;
    UnpackedBytes(b0, b1, 0);
    ValuesAreSymbols(b0 / 4);
    ValuesAreSymbols(b0 % 4 * 16 + b1 / 16);
    ValuesAreSymbols(b1 % 16 * 4);
    assert !InAlphabet('=');
  }

  lemma EncodeThenDecodeGroup(bytes: seq<Byte>)
    requires |bytes| > 2
    requires Canonical(Encode(bytes[3..])) && Decode(Encode(bytes[3..])) == bytes[3..]
    ensures Canonical(Encode(bytes)) && Decode(Encode(bytes)) == bytes
  {
    GroupDecodes(bytes[0], bytes[1], bytes[2]);
    assert !InAlphabet('=');
    hide Base64Value, Symbol, InAlphabet, DecodeGroup, EncodeGroup;
    var value := Encode(bytes);
    assert value[4..] == Encode(bytes[3..]);
    assert Canonical(value);
    assert Decode(value) == [bytes[0], bytes[1], bytes[2]] + Decode(value[4..]);
    assert bytes == [bytes[0], bytes[1], bytes[2]] + bytes[3..];
  }

  lemma {:induction false} EncodeThenDecode(bytes: seq<Byte>)
    ensures Canonical(Encode(bytes)) && Decode(Encode(bytes)) == bytes
    decreases |bytes|
  {
    if |bytes| == 1 {
      assert bytes == [bytes[0]];
    } else if |bytes| == 2 {
      EncodeThenDecodeTwo(bytes[0], bytes[1]);
      assert bytes == [bytes[0], bytes[1]];
    } else if |bytes| > 2 {
      EncodeThenDecode(bytes[3..]);
      EncodeThenDecodeGroup(bytes);
    }
  }

  /** A group in front of a non-empty canonical string changes neither its padding nor
      the shape of its end. */
  lemma ShapeCons(value: string)
    requires |value| >= 8
    requires InAlphabet(value[0]) && InAlphabet(value[1]) && InAlphabet(value[2]) && InAlphabet(value[3])
    requires |value| % 4 == 0 && HasShape(value[4..], Padding(value[4..]))
    ensures Padding(value) == Padding(value[4..]) && HasShape(value, Padding(value))
  {
    hide InAlphabet;
    var rest := value[4..];
    var p := Padding(rest);
    assert value[|value| - 1] == rest[|rest| - 1] && value[|value| - 2] == rest[|rest| - 2];
    assert forall i :: 0 <= i < |rest| ==> value[i + 4] == rest[i];
    forall i | 0 <= i < |value| - p ensures InAlphabet(value[i]) {
      if i >= 4 {
        assert InAlphabet(rest[..|rest| - p][i - 4]);
      }
    }
    forall i | |value| - p <= i < |value| ensures value[i] == '=' {
      assert rest[i - 4] == '=';
    }
  }

  lemma {:induction false} CanonicalLength(value: string)
    requires Canonical(value)
    ensures |value| % 4 == 0
    ensures |Decode(value)| == |value| / 4 * 3 - Padding(value)
    ensures value != "" ==> HasShape(value, Padding(value))
    ensures value != "" ==> Decode(value) != []
    decreases |value|
  {
    if value != "" {
      if !(|value| == 4 && value[3] == '=') {
        assert !InAlphabet('=');
        hide InAlphabet, Base64Value, DecodeGroup;
        var rest := value[4..];
        CanonicalLength(rest);
        if rest != "" {
          ShapeCons(value);
        }
      }
    }
  }

  // ---- What the recogniser accepts -----------------------------------------------------------

  lemma {:induction false} AcceptedIsCanonical(value: string)
    requires |value| % 4 == 0 && HasShape(value, Padding(value))
    requires Padding(value) == 2 ==> Base64Value(value[|value| - 3]) % 16 == 0
    requires Padding(value) == 1 ==> Base64Value(value[|value| - 2]) % 4 == 0
    ensures Canonical(value)
    decreases |value|
  {
    var n, p := |value|, Padding(value);
    forall i | 0 <= i < n - p ensures InAlphabet(value[i]) {
      assert value[..n - p][i] == value[i];
    }
    if n > 4 {
      var rest := value[4..];
      assert rest[|rest| - 1] == value[n - 1] && rest[|rest| - 2] == value[n - 2] && rest[|rest| - 3] == value[n - 3];
      assert forall i :: 0 <= i < |rest| - p ==> rest[i] == value[i + 4];
      assert HasShape(rest, p);
      AcceptedIsCanonical(rest);
    } else {
      assert value[4..] == "";
    }
  }

  lemma {:induction false} LastSymbol(value: string)
    requires Canonical(value) && value != ""
    ensures Padding(value) == 2 ==> |value| >= 3 && LowBits(Base64Value(value[|value| - 3]), 4) == 0
    ensures Padding(value) == 1 ==> |value| >= 2 && LowBits(Base64Value(value[|value| - 2]), 2) == 0
    decreases |value|
  {
    assert Pow2(2) == 4 && Pow2(4) == 16;
    assert !InAlphabet('=');
    if !(|value| == 4 && value[3] == '=') && value[4..] != "" {
      var rest := value[4..];
      assert |rest| >= 4;
      assert rest[|rest| - 1] == value[|value| - 1] && rest[|rest| - 2] == value[|value| - 2]
             && rest[|rest| - 3] == value[|value| - 3];
      LastSymbol(rest);
    }
  }

  lemma RecogniserIsCanonical(value: string)
    ensures DecodedBase64ByteLength(value).Some? <==> value != "" && Canonical(value)
  {
    if value != "" && Canonical(value) {
      CanonicalLength(value);
      assert HasShape(value, Padding(value));
      LastSymbol(value);
    }
    if DecodedBase64ByteLength(value).Some? {
      var p: nat :| p <= 2 && HasShape(value, p);
      assert Pow2(2) == 4 && Pow2(4) == 16;
      AcceptedIsCanonical(value);
    }
  }

  /** The recogniser answers n exactly when the string is the encoding of one, and
      only one, non-empty byte sequence, and that sequence has length n. */
  lemma RecognisesExactlyTheEncodings(value: string, n: nat)
    ensures DecodedBase64ByteLength(value) == Some(n) <==>
            exists bytes: seq<Byte> :: bytes != [] && Encode(bytes) == value && |bytes| == n
    ensures forall a: seq<Byte>, b: seq<Byte> :: Encode(a) == value && Encode(b) == value ==> a == b
  {
    RecogniserIsCanonical(value);
    if DecodedBase64ByteLength(value).Some? {
      CanonicalLength(value);
      DecodeThenEncode(value);
      assert Decode(value) != [] && Encode(Decode(value)) == value;
    }
    forall bytes: seq<Byte> | Encode(bytes) == value
      ensures Canonical(value) && Decode(value) == bytes
    {
      EncodeThenDecode(bytes);
    }
  }
}
