/** The text a runtime identity is the digest of
    (packages/local-daemon/src/identity.ts:26-28 and 83-94). The digest itself is
    abstract; what is modelled is the byte string handed to it. */
module RuntimeIdentity {
  import opened Decimal

  /** A UTF-16 code unit, a byte, and a Unicode scalar value. */
  type CodeUnit = n: int | 0 <= n < 0x10000
  type Byte = n: int | 0 <= n < 256
  type Scalar = n: int | 0 <= n < 0xD800 || 0xE000 <= n < 0x110000

  const REPLACEMENT: Scalar := 0xFFFD
  const COLON: CodeUnit := 58
  const BAR: CodeUnit := 124

  datatype Roots = Roots(config: seq<CodeUnit>, data: seq<CodeUnit>, state: seq<CodeUnit>, cache: seq<CodeUnit>)

  // ---- UTF-8 of a UTF-16 string ---------------------------------------------------------

  predicate IsHigh(u: CodeUnit)
  {
    0xD800 <= u < 0xDC00
  }

  predicate IsLow(u: CodeUnit)
  {
    0xDC00 <= u < 0xE000
  }

  predicate StartsWithPair(s: seq<CodeUnit>)
  {
    |s| >= 2 && IsHigh(s[0]) && IsLow(s[1])
  }

  function Pair(high: CodeUnit, low: CodeUnit): Scalar
    requires IsHigh(high) && IsLow(low)
  {
    0x10000 + (high - 0xD800) * 0x400 + (low - 0xDC00)
  }

  /** A lone surrogate counts as the replacement character. */
  function Lone(u: CodeUnit): Scalar
  {
    if IsHigh(u) || IsLow(u) then REPLACEMENT else u
  }

  function Scalars(s: seq<CodeUnit>): (r: seq<Scalar>)
    ensures r == [] <==> s == []
  {
    if s == [] then []
    else if StartsWithPair(s) then [Pair(s[0], s[1])] + Scalars(s[2..])
    else [Lone(s[0])] + Scalars(s[1..])
  }

  function ScalarBytes(c: Scalar): (b: seq<Byte>)
    ensures 1 <= |b| <= 4
    ensures c < 0x80 ==> b == [c]
  {
    if c < 0x80 then [c]
    else if c < 0x800 then [0xC0 + c / 0x40, 0x80 + c % 0x40]
    else if c < 0x10000 then [0xE0 + c / 0x1000, 0x80 + c / 0x40 % 0x40, 0x80 + c % 0x40]
    else [0xF0 + c / 0x40000, 0x80 + c / 0x1000 % 0x40, 0x80 + c / 0x40 % 0x40, 0x80 + c % 0x40]
  }

  function Utf8(cs: seq<Scalar>): seq<Byte>
  {
    if cs == [] then [] else ScalarBytes(cs[0]) + Utf8(cs[1..])
  }

  function Bytes(s: seq<CodeUnit>): seq<Byte>
  {
    Utf8(Scalars(s))
  }

  // ---- digestTuple ------------------------------------------------------------------------

  function Ascii(s: string): (r: seq<CodeUnit>)
    requires forall i :: 0 <= i < |s| ==> s[i] < 128 as char
    ensures |r| == |s|
    ensures forall i :: 0 <= i < |s| ==> r[i] == s[i] as int
  {
    seq(|s|, i requires 0 <= i < |s| => s[i] as int)
  }

  const PREFIX: seq<CodeUnit> := Ascii("ctxindex-runtime-tuple-v1|")

  function Encoded(value: seq<CodeUnit>): seq<CodeUnit>
  {
    Ascii(Digits(|Bytes(value)|)) + [COLON] + value
  }

  /** The text whose UTF-8 bytes are hashed. */
  function TupleText(r: Roots): seq<CodeUnit>
  {
    PREFIX + Encoded(r.config) + [BAR] + Encoded(r.data) + [BAR] + Encoded(r.state) + [BAR] + Encoded(r.cache)
  }

  // ---- UTF-8 is injective on scalar values ---------------------------------------------------

  lemma LengthFromLead(c: Scalar)
    ensures var b := ScalarBytes(c);
            && (|b| == 1 <==> b[0] < 0x80) && (|b| == 2 <==> 0xC0 <= b[0] < 0xE0)
            && (|b| == 3 <==> 0xE0 <= b[0] < 0xF0) && (|b| == 4 <==> 0xF0 <= b[0])
  {}

  /** The scalar value a sequence of bytes stands for. */
  function Decoded(b: seq<int>): int
    requires 1 <= |b| <= 4
  {
    if |b| == 1 then b[0]
    else if |b| == 2 then (b[0] - 0xC0) * 0x40 + (b[1] - 0x80)
    else if |b| == 3 then (b[0] - 0xE0) * 0x1000 + (b[1] - 0x80) * 0x40 + (b[2] - 0x80)
    else (b[0] - 0xF0) * 0x40000 + (b[1] - 0x80) * 0x1000 + (b[2] - 0x80) * 0x40 + (b[3] - 0x80)
  }

  /** The encoding is the shortest of section 3 of RFC 3629. */
  lemma ScalarLength(c: Scalar)
    ensures |ScalarBytes(c)| == 1 <==> c <= 0x7F
    ensures |ScalarBytes(c)| == 2 <==> 0x80 <= c <= 0x7FF
    ensures |ScalarBytes(c)| == 3 <==> 0x800 <= c <= 0xFFFF
    ensures |ScalarBytes(c)| == 4 <==> 0x10000 <= c <= 0x10FFFF
  {}

  lemma ScalarDecodes(c: Scalar)
    ensures Decoded(ScalarBytes(c)) == c
  {
    var q := c / 0x40;
    assert c == q * 0x40 + c % 0x40;
    assert c / 0x1000 == q / 0x40 && q == q / 0x40 * 0x40 + q % 0x40;
    assert c / 0x40000 == q / 0x1000 && q / 0x40 == q / 0x1000 * 0x40 + q / 0x40 % 0x40;
  }

  lemma ScalarPrefix(c: Scalar, d: Scalar, x: seq<Byte>, y: seq<Byte>)
    requires ScalarBytes(c) + x == ScalarBytes(d) + y
    ensures c == d && x == y
  {
    var b, e := ScalarBytes(c), ScalarBytes(d);
    LengthFromLead(c);
    LengthFromLead(d);
    ScalarDecodes(c);
    ScalarDecodes(d);
    hide ScalarBytes, Decoded;
    assert b[0] == (b + x)[0] == (e + y)[0] == e[0];
    assert |b| == |e|;
    assert b == (b + x)[..|b|] == e && x == (b + x)[|b|..] == y;
  }

  lemma {:induction false} Utf8Injective(a: seq<Scalar>, b: seq<Scalar>)
    requires Utf8(a) == Utf8(b)
    ensures a == b
    decreases |a|
  {
    if a != [] && b != [] {
      ScalarPrefix(a[0], b[0], Utf8(a[1..]), Utf8(b[1..]));
      Utf8Injective(a[1..], b[1..]);
      assert a == [a[0]] + a[1..] && b == [b[0]] + b[1..];
    }
  }

  lemma {:induction false} Utf8Concat(a: seq<Scalar>, b: seq<Scalar>)
    ensures Utf8(a + b) == Utf8(a) + Utf8(b)
    decreases |a|
  {
    if a == [] {
      assert a + b == b;
    } else {
      assert (a + b)[1..] == a[1..] + b;
      Utf8Concat(a[1..], b);
    }
  }

  /** No surrogate pair is formed across an ASCII character. */
  lemma {:induction false} ScalarsAround(a: seq<CodeUnit>, u: CodeUnit, b: seq<CodeUnit>)
    requires u < 0x80
    ensures Scalars(a + [u] + b) == Scalars(a) + [u] + Scalars(b)
    decreases |a|
  {
    var s := a + [u] + b;
    if a == [] {
      assert s[1..] == b;
    } else if StartsWithPair(a) {
      assert s[2..] == a[2..] + [u] + b;
      ScalarsAround(a[2..], u, b);
    } else {
      assert s[1..] == a[1..] + [u] + b;
      assert !StartsWithPair(s);
      ScalarsAround(a[1..], u, b);
    }
  }

  lemma BytesAround(a: seq<CodeUnit>, u: CodeUnit, b: seq<CodeUnit>)
    requires u < 0x80
    ensures Bytes(a + [u] + b) == Bytes(a) + [u] + Bytes(b)
  {
    ScalarsAround(a, u, b);
    Utf8Concat(Scalars(a) + [u], Scalars(b));
    Utf8Concat(Scalars(a), [u]);
    assert Utf8([u]) == [u] by {
      assert [u][1..] == [];
    }
  }

  lemma {:induction false} AsciiBytes(s: seq<CodeUnit>)
    requires forall i :: 0 <= i < |s| ==> s[i] < 0x80
    ensures Bytes(s) == s
    decreases |s|
  {
    if s != [] {
      AsciiBytes(s[1..]);
      BytesAround([], s[0], s[1..]);
      assert [] + [s[0]] + s[1..] == s;
    }
  }

  // ---- The frame ------------------------------------------------------------------------------

  function DigitBytes(n: nat): (r: seq<CodeUnit>)
    ensures forall i :: 0 <= i < |r| ==> 48 <= r[i] <= 57
  {
    Ascii(Digits(n))
  }

  /** A byte string behind its length. */
  function Framed(b: seq<Byte>): seq<CodeUnit>
  {
    DigitBytes(|b|) + [COLON] + b
  }

  lemma EncodedBytes(value: seq<CodeUnit>)
    ensures Bytes(Encoded(value)) == Framed(Bytes(value))
  {
    var n := |Bytes(value)|;
    AsciiBytes(DigitBytes(n));
    BytesAround(DigitBytes(n), COLON, value);
  }

  lemma DigitBytesInjective(m: nat, n: nat)
    requires DigitBytes(m) == DigitBytes(n)
    ensures m == n
  {
    var a, b := Digits(m), Digits(n);
    assert |a| == |DigitBytes(m)| == |b|;
    forall i | 0 <= i < |a| ensures a[i] == b[i] {
      assert a[i] as int == DigitBytes(m)[i] == b[i] as int;
    }
    assert a == b;
    DigitsInjective(m, n);
  }

  /** Where the length ends is visible: no digit is a colon. */
  lemma DigitsEnd(a: seq<CodeUnit>, x: seq<CodeUnit>, b: seq<CodeUnit>, y: seq<CodeUnit>)
    requires forall i :: 0 <= i < |a| ==> a[i] != COLON
    requires forall i :: 0 <= i < |b| ==> b[i] != COLON
    requires a + [COLON] + x == b + [COLON] + y
    ensures a == b && x == y
  {
    var s, t := a + [COLON] + x, b + [COLON] + y;
    assert s[|a|] == COLON && t[|b|] == COLON;
    assert forall i :: 0 <= i < |a| ==> s[i] == a[i];
    assert forall i :: 0 <= i < |b| ==> t[i] == b[i];
    assert |a| == |b|;
    assert a == s[..|a|] == b && x == s[|a| + 1..] == y;
  }

  lemma FramePrefix(a: seq<Byte>, b: seq<Byte>, x: seq<CodeUnit>, y: seq<CodeUnit>)
    requires Framed(a) + x == Framed(b) + y
    ensures a == b && x == y
  {
    hide DigitBytes;
    assert Framed(a) + x == DigitBytes(|a|) + [COLON] + (a + x);
    assert Framed(b) + y == DigitBytes(|b|) + [COLON] + (b + y);
    DigitsEnd(DigitBytes(|a|), a + x, DigitBytes(|b|), b + y);
    DigitBytesInjective(|a|, |b|);
    assert a == (a + x)[..|a|] == b && x == (a + x)[|a|..] == y;
  }

  function Tail(r: Roots, n: nat): seq<CodeUnit>
    requires n <= 3
  {
    if n == 0 then Framed(Bytes(r.cache))
    else Framed(Bytes(if n == 1 then r.state else if n == 2 then r.data else r.config)) + ([BAR] + Tail(r, n - 1))
  }

  lemma BytesAfter(p: seq<CodeUnit>, t: seq<CodeUnit>)
    requires p != [] && p[|p| - 1] < 0x80
    ensures Bytes(p + t) == Bytes(p) + Bytes(t)
  {
    var n := |p| - 1;
    BytesAround(p[..n], p[n], t);
    BytesAround(p[..n], p[n], []);
    assert Bytes([]) == [];
    hide Bytes;
    assert p[..n] + [p[n]] + [] == p;
    assert p + t == p[..n] + [p[n]] + t;
  }

  lemma TextBytes(r: Roots)
    ensures Bytes(TupleText(r)) == Bytes(PREFIX) + Tail(r, 3)
  {
    hide Encoded, Framed, Bytes;
    EncodedBytes(r.config); EncodedBytes(r.data); EncodedBytes(r.state); EncodedBytes(r.cache);
    var t0 := Encoded(r.cache);
    var t1 := Encoded(r.state) + [BAR] + t0;
    var t2 := Encoded(r.data) + [BAR] + t1;
    var t3 := Encoded(r.config) + [BAR] + t2;
    BytesAround(Encoded(r.state), BAR, t0);
    BytesAround(Encoded(r.data), BAR, t1);
    BytesAround(Encoded(r.config), BAR, t2);
    BytesAfter(PREFIX, t3);
    hide Ascii;
    assert TupleText(r) == PREFIX + t3;
    assert Bytes(t1) == Tail(r, 1);
    assert Bytes(t2) == Tail(r, 2);
    assert Bytes(t3) == Tail(r, 3);
  }

  lemma SameTails(r: Roots, q: Roots)
    ensures Scalars(r.config) == Scalars(q.config) && Scalars(r.data) == Scalars(q.data)
            && Scalars(r.state) == Scalars(q.state) && Scalars(r.cache) == Scalars(q.cache) ==>
              Tail(r, 3) == Tail(q, 3)
  {
    hide Framed, Utf8;
    assert Scalars(r.cache) == Scalars(q.cache) ==> Tail(r, 0) == Tail(q, 0);
    assert Scalars(r.state) == Scalars(q.state) && Tail(r, 0) == Tail(q, 0) ==> Tail(r, 1) == Tail(q, 1);
    assert Scalars(r.data) == Scalars(q.data) && Tail(r, 1) == Tail(q, 1) ==> Tail(r, 2) == Tail(q, 2);
  }

  lemma TailStep(a: seq<Byte>, b: seq<Byte>, x: seq<CodeUnit>, y: seq<CodeUnit>)
    requires Framed(a) + ([BAR] + x) == Framed(b) + ([BAR] + y)
    ensures a == b && x == y
  {
    FramePrefix(a, b, [BAR] + x, [BAR] + y);
    assert x == ([BAR] + x)[1..] == y;
  }

  lemma TailsAgree(front: seq<Byte>, r: Roots, q: Roots)
    requires front + Tail(r, 3) == front + Tail(q, 3)
    ensures Scalars(r.config) == Scalars(q.config) && Scalars(r.data) == Scalars(q.data)
    ensures Scalars(r.state) == Scalars(q.state) && Scalars(r.cache) == Scalars(q.cache)
  {
    hide Framed, TupleText;
    assert Tail(r, 3) == (front + Tail(r, 3))[|front|..] == Tail(q, 3);
    TailStep(Bytes(r.config), Bytes(q.config), Tail(r, 2), Tail(q, 2));
    TailStep(Bytes(r.data), Bytes(q.data), Tail(r, 1), Tail(q, 1));
    TailStep(Bytes(r.state), Bytes(q.state), Tail(r, 0), Tail(q, 0));
    assert Tail(r, 0) + [] == Tail(r, 0) && Tail(q, 0) + [] == Tail(q, 0);
    FramePrefix(Bytes(r.cache), Bytes(q.cache), [], []);
    Utf8Injective(Scalars(r.config), Scalars(q.config));
    Utf8Injective(Scalars(r.data), Scalars(q.data));
    Utf8Injective(Scalars(r.state), Scalars(q.state));
    Utf8Injective(Scalars(r.cache), Scalars(q.cache));
  }

  /** Two tuples of roots are hashed from the same bytes exactly when the four roots
      agree one by one, lone surrogates aside: no part of one root can be taken for
      a part of another, whatever digits, colons and bars the roots contain. */
  lemma SameTextExactly(r: Roots, q: Roots)
    ensures Bytes(TupleText(r)) == Bytes(TupleText(q)) <==>
            && Scalars(r.config) == Scalars(q.config) && Scalars(r.data) == Scalars(q.data)
            && Scalars(r.state) == Scalars(q.state) && Scalars(r.cache) == Scalars(q.cache)
  {
    hide TupleText, Tail;
    TextBytes(r);
    TextBytes(q);
    if Bytes(TupleText(r)) == Bytes(TupleText(q)) {
      TailsAgree(Bytes(PREFIX), r, q);
    } else {
      SameTails(r, q);
    }
  }

  // ---- Decoded paths ---------------------------------------------------------------------------

  /** Surrogates come in pairs, as in any string decoded from a file system. */
  predicate WellFormed(s: seq<CodeUnit>)
  {
    if s == [] then true
    else if StartsWithPair(s) then WellFormed(s[2..])
    else !IsHigh(s[0]) && !IsLow(s[0]) && WellFormed(s[1..])
  }

  /** Well formed are exactly the strings in which every surrogate is one of a pair. */
  lemma {:induction false} WellFormedExactly(s: seq<CodeUnit>)
    ensures WellFormed(s) <==>
            && (forall i :: 0 <= i < |s| && IsHigh(s[i]) ==> i + 1 < |s| && IsLow(s[i + 1]))
            && (forall i :: 0 <= i < |s| && IsLow(s[i]) ==> i > 0 && IsHigh(s[i - 1]))
    decreases |s|
  {
    if s != [] {
      var n := if StartsWithPair(s) then 2 else 1;
      var rest := s[n..];
      WellFormedExactly(rest);
      assert forall i :: 0 <= i < |rest| ==> rest[i] == s[i + n];
      assert forall i :: n <= i < |s| ==> s[i] == rest[i - n];
      if WellFormed(s) {
        forall i | 0 <= i < |s| && IsLow(s[i]) ensures i > 0 && IsHigh(s[i - 1]) {
          if i >= n {
            assert IsLow(rest[i - n]);
          }
        }
        forall i | 0 <= i < |s| && IsHigh(s[i]) ensures i + 1 < |s| && IsLow(s[i + 1]) {
          if i >= n {
            assert IsHigh(rest[i - n]);
          }
        }
      }
    }
  }

  lemma {:induction false} ScalarsInjective(s: seq<CodeUnit>, t: seq<CodeUnit>)
    requires WellFormed(s) && WellFormed(t) && Scalars(s) == Scalars(t)
    ensures s == t
    decreases |s|
  {
    if s != [] {
      var m, n := if StartsWithPair(s) then 2 else 1, if StartsWithPair(t) then 2 else 1;
      assert Scalars(s)[0] == Scalars(t)[0] && Scalars(s)[1..] == Scalars(s[m..]) && Scalars(t)[1..] == Scalars(t[n..]);
      assert m == n && s[..m] == t[..n];
      ScalarsInjective(s[m..], t[n..]);
      assert s == s[..m] + s[m..] && t == t[..n] + t[n..];
    }
  }

  predicate AllWellFormed(r: Roots)
  {
    WellFormed(r.config) && WellFormed(r.data) && WellFormed(r.state) && WellFormed(r.cache)
  }

  /** On well-formed roots the encoding is injective. */
  lemma RootsAreDetermined(r: Roots, q: Roots)
    requires AllWellFormed(r) && AllWellFormed(q)
    ensures Bytes(TupleText(r)) == Bytes(TupleText(q)) <==> r == q
  {
    hide Bytes, TupleText;
    SameTextExactly(r, q);
    if Bytes(TupleText(r)) == Bytes(TupleText(q)) {
      ScalarsInjective(r.config, q.config);
      ScalarsInjective(r.data, q.data);
      ScalarsInjective(r.state, q.state);
      ScalarsInjective(r.cache, q.cache);
    }
  }

  /** On ill-formed ones it is not. */
  lemma LoneSurrogatesCollide(data: seq<CodeUnit>, state: seq<CodeUnit>, cache: seq<CodeUnit>)
    ensures var r, q := Roots([0xD800], data, state, cache), Roots([0xDC00], data, state, cache);
            r != q && Bytes(TupleText(r)) == Bytes(TupleText(q))
  {
    hide Bytes, TupleText;
    var r, q := Roots([0xD800], data, state, cache), Roots([0xDC00], data, state, cache);
    assert r.config[0] != q.config[0];
    SameTextExactly(r, q);
  }
}
