/** The version gate of library releases (scripts/release/library-release-gate.ts:67-183),
    against the grammar and the precedence of Semantic Versioning 2.0.0. */
module SemverGate {
  import opened Decimal
  import opened Strings

  datatype Option<T> = None | Some(value: T)

  // ---- The grammar -----------------------------------------------------------

  /** A version as text: numeric core, prerelease and build identifiers. */
  datatype Version = Version(major: string, minor: string, patch: string, prerelease: seq<string>, build: seq<string>)

  predicate IsIdentifierChar(c: char)
  {
    IsDigit(c) || 'A' <= c <= 'Z' || 'a' <= c <= 'z' || c == '-'
  }

  predicate AllDigits(s: string)
  {
    s != "" && forall i :: 0 <= i < |s| ==> IsDigit(s[i])
  }

  /** `0|[1-9]\d*` */
  predicate IsNumeric(s: string)
  {
    AllDigits(s) && (s[0] == '0' ==> |s| == 1)
  }

  predicate IsBuildIdentifier(s: string)
  {
    s != "" && forall i :: 0 <= i < |s| ==> IsIdentifierChar(s[i])
  }

  /** Numeric without leading zeros, or with at least one non-digit. */
  predicate IsPrereleaseIdentifier(s: string)
  {
    IsBuildIdentifier(s) && (AllDigits(s) ==> IsNumeric(s))
  }

  predicate WellFormed(v: Version)
  {
    && IsNumeric(v.major) && IsNumeric(v.minor) && IsNumeric(v.patch)
    && (forall p :: p in v.prerelease ==> IsPrereleaseIdentifier(p))
    && (forall p :: p in v.build ==> IsBuildIdentifier(p))
  }

  function Suffix(mark: char, parts: seq<string>): string
  {
    if parts == [] then "" else [mark] + Join(parts, '.')
  }

  function Core(v: Version): seq<string>
  {
    [v.major, v.minor, v.patch]
  }

  function Render(v: Version): string
  {
    Join(Core(v), '.') + Suffix('-', v.prerelease) + Suffix('+', v.build)
  }

  /** Everything before the first mark, and the dotted parts after it. */
  function Cut(s: string, mark: char): (string, seq<string>)
  {
    var i := IndexOf(s, mark);
    if i < 0 then (s, []) else (s[..i], Split(s[i + 1..], '.'))
  }

  function ParseVersion(s: string): Option<Version>
  {
    var (main, build) := Cut(s, '+');
    var (core, prerelease) := Cut(main, '-');
    var numbers := Split(core, '.');
    if |numbers| != 3 then None
    else
      var v := Version(numbers[0], numbers[1], numbers[2], prerelease, build);
      if WellFormed(v) then Some(v) else None
  }

  lemma CutInverse(s: string, mark: char)
    ensures var (front, parts) := Cut(s, mark); s == front + Suffix(mark, parts)
  {
    var i := IndexOf(s, mark);
    if i >= 0 {
      JoinSplit(s[i + 1..], '.');
      assert s == s[..i] + [mark] + s[i + 1..];
    }
  }

  lemma CutSuffix(front: string, mark: char, parts: seq<string>)
    requires mark !in front && forall p :: p in parts ==> '.' !in p
    ensures Cut(front + Suffix(mark, parts), mark) == (front, parts)
  {
    if parts == [] {
      assert front + "" == front;
    } else {
      var rest := Join(parts, '.');
      var s := front + [mark] + rest;
      assert front + Suffix(mark, parts) == s;
      IndexOfFirst(front, mark, rest);
      assert s[..|front|] == front && s[|front| + 1..] == rest;
      SplitJoin(parts, '.');
    }
  }

  lemma ParseThenRender(s: string, v: Version)
    requires ParseVersion(s) == Some(v)
    ensures WellFormed(v) && Render(v) == s
  {
    hide WellFormed, Suffix;
    var (main, build) := Cut(s, '+');
    var (core, prerelease) := Cut(main, '-');
    CutInverse(s, '+');
    CutInverse(main, '-');
    JoinSplit(core, '.');
    assert Core(v) == Split(core, '.');
  }

  lemma RenderThenParse(v: Version)
    requires WellFormed(v)
    ensures ParseVersion(Render(v)) == Some(v)
  {
    var core := Join(Core(v), '.');
    var main := core + Suffix('-', v.prerelease);
    JoinChars(Core(v), '.', '-');
    JoinChars(Core(v), '.', '+');
    if v.prerelease != [] {
      JoinChars(v.prerelease, '.', '+');
    }
    CutSuffix(main, '+', v.build);
    CutSuffix(core, '-', v.prerelease);
    SplitJoin(Core(v), '.');
  }

  /** Parsing is exactly the inverse of rendering: a text is accepted as v when, and
      only when, v is well formed and renders to it. */
  lemma ParsesExactly(s: string, v: Version)
    ensures ParseVersion(s) == Some(v) <==> WellFormed(v) && Render(v) == s
  {
    if WellFormed(v) && Render(v) == s {
      RenderThenParse(v);
    }
    if ParseVersion(s) == Some(v) {
      ParseThenRender(s, v);
    }
  }

  // ---- Numbers -----------------------------------------------------------------

  const TWO_TO_53: nat := 9007199254740992

  function Value(s: string): nat
    requires AllDigits(s)
    decreases |s|
  {
    var digit := s[|s| - 1] as int - '0' as int;
    if |s| == 1 then digit else Value(s[..|s| - 1]) * 10 + digit
  }

  lemma {:induction false} DigitsOfValue(s: string)
    requires IsNumeric(s)
    ensures Digits(Value(s)) == s
    ensures |s| > 1 ==> Value(s) >= 10
    ensures s[0] != '0' ==> Value(s) > 0
    decreases |s|
  {
    var n := |s| - 1;
    var digit := s[n] as int - '0' as int;
    if n > 0 {
      DigitsOfValue(s[..n]);
      assert Value(s) / 10 == Value(s[..n]) && Value(s) % 10 == digit;
      assert s == s[..n] + [s[n]];
    } else {
      assert s == [s[0]];
    }
  }

  function Pow2(n: nat): nat
    ensures Pow2(n) > 0
  {
    if n == 0 then 1 else 2 * Pow2(n - 1)
  }

  /** How many low bits a double drops from an integer of this size. */
  function DroppedBits(n: nat): nat
  {
    if n < TWO_TO_53 then 0 else 1 + DroppedBits(n / 2)
  }

  /** The multiple of the unit nearest to n, the even one of two. */
  function Rounded(n: nat, unit: nat): nat
    requires unit > 0
  {
    var q, r := n / unit, n % unit;
    if 2 * r < unit || (2 * r == unit && q % 2 == 0) then q * unit else (q + 1) * unit
  }

  /** `Number(...)` of a decimal integer: exact below 2^53, else rounded half to even. */
  function Double(n: nat): nat
  {
    Rounded(n, Pow2(DroppedBits(n)))
  }

  // ---- The comparison ------------------------------------------------------------

  datatype Parsed = Parsed(major: nat, minor: nat, patch: nat, prerelease: seq<string>)

  function ParseSemver(v: Version): Parsed
    requires WellFormed(v)
  {
    Parsed(Double(Value(v.major)), Double(Value(v.minor)), Double(Value(v.patch)), v.prerelease)
  }

  /** `<` on strings: by code units, the shorter first. */
  predicate StringLess(a: string, b: string)
  {
    if b == "" then false
    else if a == "" then true
    else if a[0] != b[0] then a[0] < b[0]
    else StringLess(a[1..], b[1..])
  }

  function CompareIdentifiers(a: string, b: string): int
    requires IsPrereleaseIdentifier(a) && IsPrereleaseIdentifier(b)
  {
    if a == b then 0
    else if AllDigits(a) && AllDigits(b) then Double(Value(a)) - Double(Value(b))
    else if AllDigits(a) then -1
    else if AllDigits(b) then 1
    else if StringLess(a, b) then -1 else 1
  }

  ghost predicate Identifiers(ids: seq<string>)
  {
    forall p :: p in ids ==> IsPrereleaseIdentifier(p)
  }

  /** The loop of `compareSemver` from an index on; equal identifiers are skipped,
      and the first unequal pair decides even when its numbers coincide. */
  function ComparePrerelease(a: seq<string>, b: seq<string>): int
    requires Identifiers(a) && Identifiers(b)
    decreases |a|
  {
    if a == [] then if b == [] then 0 else -1
    else if b == [] then 1
    else if a[0] == b[0] then ComparePrerelease(a[1..], b[1..])
    else CompareIdentifiers(a[0], b[0])
  }

  function CompareSemver(a: Parsed, b: Parsed): int
    requires Identifiers(a.prerelease) && Identifiers(b.prerelease)
  {
    if a.major != b.major then a.major - b.major
    else if a.minor != b.minor then a.minor - b.minor
    else if a.patch != b.patch then a.patch - b.patch
    else if a.prerelease == [] then if b.prerelease == [] then 0 else 1
    else if b.prerelease == [] then -1
    else ComparePrerelease(a.prerelease, b.prerelease)
  }

  // ---- Precedence, section 11 of Semantic Versioning 2.0.0 ---------------------------

  ghost predicate FirstDifference<T>(a: seq<T>, b: seq<T>, k: nat)
  {
    && k <= |a| && k <= |b| && a[..k] == b[..k]
    && (k == |a| ==> k < |b|)
    && (k < |a| && k < |b| ==> a[k] != b[k])
  }

  /** Lexicographic order: the first difference decides, a proper prefix is less. */
  ghost predicate LexBefore<T>(a: seq<T>, b: seq<T>, less: (T, T) -> bool)
  {
    exists k: nat :: FirstDifference(a, b, k) && (k == |a| || (k < |b| && less(a[k], b[k])))
  }

  /** Item 4: numeric identifiers numerically, below alphanumeric ones, which are
      compared in ASCII order. */
  ghost predicate IdentifierBefore(a: string, b: string)
  {
    if AllDigits(a) && AllDigits(b) then Value(a) < Value(b)
    else if AllDigits(a) || AllDigits(b) then AllDigits(a)
    else LexBefore(a, b, (x: char, y: char) => x < y)
  }

  ghost predicate CoreBefore(a: Version, b: Version)
    requires WellFormed(a) && WellFormed(b)
  {
    || Value(a.major) < Value(b.major)
    || (a.major == b.major && Value(a.minor) < Value(b.minor))
    || (a.major == b.major && a.minor == b.minor && Value(a.patch) < Value(b.patch))
  }

  /** Items 2 to 4 for whole versions; build metadata is ignored. */
  ghost predicate Precedes(a: Version, b: Version)
    requires WellFormed(a) && WellFormed(b)
  {
    || CoreBefore(a, b)
    || (Core(a) == Core(b) && a.prerelease != [] && b.prerelease == [])
    || (&& Core(a) == Core(b) && a.prerelease != [] && b.prerelease != []
        && LexBefore(a.prerelease, b.prerelease, (x, y) => IdentifierBefore(x, y)))
  }

  ghost predicate SamePrecedence(a: Version, b: Version)
  {
    Core(a) == Core(b) && a.prerelease == b.prerelease
  }

  ghost predicate SameDouble(a: string, b: string)
  {
    AllDigits(a) && AllDigits(b) && Double(Value(a)) == Double(Value(b))
  }

  ghost predicate PrereleaseCollapses(a: seq<string>, b: seq<string>)
  {
    && a != [] && b != []
    && if a[0] == b[0] then PrereleaseCollapses(a[1..], b[1..]) else SameDouble(a[0], b[0])
  }

  /** The first parts in which the versions differ are numbers that round to the same
      double. */
  ghost predicate Collapses(a: Version, b: Version)
  {
    if a.major != b.major then SameDouble(a.major, b.major)
    else if a.minor != b.minor then SameDouble(a.minor, b.minor)
    else if a.patch != b.patch then SameDouble(a.patch, b.patch)
    else PrereleaseCollapses(a.prerelease, b.prerelease)
  }

  // ---- The comparison is that precedence ------------------------------------------------

  lemma LexUnfold<T>(a: seq<T>, b: seq<T>, less: (T, T) -> bool)
    ensures LexBefore(a, b, less) <==>
            b != [] && (a == [] || (a[0] != b[0] && less(a[0], b[0]))
                        || (a[0] == b[0] && LexBefore(a[1..], b[1..], less)))
  {
    if a != [] && b != [] && a[0] == b[0] {
      if LexBefore(a, b, less) {
        var k: nat :| FirstDifference(a, b, k) && (k == |a| || (k < |b| && less(a[k], b[k])));
        assert k > 0;
        assert a[1..][..k - 1] == a[..k][1..] && b[1..][..k - 1] == b[..k][1..];
        assert FirstDifference(a[1..], b[1..], k - 1);
      }
      if LexBefore(a[1..], b[1..], less) {
        var k: nat :| FirstDifference(a[1..], b[1..], k) && (k == |a[1..]| || (k < |b[1..]| && less(a[1..][k], b[1..][k])));
        assert k <= |a[1..]| && k <= |b[1..]|;
        assert a[..k + 1] == [a[0]] + a[1..][..k] && b[..k + 1] == [b[0]] + b[1..][..k];
        assert FirstDifference(a, b, k + 1);
      }
    } else if b != [] {
      if a == [] || less(a[0], b[0]) {
        assert FirstDifference(a, b, 0);
      }
      if LexBefore(a, b, less) && a != [] {
        var k: nat :| FirstDifference(a, b, k) && (k == |a| || (k < |b| && less(a[k], b[k])));
      }
    }
  }

  lemma {:induction false} StringLessIsLex(a: string, b: string)
    ensures StringLess(a, b) <==> LexBefore(a, b, (x: char, y: char) => x < y)
    ensures a != b ==> StringLess(a, b) != StringLess(b, a)
    decreases |a|
  {
    LexUnfold(a, b, (x: char, y: char) => x < y);
    if a != "" && b != "" && a[0] == b[0] {
      assert a == [a[0]] + a[1..] && b == [b[0]] + b[1..];
      StringLessIsLex(a[1..], b[1..]);
    }
  }

  // ---- Rounding is monotone ----------------------------------------------------------------

  const TWO_TO_52: nat := 4503599627370496

  /** Dropping bits leaves a number of at most 53 bits, and of exactly 53 when any are
      dropped. */
  lemma {:induction false} DropRange(n: nat)
    ensures n < TWO_TO_53 * Pow2(DroppedBits(n))
    ensures DroppedBits(n) > 0 ==> n >= TWO_TO_52 * Pow2(DroppedBits(n))
    decreases n
  {
    if n >= TWO_TO_53 {
      DropRange(n / 2);
    }
  }

  lemma DivideBound(n: nat, unit: nat, k: nat)
    requires unit > 0
    ensures n < k * unit ==> n / unit < k
    ensures n >= k * unit ==> n / unit >= k
    ensures n / unit * unit + n % unit == n && 0 <= n % unit < unit
  {
    var q := n / unit;
    assert n == q * unit + n % unit;
    if q < k {
      assert (q + 1) * unit <= k * unit;
    } else {
      assert k * unit <= q * unit;
    }
  }

  lemma MultiplyMonotone(a: nat, b: nat, unit: nat)
    requires a <= b
    ensures a * unit <= b * unit
  {}

  /** A number lies between two multiples, and is rounded to one of them. */
  lemma RoundedParts(n: nat, unit: nat)
    requires unit > 0
    ensures Rounded(n, unit) == n / unit * unit || Rounded(n, unit) == (n / unit + 1) * unit
  {}

  /** Rounding does not cross a multiple of the unit. */
  lemma NeighbourBounds(q: nat, unit: nat, k: nat)
    ensures q < k ==> q * unit <= k * unit && (q + 1) * unit <= k * unit
    ensures q >= k ==> q * unit >= k * unit && (q + 1) * unit >= k * unit
  {
    if q < k {
      MultiplyMonotone(q, k, unit);
      MultiplyMonotone(q + 1, k, unit);
    } else {
      MultiplyMonotone(k, q, unit);
      MultiplyMonotone(k, q + 1, unit);
    }
  }

  lemma QuotientBound(n: nat, unit: nat, q: nat, k: nat)
    requires unit > 0 && q == n / unit
    ensures n < k * unit ==> q < k
    ensures n >= k * unit ==> q >= k
  {
    DivideBound(n, unit, k);
  }

  lemma RoundedQuotient(n: nat, unit: nat, q: nat)
    requires unit > 0 && q == n / unit
    ensures Rounded(n, unit) == q * unit || Rounded(n, unit) == (q + 1) * unit
  {
    RoundedParts(n, unit);
    hide Rounded;
  }

  lemma RoundedBounds(n: nat, unit: nat, k: nat)
    requires unit > 0
    ensures n < k * unit ==> Rounded(n, unit) <= k * unit
    ensures n >= k * unit ==> Rounded(n, unit) >= k * unit
  {
    hide Rounded;
    var q: nat :| q == n / unit;
    RoundedQuotient(n, unit, q);
    QuotientBound(n, unit, q, k);
    NeighbourBounds(q, unit, k);
  }

  lemma RoundedDistance(n: nat, unit: nat, q: nat, r: nat)
    requires unit > 0 && q == n / unit && r == n % unit
    ensures n == q * unit + r && r < unit && (q + 1) * unit == q * unit + unit
  {
    DivideBound(n, unit, q);
  }

  /** Rounding goes to a nearest multiple of the unit, and of two to the even one. */
  lemma RoundedIsNearest(n: nat, unit: nat)
    requires unit > 0
    ensures var d: int := Rounded(n, unit) as int - n;
            && 0 <= 2 * d + unit && 2 * d <= unit
            && (2 * d + unit == 0 ==> n / unit % 2 == 0) && (2 * d == unit ==> n / unit % 2 == 1)
  {
    RoundedDistance(n, unit, n / unit, n % unit);
  }

  /** A double lies within the range its number of dropped bits allows. */
  lemma DoubleRange(n: nat)
    ensures Double(n) <= TWO_TO_53 * Pow2(DroppedBits(n))
    ensures DroppedBits(n) > 0 ==> Double(n) >= TWO_TO_52 * Pow2(DroppedBits(n))
  {
    hide Pow2, DroppedBits, Rounded;
    DropRange(n);
    RoundedBounds(n, Pow2(DroppedBits(n)), TWO_TO_53);
    RoundedBounds(n, Pow2(DroppedBits(n)), TWO_TO_52);
  }

  lemma {:induction false} DroppedMonotone(m: nat, n: nat)
    requires m <= n
    ensures DroppedBits(m) <= DroppedBits(n)
    decreases n
  {
    if m >= TWO_TO_53 {
      DroppedMonotone(m / 2, n / 2);
    }
  }

  lemma {:induction false} Pow2Grows(a: nat, b: nat)
    requires a < b
    ensures 2 * Pow2(a) <= Pow2(b)
    decreases b
  {
    if a < b - 1 {
      Pow2Grows(a, b - 1);
    }
  }

  lemma DivideMonotone(m: nat, n: nat, unit: nat)
    requires m <= n && unit > 0
    ensures m / unit <= n / unit
    ensures m / unit == n / unit ==> m % unit <= n % unit
  {
    var q := m / unit;
    DivideBound(m, unit, q);
    DivideBound(n, unit, q);
  }

  /** Rounding to a multiple of the same unit keeps the order. */
  lemma RoundMonotone(m: nat, n: nat, unit: nat)
    requires m <= n && unit > 0
    ensures Rounded(m, unit) <= Rounded(n, unit)
  {
    var q, p := m / unit, n / unit;
    DivideMonotone(m, n, unit);
    MultiplyMonotone(q, q + 1, unit);
    if p > q {
      RoundedParts(m, unit);
      RoundedParts(n, unit);
      MultiplyMonotone(q + 1, p, unit);
      MultiplyMonotone(p, p + 1, unit);
      hide Rounded;
    }
  }

  lemma DoubleMonotone(m: nat, n: nat)
    requires m <= n
    ensures Double(m) <= Double(n)
  {
    DroppedMonotone(m, n);
    var d, e := DroppedBits(m), DroppedBits(n);
    if d == e {
      RoundMonotone(m, n, Pow2(d));
    } else {
      DoubleRange(m);
      DoubleRange(n);
      Pow2Grows(d, e);
      hide Double, Pow2, DroppedBits, Rounded;
    }
  }

  // ---- The comparison, number by number ------------------------------------------------------

  lemma NumericEquality(a: string, b: string)
    requires IsNumeric(a) && IsNumeric(b)
    ensures Value(a) == Value(b) <==> a == b
  {
    DigitsOfValue(a);
    DigitsOfValue(b);
  }

  /** Doubles that differ are in the order of the numbers. */
  lemma DoublesDecide(a: string, b: string)
    requires IsNumeric(a) && IsNumeric(b)
    ensures Double(Value(a)) < Double(Value(b)) ==> Value(a) < Value(b)
    ensures !SameDouble(a, b) && Value(a) < Value(b) ==> Double(Value(a)) < Double(Value(b))
    ensures Value(a) == Value(b) <==> a == b
  {
    NumericEquality(a, b);
    hide Double, Value;
    if Value(a) <= Value(b) {
      DoubleMonotone(Value(a), Value(b));
    } else {
      DoubleMonotone(Value(b), Value(a));
    }
  }

  lemma IdentifierAgrees(a: string, b: string)
    requires IsPrereleaseIdentifier(a) && IsPrereleaseIdentifier(b) && a != b && !SameDouble(a, b)
    ensures CompareIdentifiers(a, b) < 0 <==> IdentifierBefore(a, b)
    ensures CompareIdentifiers(a, b) > 0 <==> IdentifierBefore(b, a)
    ensures CompareIdentifiers(a, b) != 0
  {
    hide Double, Value;
    StringLessIsLex(a, b);
    StringLessIsLex(b, a);
    if AllDigits(a) && AllDigits(b) {
      DoublesDecide(a, b);
      DoublesDecide(b, a);
    }
  }

  lemma {:induction false} PrereleaseAgrees(a: seq<string>, b: seq<string>)
    requires Identifiers(a) && Identifiers(b) && !PrereleaseCollapses(a, b)
    ensures ComparePrerelease(a, b) < 0 <==> LexBefore(a, b, (x, y) => IdentifierBefore(x, y))
    ensures ComparePrerelease(a, b) > 0 <==> LexBefore(b, a, (x, y) => IdentifierBefore(x, y))
    ensures ComparePrerelease(a, b) == 0 <==> a == b
    decreases |a|
  {
    hide SameDouble, CompareIdentifiers, IdentifierBefore, LexBefore;
    LexUnfold(a, b, (x, y) => IdentifierBefore(x, y));
    LexUnfold(b, a, (x, y) => IdentifierBefore(x, y));
    if a != [] && b != [] {
      if a[0] == b[0] {
        assert a == [a[0]] + a[1..] && b == [b[0]] + b[1..];
        PrereleaseAgrees(a[1..], b[1..]);
      } else {
        IdentifierAgrees(a[0], b[0]);
      }
    }
  }

  /** Unless the first parts that differ are numbers that round to the same double, the
      comparison is the precedence of section 11: negative, positive, or zero exactly
      when the left precedes, the right precedes, or core and prerelease are the same. */
  lemma CompareIsPrecedence(a: Version, b: Version)
    requires WellFormed(a) && WellFormed(b) && !Collapses(a, b)
    ensures CompareSemver(ParseSemver(a), ParseSemver(b)) < 0 <==> Precedes(a, b)
    ensures CompareSemver(ParseSemver(a), ParseSemver(b)) > 0 <==> Precedes(b, a)
    ensures CompareSemver(ParseSemver(a), ParseSemver(b)) == 0 <==> SamePrecedence(a, b)
  {
    hide Double, Value, LexBefore, ComparePrerelease, PrereleaseCollapses;
    DoublesDecide(a.major, b.major);
    DoublesDecide(b.major, a.major);
    DoublesDecide(a.minor, b.minor);
    DoublesDecide(b.minor, a.minor);
    DoublesDecide(a.patch, b.patch);
    DoublesDecide(b.patch, a.patch);
    if Core(a) == Core(b) {
      PrereleaseAgrees(a.prerelease, b.prerelease);
    }
  }

  function MergedNumber(x: string, y: string): string
    requires IsNumeric(x) && IsNumeric(y)
  {
    if Double(Value(x)) == Double(Value(y)) then y else x
  }

  /** The left version, with each core number that rounds to the double of the right one's
      replaced by that. */
  function Merged(a: Version, b: Version): Version
    requires WellFormed(a) && WellFormed(b)
  {
    a.(major := MergedNumber(a.major, b.major), minor := MergedNumber(a.minor, b.minor),
       patch := MergedNumber(a.patch, b.patch))
  }

  lemma {:induction false} CollapsedIsEqual(a: seq<string>, b: seq<string>)
    requires Identifiers(a) && Identifiers(b) && PrereleaseCollapses(a, b)
    ensures ComparePrerelease(a, b) == 0 && a != [] && b != []
    ensures LexBefore(a, b, (x, y) => IdentifierBefore(x, y)) || LexBefore(b, a, (x, y) => IdentifierBefore(x, y))
    decreases |a|
  {
    hide Double, Value, LexBefore;
    LexUnfold(a, b, (x, y) => IdentifierBefore(x, y));
    LexUnfold(b, a, (x, y) => IdentifierBefore(x, y));
    if a[0] == b[0] {
      CollapsedIsEqual(a[1..], b[1..]);
    } else {
      assert a[0] in a && b[0] in b;
      NumericEquality(a[0], b[0]);
    }
  }

  lemma MergedComparesAlike(a: Version, b: Version)
    requires WellFormed(a) && WellFormed(b)
    ensures WellFormed(Merged(a, b))
    ensures CompareSemver(ParseSemver(Merged(a, b)), ParseSemver(b)) == CompareSemver(ParseSemver(a), ParseSemver(b))
    ensures Collapses(Merged(a, b), b) ==> PrereleaseCollapses(a.prerelease, b.prerelease)
                                           && CompareSemver(ParseSemver(a), ParseSemver(b)) == 0
  {
    hide Double, Value, IsNumeric, ComparePrerelease, PrereleaseCollapses;
    if Collapses(Merged(a, b), b) {
      CollapsedIsEqual(a.prerelease, b.prerelease);
    }
  }

  /** Of two versions whose prereleases differ, one precedes the other. */
  lemma CollapsedAreOrdered(a: Version, b: Version)
    requires WellFormed(a) && WellFormed(b) && PrereleaseCollapses(a.prerelease, b.prerelease)
    ensures Precedes(a, b) || Precedes(b, a)
  {
    hide Double, Value, IsNumeric, LexBefore, PrereleaseCollapses;
    NumericEquality(a.major, b.major);
    NumericEquality(a.minor, b.minor);
    NumericEquality(a.patch, b.patch);
    CollapsedIsEqual(a.prerelease, b.prerelease);
  }

  /** For any two versions: the comparison is the precedence of section 11 exactly when
      replacing the core numbers that coincide as doubles changes neither way of
      preceding, and no two prerelease numbers collapse after that. */
  lemma CompareIsPrecedenceExactly(a: Version, b: Version)
    requires WellFormed(a) && WellFormed(b)
    ensures WellFormed(Merged(a, b))
    ensures && (CompareSemver(ParseSemver(a), ParseSemver(b)) < 0 <==> Precedes(a, b))
            && (CompareSemver(ParseSemver(a), ParseSemver(b)) > 0 <==> Precedes(b, a))
            <==>
            && !Collapses(Merged(a, b), b)
            && (Precedes(Merged(a, b), b) <==> Precedes(a, b))
            && (Precedes(b, Merged(a, b)) <==> Precedes(b, a))
  {
    MergedComparesAlike(a, b);
    hide ParseSemver, CompareSemver, Precedes, Collapses, Merged;
    if Collapses(Merged(a, b), b) {
      CollapsedAreOrdered(a, b);
    } else {
      CompareIsPrecedence(Merged(a, b), b);
    }
  }

  ghost predicate FirstPrereleaseNumbers(a: seq<string>, b: seq<string>, x: string, y: string)
  {
    && a != [] && b != []
    && if a[0] == b[0] then FirstPrereleaseNumbers(a[1..], b[1..], x, y) else a[0] == x && b[0] == y
  }

  /** The first parts in which the versions differ are these two numbers. */
  ghost predicate FirstNumbers(a: Version, b: Version, x: string, y: string)
  {
    if a.major != b.major then a.major == x && b.major == y
    else if a.minor != b.minor then a.minor == x && b.minor == y
    else if a.patch != b.patch then a.patch == x && b.patch == y
    else FirstPrereleaseNumbers(a.prerelease, b.prerelease, x, y)
  }

  lemma {:induction false} FirstPrereleaseDecides(a: seq<string>, b: seq<string>, x: string, y: string)
    requires FirstPrereleaseNumbers(a, b, x, y) && IsNumeric(x) && IsNumeric(y) && Value(x) < Value(y)
    ensures LexBefore(a, b, (x, y) => IdentifierBefore(x, y))
    ensures PrereleaseCollapses(a, b) <==> SameDouble(x, y)
    decreases |a|
  {
    hide LexBefore;
    LexUnfold(a, b, (x, y) => IdentifierBefore(x, y));
    if a[0] == b[0] {
      FirstPrereleaseDecides(a[1..], b[1..], x, y);
    }
  }

  lemma PrereleasePresent(a: seq<string>, b: seq<string>, x: string, y: string)
    requires FirstPrereleaseNumbers(a, b, x, y)
    ensures a != [] && b != []
  {}

  lemma FirstNumbersDecide(a: Version, b: Version, x: string, y: string)
    requires WellFormed(a) && WellFormed(b) && FirstNumbers(a, b, x, y)
    requires IsNumeric(x) && IsNumeric(y) && Value(x) < Value(y)
    ensures Precedes(a, b) && (Collapses(a, b) <==> SameDouble(x, y))
  {
    hide SameDouble, Value, LexBefore, FirstPrereleaseNumbers, PrereleaseCollapses;
    if Core(a) == Core(b) {
      FirstPrereleaseDecides(a.prerelease, b.prerelease, x, y);
      PrereleasePresent(a.prerelease, b.prerelease, x, y);
    }
  }

  function PatchRelease(patch: string): Version
  {
    Version("0", "0", patch, [], [])
  }

  lemma PatchesCollapse(x: string, y: string)
    requires IsNumeric(x) && IsNumeric(y) && x != y && Double(Value(x)) == Double(Value(y))
    ensures var a, b := PatchRelease(x), PatchRelease(y);
            WellFormed(a) && WellFormed(b) && FirstNumbers(a, b, x, y) && CompareSemver(ParseSemver(a), ParseSemver(b)) == 0
  {
    hide Double, Value;
  }

  /** Of two different numbers, every pair of versions that first differ in them is
      compared correctly exactly when the numbers round to different doubles. */
  lemma NumbersDecideExactly(x: string, y: string)
    requires IsNumeric(x) && IsNumeric(y) && Value(x) < Value(y)
    ensures (forall a, b :: WellFormed(a) && WellFormed(b) && FirstNumbers(a, b, x, y) ==>
               CompareSemver(ParseSemver(a), ParseSemver(b)) < 0)
            <==> Double(Value(x)) != Double(Value(y))
  {
    hide Double, Value, CompareSemver, Precedes, Collapses, FirstNumbers;
    if Double(Value(x)) != Double(Value(y)) {
      forall a, b | WellFormed(a) && WellFormed(b) && FirstNumbers(a, b, x, y)
        ensures CompareSemver(ParseSemver(a), ParseSemver(b)) < 0
      {
        FirstNumbersDecide(a, b, x, y);
        CompareIsPrecedence(a, b);
      }
    } else {
      PatchesCollapse(x, y);
    }
  }

  // ---- Precedence is a strict order ---------------------------------------------------------

  lemma {:induction false} LexTransitive(a: string, b: string, c: string)
    requires StringLess(a, b) && StringLess(b, c)
    ensures StringLess(a, c)
    decreases |a|
  {
    if a != "" && a[0] == b[0] == c[0] {
      LexTransitive(a[1..], b[1..], c[1..]);
    }
  }

  lemma IdentifierTransitive(a: string, b: string, c: string)
    requires Identifiers([a]) && Identifiers([b]) && Identifiers([c])
    requires CompareIdentifiers(a, b) < 0 && CompareIdentifiers(b, c) < 0
    ensures CompareIdentifiers(a, c) < 0
  {
    hide Double, Value;
    if !AllDigits(a) {
      LexTransitive(a, b, c);
      StringLessIsLex(a, b);
      StringLessIsLex(b, a);
    }
  }

  lemma IdentifierAntisymmetric(a: string, b: string)
    requires IsPrereleaseIdentifier(a) && IsPrereleaseIdentifier(b)
    ensures CompareIdentifiers(a, b) < 0 <==> CompareIdentifiers(b, a) > 0
  {
    hide Double, Value;
    StringLessIsLex(a, b);
    StringLessIsLex(b, a);
  }

  lemma {:induction false} PrereleaseTransitive(a: seq<string>, b: seq<string>, c: seq<string>)
    requires Identifiers(a) && Identifiers(b) && Identifiers(c)
    requires ComparePrerelease(a, b) < 0 && ComparePrerelease(b, c) < 0
    ensures ComparePrerelease(a, c) < 0
    decreases |a|
  {
    hide CompareIdentifiers;
    if a != [] {
      if a[0] == b[0] == c[0] {
        PrereleaseTransitive(a[1..], b[1..], c[1..]);
      } else if a[0] != b[0] && b[0] != c[0] {
        IdentifierTransitive(a[0], b[0], c[0]);
        IdentifierAntisymmetric(a[0], b[0]);
      }
    }
  }

  lemma {:induction false} PrereleaseAntisymmetric(a: seq<string>, b: seq<string>)
    requires Identifiers(a) && Identifiers(b)
    ensures ComparePrerelease(a, b) < 0 <==> ComparePrerelease(b, a) > 0
    decreases |a|
  {
    hide CompareIdentifiers;
    if a != [] && b != [] {
      if a[0] == b[0] {
        PrereleaseAntisymmetric(a[1..], b[1..]);
      } else {
        IdentifierAntisymmetric(a[0], b[0]);
      }
    }
  }

  /** The comparison is antisymmetric, and transitive where it is strict, on all
      well-formed versions, however large their numbers. */
  lemma CompareIsAStrictOrder(a: Version, b: Version, c: Version)
    requires WellFormed(a) && WellFormed(b) && WellFormed(c)
    ensures var x, y, z := ParseSemver(a), ParseSemver(b), ParseSemver(c);
            && (CompareSemver(x, y) < 0 <==> CompareSemver(y, x) > 0)
            && (CompareSemver(x, y) < 0 && CompareSemver(y, z) < 0 ==> CompareSemver(x, z) < 0)
  {
    hide Double, Value, ComparePrerelease;
    var x, y, z := ParseSemver(a), ParseSemver(b), ParseSemver(c);
    PrereleaseAntisymmetric(x.prerelease, y.prerelease);
    if ComparePrerelease(x.prerelease, y.prerelease) < 0 && ComparePrerelease(y.prerelease, z.prerelease) < 0 {
      PrereleaseTransitive(x.prerelease, y.prerelease, z.prerelease);
    }
  }

  lemma {:induction false} ValueOfDigits(n: nat)
    ensures IsNumeric(Digits(n)) && Value(Digits(n)) == n
    ensures n > 0 ==> Digits(n)[0] != '0'
    decreases n
  {
    if n >= 10 {
      ValueOfDigits(n / 10);
      var s := Digits(n);
      assert s[..|s| - 1] == Digits(n / 10) && s[|s| - 1] == Digit(n % 10);
      assert s[0] == Digits(n / 10)[0];
    }
  }

  lemma DoublesCollapse()
    ensures Double(TWO_TO_53) == Double(TWO_TO_53 + 1)
  {
    assert DroppedBits(TWO_TO_53) == 1 && DroppedBits(TWO_TO_53 + 1) == 1;
    assert Pow2(1) == 2;
  }

  /** Such numbers exist from 2^53 on: 0.0.2^53 precedes 0.0.(2^53 + 1), but both are
      read as the same double and compare as equal. */
  lemma LargeNumbersCollapse()
    ensures var a, b := PatchRelease(Digits(TWO_TO_53)), PatchRelease(Digits(TWO_TO_53 + 1));
            && WellFormed(a) && WellFormed(b) && Precedes(a, b)
            && CompareSemver(ParseSemver(a), ParseSemver(b)) == 0
  {
    var x, y := Digits(TWO_TO_53), Digits(TWO_TO_53 + 1);
    hide Digits, Value, Double;
    ValueOfDigits(TWO_TO_53);
    ValueOfDigits(TWO_TO_53 + 1);
    DoublesCollapse();
    PatchesCollapse(x, y);
    FirstNumbersDecide(PatchRelease(x), PatchRelease(y), x, y);
    hide CompareSemver, Precedes;
  }

  // ---- The gate --------------------------------------------------------------------------------

  datatype Registry = Unchecked | Response(status: nat, name: string, version: string, integrityOk: bool)

  datatype Rejection = InvalidVersion | NotGreater | NotChecked | NotConfirmed | BadIntegrity | UnexpectedStatus

  datatype Verdict = Unchanged | Candidate(version: string, archiveName: string) | Rejected(reason: Rejection)

  function EvaluateLibraryRelease(packageName: string, archivePrefix: string, previous: string, current: string,
                                  registry: Registry): Verdict
  {
    var p, c := ParseVersion(previous), ParseVersion(current);
    if p.None? || c.None? then Rejected(InvalidVersion)
    else if previous == current then Unchanged
    else if CompareSemver(ParseSemver(c.value), ParseSemver(p.value)) <= 0 then Rejected(NotGreater)
    else if registry.Unchecked? then Rejected(NotChecked)
    else if registry.status == 200 && (registry.name != packageName || registry.version != current)
    then Rejected(NotConfirmed)
    else if registry.status == 200 && !registry.integrityOk then Rejected(BadIntegrity)
    else if registry.status != 200 && registry.status != 404 then Rejected(UnexpectedStatus)
    else Candidate(current, archivePrefix + "-" + current + ".tgz")
  }

  /** A candidate is produced exactly for a version that strictly follows the previous
      one and that the registry either does not know or confirms, name, version and
      integrity included; it carries the current version and the archive named after it.
      Nothing is to be released exactly for the same version; any other that does not
      follow is refused as not greater. */
  lemma CandidateExactly(packageName: string, archivePrefix: string, a: Version, b: Version, registry: Registry)
    requires WellFormed(a) && WellFormed(b) && !Collapses(b, a)
    ensures var verdict := EvaluateLibraryRelease(packageName, archivePrefix, Render(a), Render(b), registry);
            && (verdict.Candidate? <==>
                && Precedes(a, b)
                && registry.Response?
                && (registry.status == 404
                    || (registry.status == 200 && registry.name == packageName
                        && registry.version == Render(b) && registry.integrityOk)))
            && (verdict.Candidate? ==> verdict == Candidate(Render(b), archivePrefix + "-" + Render(b) + ".tgz"))
            && (verdict.Unchanged? <==> a == b)
            && (verdict == Rejected(NotGreater) <==> a != b && !Precedes(a, b))
  {
    ParsesExactly(Render(a), a);
    ParsesExactly(Render(b), b);
    CompareIsPrecedence(b, a);
    if Render(a) == Render(b) {
      assert a == b;
    }
  }

  // ---- The comparison as a loop ------------------------------------------------------------------

  method CompareSemverLoop(left: Parsed, right: Parsed) returns (order: int)
    requires Identifiers(left.prerelease) && Identifiers(right.prerelease)
    ensures order == CompareSemver(left, right)
  {
    if left.major != right.major { return left.major - right.major; }
    if left.minor != right.minor { return left.minor - right.minor; }
    if left.patch != right.patch { return left.patch - right.patch; }
    var a, b := left.prerelease, right.prerelease;
    if a == [] { return if b == [] then 0 else 1; }
    if b == [] { return -1; }
    var length := if |a| > |b| then |a| else |b|;
    var index := 0;
    while index < length
      invariant 0 <= index <= length && index <= |a| && index <= |b|
      invariant ComparePrerelease(a[index..], b[index..]) == ComparePrerelease(a, b)
    {
      if index >= |a| { return -1; }
      if index >= |b| { return 1; }
      if a[index] != b[index] {
        return CompareIdentifiers(a[index], b[index]);
      }
      assert a[index..][1..] == a[index + 1..] && b[index..][1..] == b[index + 1..];
      index := index + 1;
    }
    order := 0;
  }
}
