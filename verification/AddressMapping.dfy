/** Modulo mapping of 32-bit addresses to tags and cache sets, and the set interval the
    program computes for an interval of addresses. */
module AddressMapping {

  type Address = a: nat | a < ADDRESS_SPACE

  const ADDRESS_SPACE: nat := 0x1_0000_0000

  /** Line size in bytes, associativity, number of sets, and level of a cache. */
  datatype Traits = Traits(lineSize: nat, ways: nat, nSets: nat, level: nat)

  /** The cache divides the address space evenly and its lines hold at least a word. */
  predicate TraitsValid(t: Traits) {
    && 4 <= t.lineSize && 1 <= t.ways < 256 && 1 <= t.nSets
    && t.lineSize * t.nSets <= ADDRESS_SPACE
    && ADDRESS_SPACE % t.lineSize == 0
    && (ADDRESS_SPACE / t.lineSize) % t.nSets == 0
  }

  function Line(t: Traits, a: nat): nat
    requires TraitsValid(t)
  {
    a / t.lineSize
  }

  function TagOf(t: Traits, a: nat): nat
    requires TraitsValid(t)
  {
    Line(t, a) / t.nSets
  }

  function IndexOf(t: Traits, a: nat): (i: nat)
    requires TraitsValid(t)
    ensures i < t.nSets
  {
    Line(t, a) % t.nSets
  }

  /** Address of the line. For line sizes that are powers of two this is the mask of the
      program. */
  function Align(t: Traits, a: nat): nat
    requires TraitsValid(t)
  {
    Line(t, a) * t.lineSize
  }

  lemma Distribute(a: nat, b: nat, n: nat)
    ensures (a + b) * n == a * n + b * n
  {
  }

  lemma MulLeq(a: nat, b: nat, n: nat)
    requires a <= b
    ensures a * n <= b * n
  {
    Distribute(a, b - a, n);
  }

  /** Division with remainder is unique. */
  lemma DivIs(x: nat, q: nat, n: nat)
    requires q * n <= x < q * n + n
    ensures x / n == q && x % n == x - q * n
  {
    var p := x / n;
    assert x == p * n + x % n;
    if p < q {
      Distribute(p, 1, n);
      MulLeq(p + 1, q, n);
    } else if p > q {
      Distribute(q, 1, n);
      MulLeq(q + 1, p, n);
    }
  }

  lemma DivMonotone(a: nat, b: nat, n: nat)
    requires a <= b && 0 < n
    ensures a / n <= b / n
  {
    var p, q := a / n, b / n;
    assert a == p * n + a % n && b == q * n + b % n;
    if q < p {
      Distribute(q, 1, n);
      MulLeq(q + 1, p, n);
    }
  }

  lemma AlignedLine(t: Traits, a: nat)
    requires TraitsValid(t)
    ensures Line(t, Align(t, a)) == Line(t, a)
  {
    DivIs(Align(t, a), Line(t, a), t.lineSize);
  }

  lemma AlignedEqual(t: Traits, a: nat, b: nat)
    requires TraitsValid(t)
    ensures Align(t, a) == Align(t, b) <==> Line(t, a) == Line(t, b)
  {
    AlignedLine(t, a);
    AlignedLine(t, b);
  }

  /** Tag, set and offset are the digits of an address. */
  lemma AddressIs(t: Traits, a: nat) returns (offset: nat)
    requires TraitsValid(t)
    ensures offset < t.lineSize && IndexOf(t, a) < t.nSets
    ensures a == (TagOf(t, a) * t.nSets + IndexOf(t, a)) * t.lineSize + offset
    ensures Align(t, a) == a - offset
  {
    offset := a % t.lineSize;
    assert Line(t, a) == TagOf(t, a) * t.nSets + IndexOf(t, a);
  }

  lemma LinesMonotone(t: Traits, lo: nat, a: nat, hi: nat)
    requires TraitsValid(t) && lo <= a <= hi
    ensures Line(t, lo) <= Line(t, a) <= Line(t, hi)
    ensures TagOf(t, lo) <= TagOf(t, a) <= TagOf(t, hi)
  {
    DivMonotone(lo, a, t.lineSize);
    DivMonotone(a, hi, t.lineSize);
    DivMonotone(Line(t, lo), Line(t, a), t.nSets);
    DivMonotone(Line(t, a), Line(t, hi), t.nSets);
  }

  // ---- the interval of sets -------------------------------------------------

  /** The program's test for intervals that reach every set, on 32-bit integers. */
  predicate SpansAllSets(t: Traits, lo: Address, hi: Address)
    requires TraitsValid(t) && lo <= hi
  {
    (hi + 4 - lo) % ADDRESS_SPACE >= (t.nSets * t.lineSize) % ADDRESS_SPACE
  }

  function SetInterval(t: Traits, lo: Address, hi: Address): (r: (nat, nat))
    requires TraitsValid(t) && lo <= hi
    ensures r.0 < t.nSets && r.1 < t.nSets
  {
    if SpansAllSets(t, lo, hi) then (0, t.nSets - 1) else (IndexOf(t, lo), IndexOf(t, hi))
  }

  /** The sets an update touches, the interval wrapping around at the last set. */
  predicate Touches(t: Traits, lo: Address, hi: Address, i: nat)
    requires TraitsValid(t) && lo <= hi
  {
    var (lower, upper) := SetInterval(t, lo, hi);
    if lower <= upper then lower <= i <= upper else i < t.nSets && (lower <= i || i <= upper)
  }

  /** What a caller must know of an interval for its update to reach every set it should. */
  predicate Covered(t: Traits, lo: Address, hi: Address)
    requires TraitsValid(t) && lo <= hi
  {
    t.nSets == 1 || hi + 4 - lo >= t.nSets * t.lineSize || hi / t.lineSize - lo / t.lineSize < t.nSets
  }

  lemma Further(q: nat, r: nat, d: nat, n: nat, x: nat)
    requires r < n && d < n && x == q * n + r + d
    ensures x % n == if r + d < n then r + d else r + d - n
  {
    if r + d < n {
      DivIs(x, q, n);
    } else {
      Distribute(q, 1, n);
      DivIs(x, q + 1, n);
    }
  }

  /** The remainder of a number a little further on. */
  lemma RemainderNear(b1: nat, b: nat, n: nat)
    requires 0 < n && b1 <= b < b1 + n
    ensures b % n == if b1 % n + (b - b1) < n then b1 % n + (b - b1) else b1 % n + (b - b1) - n
  {
    var q := b1 / n;
    assert b1 == q * n + b1 % n;
    Further(q, b1 % n, b - b1, n, b);
  }

  /** Consecutive lines, fewer than there are sets, map into a possibly wrapping interval. */
  lemma IndexInInterval(b1: nat, b: nat, b2: nat, n: nat)
    requires 0 < n && b1 <= b <= b2 < b1 + n
    ensures b1 % n <= b2 % n ==> b1 % n <= b % n <= b2 % n
    ensures b1 % n > b2 % n ==> b1 % n <= b % n || b % n <= b2 % n
    ensures b1 % n == b2 % n ==> b1 == b2
  {
    RemainderNear(b1, b, n);
    RemainderNear(b1, b2, n);
  }

  lemma LastLine(k: nat, n: nat, hi: nat)
    requires 4 <= n && 0 < k && k * n - 4 <= hi < k * n
    ensures hi / n == k - 1
  {
    Distribute(k - 1, 1, n);
    DivIs(hi, k - 1, n);
  }

  lemma LastSet(k: nat, n: nat)
    requires 0 < n && 0 < k && k % n == 0
    ensures (k - 1) % n == n - 1
  {
    var j := k / n;
    assert k == j * n;
    assert j > 0;
    Distribute(j - 1, 1, n);
    DivIs(k - 1, j - 1, n);
  }

  lemma FirstLineIs(t: Traits, lo: Address)
    requires TraitsValid(t) && lo < 4
    ensures Line(t, lo) == 0
  {
    DivIs(lo, 0, t.lineSize);
  }

  lemma LastLineIs(t: Traits, hi: Address)
    requires TraitsValid(t) && hi + 4 >= ADDRESS_SPACE
    ensures Line(t, hi) == ADDRESS_SPACE / t.lineSize - 1
  {
    var k := ADDRESS_SPACE / t.lineSize;
    assert k * t.lineSize == ADDRESS_SPACE;
    LastLine(k, t.lineSize, hi);
  }

  /** In 32 bits the test can only be missed by wrapping around when the interval spans
      nearly the whole address space, and then its ends map to the first and last set. */
  lemma WrappedTest(t: Traits, lo: Address, hi: Address)
    requires TraitsValid(t) && lo <= hi && hi + 4 - lo >= ADDRESS_SPACE
    ensures IndexOf(t, lo) == 0 && IndexOf(t, hi) == t.nSets - 1
  {
    FirstLineIs(t, lo);
    LastLineIs(t, hi);
    LastSet(ADDRESS_SPACE / t.lineSize, t.nSets);
  }

  /** Covered intervals touch the set of each of their addresses. */
  lemma CoveredTouches(t: Traits, lo: Address, a: Address, hi: Address)
    requires TraitsValid(t) && lo <= a <= hi && Covered(t, lo, hi)
    ensures Touches(t, lo, hi, IndexOf(t, a))
  {
    if SpansAllSets(t, lo, hi) || t.nSets == 1 {
    } else if hi + 4 - lo >= ADDRESS_SPACE {
      WrappedTest(t, lo, hi);
    } else {
      FewLines(t, lo, hi);
      LinesMonotone(t, lo, a, hi);
      IndexInInterval(Line(t, lo), Line(t, a), Line(t, hi), t.nSets);
    }
  }

  lemma FewLines(t: Traits, lo: Address, hi: Address)
    requires TraitsValid(t) && lo <= hi && Covered(t, lo, hi) && t.nSets != 1
    requires !SpansAllSets(t, lo, hi) && hi + 4 - lo < ADDRESS_SPACE
    ensures Line(t, hi) < Line(t, lo) + t.nSets
  {
    var x := hi + 4 - lo;
    assert x % ADDRESS_SPACE == x;
    var y := t.nSets * t.lineSize;
    if y < ADDRESS_SPACE {
      assert y % ADDRESS_SPACE == y;
    }
  }

  lemma NextIndexDiffers(b: nat, n: nat)
    requires 2 <= n
    ensures (b + 1) % n != b % n
    ensures (b + n) % n == b % n
  {
    var q := b / n;
    assert b == q * n + b % n;
    Distribute(q, 1, n);
    if b + 1 < q * n + n { DivIs(b + 1, q, n); } else { DivIs(b + 1, q + 1, n); }
    DivIs(b + n, q + 1, n);
  }

  lemma NextStart(l: nat, x: nat, h: nat, y: nat, n: nat)
    requires l < h && x < n
    ensures l * n + x <= (l + 1) * n <= h * n + y
  {
    Distribute(l, 1, n);
    MulLeq(l + 1, h, n);
  }

  lemma SecondLine(t: Traits, lo: Address, hi: Address) returns (a: Address)
    requires TraitsValid(t) && lo <= hi && Line(t, lo) < Line(t, hi)
    ensures lo <= a <= hi && Line(t, a) == Line(t, lo) + 1
  {
    var l, h, n := Line(t, lo), Line(t, hi), t.lineSize;
    assert lo == l * n + lo % n && hi == h * n + hi % n;
    NextStart(l, lo % n, h, hi % n, n);
    var start := (l + 1) * n;
    a := start;
    DivIs(start, l + 1, n);
  }

  /** Conversely, an interval that is not covered has one line more than there are sets,
      its ends map to the same set, and every other set is left out, although the
      second line of the interval needs one of them. */
  lemma UncoveredMisses(t: Traits, lo: Address, hi: Address) returns (a: Address)
    requires TraitsValid(t) && lo <= hi && !Covered(t, lo, hi)
    ensures lo <= a <= hi && Line(t, a) == Line(t, lo) + 1
    ensures forall i :: Touches(t, lo, hi, i) ==> i == IndexOf(t, lo)
    ensures IndexOf(t, a) != IndexOf(t, lo)
    ensures Align(t, lo) != Align(t, hi)
  {
    ManyLines(t, lo, hi);
    AlignedEqual(t, lo, hi);
    NextIndexDiffers(Line(t, lo), t.nSets);
    a := SecondLine(t, lo, hi);
  }

  lemma ManyLines(t: Traits, lo: Address, hi: Address)
    requires TraitsValid(t) && lo <= hi && !Covered(t, lo, hi)
    ensures Line(t, hi) == Line(t, lo) + t.nSets
    ensures !SpansAllSets(t, lo, hi)
  {
    var l, h, y := Line(t, lo), Line(t, hi), t.nSets * t.lineSize;
    assert lo == l * t.lineSize + lo % t.lineSize;
    assert hi == h * t.lineSize + hi % t.lineSize;
    if h > l + t.nSets {
      Distribute(l, t.nSets, t.lineSize);
      Distribute(l + t.nSets, 1, t.lineSize);
      MulLeq(l + t.nSets + 1, h, t.lineSize);
    }
    var x := hi + 4 - lo;
    assert x % ADDRESS_SPACE == x;
    if y == ADDRESS_SPACE {
      MulLeq(t.nSets, h, t.lineSize);
    }
    assert y % ADDRESS_SPACE == y;
  }

  lemma FarLines(l: nat, h: nat, k: nat, n: nat, x: nat, y: nat)
    requires 4 <= n && y < n && h * n + y + 4 >= l * n + x + k * n
    ensures h + 1 >= l + k
  {
    if h + 2 <= l + k {
      MulLeq(h + 2, l + k, n);
      Distribute(h, 2, n);
      Distribute(l, k, n);
    }
  }

  lemma InLine(t: Traits, a: nat) returns (x: nat)
    requires TraitsValid(t)
    ensures a == Line(t, a) * t.lineSize + x && x < t.lineSize
  {
    x := a % t.lineSize;
  }

  /** Where the set interval is all sets because of the length, so are the sets of the lines. */
  lemma LongInterval(t: Traits, lo: Address, hi: Address)
    requires TraitsValid(t) && lo <= hi && SpansAllSets(t, lo, hi) && t.nSets * t.lineSize < ADDRESS_SPACE
    ensures Line(t, hi) + 1 >= Line(t, lo) + t.nSets
  {
    LongEnough(hi + 4 - lo, t.nSets * t.lineSize);
    var x := InLine(t, lo);
    var y := InLine(t, hi);
    FarLines(Line(t, lo), Line(t, hi), t.nSets, t.lineSize, x, y);
  }

  lemma LongEnough(x: nat, y: nat)
    requires y < ADDRESS_SPACE && x % ADDRESS_SPACE >= y % ADDRESS_SPACE
    ensures x >= y
  {
  }

  /** Of as many consecutive lines as there are sets, one lies in every set. */
  lemma SomeLine(b1: nat, n: nat, i: nat) returns (b: nat)
    requires 0 < n && i < n
    ensures b1 <= b < b1 + n && b % n == i
  {
    var r := b1 % n;
    b := if r <= i then b1 + (i - r) else b1 + (i - r + n);
    RemainderNear(b1, b, n);
  }

  lemma StartBetween(l: nat, b: nat, h: nat, n: nat, x: nat, y: nat)
    requires l < b <= h && x < n
    ensures l * n + x <= b * n <= h * n + y
  {
    MulLeq(b, h, n);
    MulLeq(l + 1, b, n);
    Distribute(l, 1, n);
  }

  /** Of the lines of an interval, an address of each lies in it. */
  lemma LineInside(t: Traits, lo: Address, hi: Address, b: nat) returns (a: Address)
    requires TraitsValid(t) && lo <= hi && Line(t, lo) <= b <= Line(t, hi)
    ensures lo <= a <= hi && Line(t, a) == b
  {
    if b == Line(t, lo) {
      a := lo;
    } else {
      var x := InLine(t, lo);
      var y := InLine(t, hi);
      StartBetween(Line(t, lo), b, Line(t, hi), t.lineSize, x, y);
      var start := b * t.lineSize;
      a := start;
      DivIs(start, b, t.lineSize);
    }
  }

  ghost predicate Reaches(t: Traits, lo: Address, hi: Address, i: nat)
    requires TraitsValid(t)
  {
    exists a: Address :: lo <= a <= hi && IndexOf(t, a) == i
  }

  lemma LineReaches(t: Traits, lo: Address, hi: Address, b: nat)
    requires TraitsValid(t) && lo <= hi && Line(t, lo) <= b <= Line(t, hi)
    ensures Reaches(t, lo, hi, b % t.nSets)
  {
    var a := LineInside(t, lo, hi, b);
    assert IndexOf(t, a) == b % t.nSets;
  }

  /** A set between the ends of a possibly wrapping interval is that of a line between. */
  lemma LineBetween(b1: nat, b2: nat, n: nat, i: nat) returns (b: nat)
    requires 0 < n && b1 <= b2 < b1 + n && i < n
    requires if b1 % n <= b2 % n then b1 % n <= i <= b2 % n else b1 % n <= i || i <= b2 % n
    ensures b1 <= b <= b2 && b % n == i
  {
    RemainderNear(b1, b2, n);
    b := SomeLine(b1, n, i);
    RemainderNear(b1, b, n);
  }

  lemma NearlyAll(t: Traits, lo: Address, hi: Address)
    requires TraitsValid(t) && lo <= hi && hi + 4 - lo >= ADDRESS_SPACE
    ensures Line(t, hi) + 1 >= Line(t, lo) + t.nSets
  {
    FirstLineIs(t, lo);
    LastLineIs(t, hi);
    var k := ADDRESS_SPACE / t.lineSize;
    assert k * t.lineSize == ADDRESS_SPACE;
    if k < t.nSets {
      MulLeq(k + 1, t.nSets, t.lineSize);
      Distribute(k, 1, t.lineSize);
    }
  }

  /** An interval of as many lines as there are sets reaches them all. */
  lemma ReachesAll(t: Traits, lo: Address, hi: Address, i: nat)
    requires TraitsValid(t) && lo <= hi && Line(t, hi) + 1 >= Line(t, lo) + t.nSets && i < t.nSets
    ensures Reaches(t, lo, hi, i)
  {
    var b := SomeLine(Line(t, lo), t.nSets, i);
    LineReaches(t, lo, hi, b);
  }

  /** One of fewer lines reaches those between its ends. */
  lemma ReachesBetween(t: Traits, lo: Address, hi: Address, i: nat)
    requires TraitsValid(t) && lo <= hi && Line(t, hi) < Line(t, lo) + t.nSets && i < t.nSets
    requires if IndexOf(t, lo) <= IndexOf(t, hi) then IndexOf(t, lo) <= i <= IndexOf(t, hi)
             else IndexOf(t, lo) <= i || i <= IndexOf(t, hi)
    ensures Reaches(t, lo, hi, i)
  {
    LinesMonotone(t, lo, hi, hi);
    var b := LineBetween(Line(t, lo), Line(t, hi), t.nSets, i);
    LineReaches(t, lo, hi, b);
  }

  lemma TouchedIsReached(t: Traits, lo: Address, hi: Address, i: nat)
    requires TraitsValid(t) && lo <= hi && t.nSets * t.lineSize < ADDRESS_SPACE
    requires Covered(t, lo, hi) && Touches(t, lo, hi, i)
    ensures Reaches(t, lo, hi, i)
  {
    if SpansAllSets(t, lo, hi) {
      LongInterval(t, lo, hi);
      ReachesAll(t, lo, hi, i);
    } else if hi + 4 - lo >= ADDRESS_SPACE {
      NearlyAll(t, lo, hi);
      ReachesAll(t, lo, hi, i);
    } else if t.nSets == 1 {
      LinesMonotone(t, lo, hi, hi);
      ReachesAll(t, lo, hi, i);
    } else {
      FewLines(t, lo, hi);
      ReachesBetween(t, lo, hi, i);
    }
  }

  lemma FullSize(t: Traits, lo: Address, hi: Address, i: nat)
    requires TraitsValid(t) && lo <= hi && t.nSets * t.lineSize == ADDRESS_SPACE && i < t.nSets
    ensures Touches(t, lo, hi, i)
  {
    assert (t.nSets * t.lineSize) % ADDRESS_SPACE == 0;
  }

  lemma Commute(a: nat, b: nat)
    ensures a * b == b * a
  {
  }

  /** Covered intervals touch just the sets of their addresses; only where the cache is as large
      as the address space, the length test always says that all sets are meant. */
  lemma TouchesExactly(t: Traits, lo: Address, hi: Address, i: nat)
    requires TraitsValid(t) && lo <= hi && Covered(t, lo, hi) && i < t.nSets
    ensures Touches(t, lo, hi, i) <==> Reaches(t, lo, hi, i) || t.nSets * t.lineSize == ADDRESS_SPACE
  {
    if Reaches(t, lo, hi, i) {
      var a: Address :| lo <= a <= hi && IndexOf(t, a) == i;
      CoveredTouches(t, lo, a, hi);
    }
    Commute(t.nSets, t.lineSize);
    if t.nSets * t.lineSize == ADDRESS_SPACE {
      FullSize(t, lo, hi, i);
    } else if Touches(t, lo, hi, i) {
      TouchedIsReached(t, lo, hi, i);
    }
  }

  /** What the program asserts of the sets of an interval of several lines: there are two ends
      to it. */
  predicate EndsDiffer(t: Traits, lo: Address, hi: Address)
    requires TraitsValid(t) && lo <= hi
  {
    t.nSets == 1 || SetInterval(t, lo, hi).0 != SetInterval(t, lo, hi).1
  }

  /** That assertion holds exactly of covered intervals. */
  lemma AssertedIffCovered(t: Traits, lo: Address, hi: Address)
    requires TraitsValid(t) && lo <= hi && Align(t, lo) != Align(t, hi)
    ensures EndsDiffer(t, lo, hi) <==> Covered(t, lo, hi)
  {
    AlignedEqual(t, lo, hi);
    if !Covered(t, lo, hi) {
      ManyLines(t, lo, hi);
      NextIndexDiffers(Line(t, lo), t.nSets);
    } else if t.nSets != 1 && !SpansAllSets(t, lo, hi) {
      if hi + 4 - lo >= ADDRESS_SPACE {
        WrappedTest(t, lo, hi);
      } else {
        FewLines(t, lo, hi);
        LinesMonotone(t, lo, hi, hi);
        IndexInInterval(Line(t, lo), Line(t, hi), Line(t, hi), t.nSets);
      }
    }
  }
}
