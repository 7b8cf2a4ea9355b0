/** The memory-map checker, memcheck/memcheck.c, for words of any width. */
module MemCheck {
  import opened Bits

  datatype Region = Region(base: nat, size: nat)

  /** Both fields are words of w bits. */
  predicate IsWords(r: Region, w: nat) {
    r.base < Pow2(w) && r.size < Pow2(w)
  }

  /** Line 48; below zero the word wraps. */
  predicate IsPowerOfTwo(x: nat, w: nat) {
    And(x, if x == 0 then Pow2(w) - 1 else x - 1) == 0
  }

  /** The test also passes zero. */
  lemma PowerOfTwoTest(x: nat, w: nat)
    ensures IsPowerOfTwo(x, w) <==> x == 0 || IsPower(x)
  {
    if x > 0 {
      OneBitAtMost(x, x - 1);
    }
  }

  datatype Verdict =
    | Accepted
    | TooSmall(region: nat)
    | NotPowerOfTwo(region: nat)
    | NotNapot(region: nat)
    | Covered(low: nat, high: nat)

  /** What lines 52-59 ask of a region. */
  ghost predicate WellFormed(r: Region) {
    r.size >= 64 && IsPower(r.size) && r.base % r.size == 0
  }

  predicate Contains(r: Region, a: nat) {
    r.base <= a < r.base + r.size
  }

  /** Every address of inner is one of outer. */
  predicate Inside(inner: Region, outer: Region) {
    outer.base <= inner.base && inner.base + inner.size <= outer.base + outer.size
  }

  predicate StrictlyInside(inner: Region, outer: Region) {
    Inside(inner, outer) && inner != outer
  }

  predicate Disjoint(r: Region, s: Region) {
    r.base + r.size <= s.base || s.base + s.size <= r.base
  }

  ghost predicate AllWellFormed(regions: seq<Region>) {
    forall i :: 0 <= i < |regions| ==> WellFormed(regions[i])
  }

  /** No region lies inside a later one. */
  ghost predicate NoneCovered(regions: seq<Region>) {
    forall i, j :: 0 <= i < j < |regions| ==> !Inside(regions[i], regions[j])
  }

  /** Lines 50-60: the first test that region i fails. */
  method CheckRegion(r: Region, i: nat, w: nat) returns (v: Verdict)
    requires IsWords(r, w)
    ensures v == if r.size < 64 then TooSmall(i) else if !IsPower(r.size) then NotPowerOfTwo(i)
                 else if r.base % r.size != 0 then NotNapot(i) else Accepted
  {
    if r.size < 64 {
      return TooSmall(i);
    }
    PowerOfTwoTest(r.size, w);
    if !IsPowerOfTwo(r.size, w) {
      return NotPowerOfTwo(i);
    }
    if r.base % r.size != 0 {
      return NotNapot(i);
    }
    return Accepted;
  }

  /** A well-formed region ends at the end of the address space at the latest. */
  lemma EndsInSpace(r: Region, w: nat)
    requires IsWords(r, w) && WellFormed(r)
    ensures r.base + r.size <= Pow2(w)
  {
    var k: nat :| r.size == Pow2(k);
    var q := r.base / r.size;
    assert r.base == q * r.size;
    ShlIsTimes(q, k);
    if w < k {
      PowersGrow(w, k);
    }
    FitsBelow(q, k, w);
  }

  /** Lines 62-71: the wrapped sums of line 65 and 66 are exact. */
  method CheckNestedness(low: Region, high: Region, w: nat) returns (covered: bool)
    requires IsWords(low, w) && IsWords(high, w) && WellFormed(low) && WellFormed(high)
    ensures covered <==> Inside(low, high)
  {
    EndsInSpace(low, w);
    EndsInSpace(high, w);
    ModIs(low.size - 1 + low.base, Pow2(w), 0, low.size - 1 + low.base);
    ModIs(high.size - 1 + high.base, Pow2(w), 0, high.size - 1 + high.base);
    var lowMax := (low.size - 1 + low.base) % Pow2(w);
    var highMax := (high.size - 1 + high.base) % Pow2(w);
    covered := high.base <= low.base && highMax >= lowMax;
  }

  /** The pair (i, j) comes before (low, high) in the order of lines 78-79. */
  predicate Before(i: nat, j: nat, low: nat, high: nat) {
    i < low || (i == low && j < high)
  }

  ghost predicate FirstCovered(regions: seq<Region>, low: nat, high: nat) {
    low < high < |regions| && Inside(regions[low], regions[high])
    && forall i, j :: 0 <= i < j < |regions| && Before(i, j, low, high) ==> !Inside(regions[i], regions[j])
  }

  ghost predicate FirstRefused(regions: seq<Region>, i: nat) {
    i < |regions| && AllWellFormed(regions[..i]) && !WellFormed(regions[i])
  }

  /** main, lines 73-82: accepts exactly the maps that are well formed with
      no region covered, and otherwise names the first fault. */
  method CheckMap(regions: seq<Region>, w: nat) returns (v: Verdict)
    requires forall i :: 0 <= i < |regions| ==> IsWords(regions[i], w)
    ensures match v
      case Accepted => AllWellFormed(regions) && NoneCovered(regions)
      case Covered(low, high) => AllWellFormed(regions) && FirstCovered(regions, low, high)
      case TooSmall(i) => FirstRefused(regions, i) && regions[i].size < 64
      case NotPowerOfTwo(i) => FirstRefused(regions, i) && regions[i].size >= 64 && !IsPower(regions[i].size)
      case NotNapot(i) => FirstRefused(regions, i) && regions[i].size >= 64 && IsPower(regions[i].size)
  {
    var p: nat := 0;
    while p < |regions|
      invariant p <= |regions| && AllWellFormed(regions[..p])
    {
      v := CheckRegion(regions[p], p, w);
      if v != Accepted {
        return;
      }
      p := p + 1;
    }
    assert regions[..p] == regions;
    var low: nat := 0;
    while low < |regions|
      invariant low <= |regions|
      invariant forall i, j :: 0 <= i < low && i < j < |regions| ==> !Inside(regions[i], regions[j])
    {
      var high: nat := low + 1;
      while high < |regions|
        invariant low < high <= |regions|
        invariant forall j :: low < j < high ==> !Inside(regions[low], regions[j])
      {
        var covered := CheckNestedness(regions[low], regions[high], w);
        if covered {
          return Covered(low, high);
        }
        high := high + 1;
      }
      low := low + 1;
    }
    return Accepted;
  }

  // ----- main results

  /** Of two well-formed regions the one that is not larger lies inside the
      other or apart from it. */
  lemma NestedOrDisjoint(r: Region, s: Region)
    requires WellFormed(r) && WellFormed(s) && r.size <= s.size
    ensures Disjoint(r, s) || Inside(r, s)
  {
    var k: nat, l: nat :| r.size == Pow2(k) && s.size == Pow2(l);
    if l < k {
      PowersGrow(l, k);
    }
    PowersAdd(l - k, k);
    var d := Pow2(l - k);
    var q := r.base / r.size;
    var q' := s.base / s.size;
    assert r.base == q * r.size && s.base == q' * s.size;
    Scaled(q, q', d, r.size);
  }

  /** Multiples of m: [q, q + 1) against [e, e + d). */
  lemma Apart(q: nat, e: nat, d: nat, m: nat, base: nat, size: nat)
    requires d >= 1 && m >= 1 && base == e * m && size == d * m
    ensures var r, s := Region(q * m, m), Region(base, size); Disjoint(r, s) || Inside(r, s)
  {
    assert (e + d) * m == base + size;
    assert (q + 1) * m == q * m + m;
    if q < e {
      MulMono(q + 1, e, m);
    } else if q >= e + d {
      MulMono(e + d, q, m);
    } else {
      MulMono(e, q, m);
      MulMono(q + 1, e + d, m);
    }
  }

  lemma Scaled(q: nat, q': nat, d: nat, m: nat)
    requires d >= 1 && m >= 1
    ensures var r, s := Region(q * m, m), Region(q' * (d * m), d * m);
            Disjoint(r, s) || Inside(r, s)
  {
    assert q' * (d * m) == q' * d * m;
    Apart(q, q' * d, d, m, q' * (d * m), d * m);
  }

  /** In an accepted map a later region that meets an earlier one lies strictly inside it. */
  lemma LaterIsInside(regions: seq<Region>, i: nat, j: nat)
    requires AllWellFormed(regions) && NoneCovered(regions) && i < j < |regions|
    ensures Disjoint(regions[i], regions[j]) || StrictlyInside(regions[j], regions[i])
  {
    if regions[j].size <= regions[i].size {
      NestedOrDisjoint(regions[j], regions[i]);
    } else {
      NestedOrDisjoint(regions[i], regions[j]);
    }
  }

  /** Priority equals specificity: the last match for an address is the unique
      smallest region that contains it, inside every other match. */
  lemma LastMatchIsSmallest(regions: seq<Region>, a: nat, top: nat, i: nat)
    requires AllWellFormed(regions) && NoneCovered(regions)
    requires top < |regions| && Contains(regions[top], a)
    requires forall j :: top < j < |regions| ==> !Contains(regions[j], a)
    requires i < |regions| && i != top && Contains(regions[i], a)
    ensures i < top && StrictlyInside(regions[top], regions[i]) && regions[top].size < regions[i].size
  {
    LaterIsInside(regions, i, top);
  }

  /** The checker accepts no less: it accepts a map of well-formed regions
      exactly when every address that two regions share has the later strictly
      inside the earlier. */
  lemma AcceptedExactly(regions: seq<Region>)
    requires AllWellFormed(regions)
    ensures NoneCovered(regions) <==>
      forall a: nat, i, j :: 0 <= i < j < |regions| && Contains(regions[i], a) && Contains(regions[j], a) ==>
        StrictlyInside(regions[j], regions[i])
  {
    if NoneCovered(regions) {
      forall a: nat, i, j | 0 <= i < j < |regions| && Contains(regions[i], a) && Contains(regions[j], a)
        ensures StrictlyInside(regions[j], regions[i])
      {
        LaterIsInside(regions, i, j);
      }
    } else {
      var i, j :| 0 <= i < j < |regions| && Inside(regions[i], regions[j]);
      assert Contains(regions[i], regions[i].base) && Contains(regions[j], regions[i].base);
    }
  }
}
