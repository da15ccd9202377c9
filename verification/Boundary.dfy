/**
  The boundary search of `multipart.rs`: append a counter to the generated boundary until it occurs
  in no part body. The counter is a `u32`; running out of it is the outcome None here (a panic in a
  build with overflow checks).
 */
module Boundary {
  import opened Wrappers
  import opened Text

  const U32_MAX: nat := 0xFFFF_FFFF

  /** The boundary after `k` collisions. */
  function Candidate(base: string, k: nat): string {
    if k == 0 then base else base + PaddedHex(k, 4)
  }

  /** Some part body contains the bare boundary. */
  ghost predicate Collides(bodies: seq<string>, boundary: string) {
    exists i :: 0 <= i < |bodies| && Occurs(bodies[i], boundary)
  }

  /** The first `k` from `from` on whose candidate is free. */
  ghost function FirstFree(base: string, bodies: seq<string>, from: nat): (r: Option<nat>)
    requires from <= U32_MAX
    ensures r.Some? ==> from <= r.value <= U32_MAX && !Collides(bodies, Candidate(base, r.value))
    ensures r.Some? ==> forall k :: from <= k < r.value ==> Collides(bodies, Candidate(base, k))
    ensures r.None? ==> forall k :: from <= k <= U32_MAX ==> Collides(bodies, Candidate(base, k))
    decreases U32_MAX - from
  {
    if !Collides(bodies, Candidate(base, from)) then Some(from)
    else if from == U32_MAX then None
    else FirstFree(base, bodies, from + 1)
  }

  /** The boundary `build()` uses. */
  ghost function Picked(base: string, bodies: seq<string>): Option<string> {
    var k :- FirstFree(base, bodies, 0);
    Some(Candidate(base, k))
  }

  /** A candidate is the generated boundary, and after `k` collisions `k` behind it, in at least four hexadecimal
      digits and no more than it takes. */
  lemma CandidateReads(base: string, k: nat)
    ensures Candidate(base, 0) == base
    ensures 1 <= k ==>
              var c := Candidate(base, k);
              && base <= c && 4 <= |c| - |base|
              && AllHex(c[|base|..]) && HexValue(c[|base|..]) == k
              && (4 < |c| - |base| ==> c[|base|] != '0')
  {
    if 1 <= k {
      assert Candidate(base, k)[|base|..] == PaddedHex(k, 4);
      PaddedHexValue(k, 4);
      HexIsShortest(k);
    }
  }

  /** The boundary that is used is the first candidate that occurs in no body; there is none exactly when all those
      with a 32-bit counter collide. */
  lemma PickedExactly(base: string, bodies: seq<string>)
    ensures match Picked(base, bodies)
            case Some(boundary) =>
              exists k: nat :: k <= 0xFFFF_FFFF && boundary == Candidate(base, k)
                && (forall i :: 0 <= i < |bodies| ==> !Occurs(bodies[i], boundary))
                && forall j: nat :: j < k ==> Collides(bodies, Candidate(base, j))
            case None => forall k: nat :: k <= 0xFFFF_FFFF ==> Collides(bodies, Candidate(base, k))
  {
    hide Candidate;
    var first := FirstFree(base, bodies, 0);
    if first.Some? {
      var boundary := Candidate(base, first.value);
      assert Picked(base, bodies) == Some(boundary) && !Collides(bodies, boundary);
    }
  }

  /** `windows(len).any(..)`. The original panics on an empty boundary, which is never generated. */
  method Contains(body: string, boundary: string) returns (found: bool)
    requires boundary != ""
    ensures found <==> Occurs(body, boundary)
  {
    var i := 0;
    while i + |boundary| <= |body|
      invariant forall j :: 0 <= j < i ==> !OccursAt(body, boundary, j)
    {
      if body[i..i + |boundary|] == boundary {
        assert OccursAt(body, boundary, i);
        return true;
      }
      i := i + 1;
    }
    return false;
  }

  method HasCollision(bodies: seq<string>, boundary: string) returns (found: bool)
    requires boundary != ""
    ensures found <==> Collides(bodies, boundary)
  {
    for i := 0 to |bodies|
      invariant forall j :: 0 <= j < i ==> !Occurs(bodies[j], boundary)
    {
      var here := Contains(bodies[i], boundary);
      if here {
        return true;
      }
    }
    return false;
  }

  method FindUniqueBoundary(base: string, bodies: seq<string>) returns (r: Option<string>)
    requires base != ""
    ensures r == Picked(base, bodies)
  {
    var boundary := base;
    var suffix := 0;
    while true
      invariant suffix <= U32_MAX && boundary == Candidate(base, suffix)
      invariant FirstFree(base, bodies, 0) == FirstFree(base, bodies, suffix)
      decreases U32_MAX - suffix
    {
      var hasCollision := HasCollision(bodies, boundary);
      if !hasCollision {
        return Some(boundary);
      }
      if suffix == U32_MAX {
        return None;
      }
      suffix := suffix + 1;
      boundary := base + PaddedHex(suffix, 4);
    }
  }

  // ---- Why the search ends ----

  function Flatten(bodies: seq<string>): string {
    if bodies == [] then "" else bodies[0] + Flatten(bodies[1..])
  }

  /** A collision is an occurrence at some position of the bodies laid end to end. */
  lemma {:induction false} CollisionPosition(bodies: seq<string>, b: string)
    requires Collides(bodies, b)
    ensures Occurs(Flatten(bodies), b)
  {
    var i :| 0 <= i < |bodies| && Occurs(bodies[i], b);
    if i == 0 {
      var j :| OccursAt(bodies[0], b, j);
      assert Flatten(bodies)[j..j + |b|] == bodies[0][j..j + |b|];
      assert OccursAt(Flatten(bodies), b, j);
    } else {
      assert bodies[1..][i - 1] == bodies[i];
      CollisionPosition(bodies[1..], b);
      var j :| OccursAt(Flatten(bodies[1..]), b, j);
      var n := |bodies[0]|;
      assert Flatten(bodies)[n + j..n + j + |b|] == Flatten(bodies[1..])[j..j + |b|];
      assert OccursAt(Flatten(bodies), b, n + j);
    }
  }

  function Pow16(d: nat): nat {
    if d == 0 then 1 else 16 * Pow16(d - 1)
  }

  lemma {:induction false} HexLength(n: nat, d: nat)
    requires 1 <= d && n < Pow16(d) && (Pow16(d - 1) <= n || d == 1)
    ensures |Hex(n)| == d
  {
    if d > 1 {
      Pow16Positive(d - 2);
      HexLength(n / 16, d - 1);
    }
  }

  lemma {:induction false} Pow16Positive(d: nat)
    ensures 1 <= Pow16(d)
  {
    if d > 0 {
      Pow16Positive(d - 1);
    }
  }

  /** The suffixes from `lo` up to `hi` are all printed with `w` digits. */
  predicate OneWidth(lo: nat, hi: nat, w: nat) {
    if w == 4 then hi <= 65536
    else 5 <= w && Pow16(w - 1) <= lo && hi <= Pow16(w)
  }

  lemma SuffixWidth(k: nat, w: nat)
    requires OneWidth(k, k + 1, w)
    ensures |PaddedHex(k, 4)| == w
  {
    assert Pow16(1) == 16 && Pow16(2) == 256 && Pow16(3) == 4096 && Pow16(4) == 65536;
    if w == 4 {
      HexLength(k, if k < 16 then 1 else if k < 256 then 2 else if k < 4096 then 3 else 4);
    } else {
      HexLength(k, w);
    }
  }

  lemma OnePositionOneSuffix(all: string, base: string, j: nat, k: nat, p: nat, w: nat)
    requires 1 <= j && 1 <= k && OneWidth(j, j + 1, w) && OneWidth(k, k + 1, w)
    requires OccursAt(all, Candidate(base, j), p) && OccursAt(all, Candidate(base, k), p)
    ensures j == k
  {
    SuffixWidth(j, w);
    SuffixWidth(k, w);
    SuffixesDiffer(base, j, k);
  }

  ghost predicate SomeCandidateAt(all: string, base: string, lo: nat, hi: nat, p: nat) {
    exists k :: lo <= k < hi && OccursAt(all, Candidate(base, k), p)
  }

  /** Candidates of one width that collide sit at different positions. */
  lemma {:induction false} DistinctPositions(base: string, bodies: seq<string>, lo: nat, hi: nat, w: nat)
    returns (positions: set<nat>)
    requires 1 <= lo <= hi && OneWidth(lo, hi, w)
    requires forall k :: lo <= k < hi ==> Collides(bodies, Candidate(base, k))
    ensures |positions| == hi - lo
    ensures forall p :: p in positions ==> SomeCandidateAt(Flatten(bodies), base, lo, hi, p)
    decreases hi
  {
    hide Candidate, Flatten, Collides;
    if lo == hi {
      return {};
    }
    var last := hi - 1;
    var before := DistinctPositions(base, bodies, lo, last, w);
    assert Collides(bodies, Candidate(base, last));
    CollisionPosition(bodies, Candidate(base, last));
    var all := Flatten(bodies);
    var p :| OccursAt(all, Candidate(base, last), p);
    if p in before {
      var k :| lo <= k < last && OccursAt(all, Candidate(base, k), p);
      OnePositionOneSuffix(all, base, k, last, p, w);
    }
    positions := before + {p};
    forall q | q in positions
      ensures SomeCandidateAt(all, base, lo, hi, q)
    {
      if q != p {
        assert SomeCandidateAt(all, base, lo, last, q);
      }
    }
  }

  lemma SuffixesDiffer(base: string, j: nat, k: nat)
    requires 1 <= j && 1 <= k && Candidate(base, j) == Candidate(base, k)
    ensures j == k
  {
    assert Candidate(base, j)[|base|..] == PaddedHex(j, 4);
    assert Candidate(base, k)[|base|..] == PaddedHex(k, 4);
    PaddedHexValue(j, 4);
    PaddedHexValue(k, 4);
  }

  lemma {:induction false} BoundedSet(s: set<nat>, n: nat)
    requires forall x :: x in s ==> x < n
    ensures |s| <= n
  {
    if n == 0 {
      assert s == {};
    } else {
      BoundedSet(s - {n - 1}, n - 1);
    }
  }

  /** The pigeonhole: no more candidates of one width collide than there are bytes in the bodies. */
  lemma CollisionsOfOneWidth(base: string, bodies: seq<string>, lo: nat, hi: nat, w: nat)
    requires 1 <= lo <= hi && OneWidth(lo, hi, w)
    requires forall k :: lo <= k < hi ==> Collides(bodies, Candidate(base, k))
    ensures hi - lo <= |Flatten(bodies)|
  {
    var positions := DistinctPositions(base, bodies, lo, hi, w);
    forall p | p in positions
      ensures p < |Flatten(bodies)|
    {
      assert SomeCandidateAt(Flatten(bodies), base, lo, hi, p);
      var k :| lo <= k < hi && OccursAt(Flatten(bodies), Candidate(base, k), p);
      SuffixWidth(k, w);
    }
    BoundedSet(positions, |Flatten(bodies)|);
  }

  lemma Powers()
    ensures Pow16(4) == 0x1_0000 && Pow16(5) == 0x10_0000 && Pow16(6) == 0x100_0000
    ensures Pow16(7) == 0x1000_0000 && Pow16(8) == 0x1_0000_0000
  {
    assert Pow16(1) == 16 && Pow16(2) == 256 && Pow16(3) == 4096;
  }

  /** The counter cannot run out while the bodies together are shorter than 0xF0000000 bytes, so the
      search ends with a boundary, and that boundary occurs in no body. */
  lemma SearchSucceeds(base: string, bodies: seq<string>)
    requires |Flatten(bodies)| < 0xF000_0000
    ensures Picked(base, bodies).Some? && !Collides(bodies, Picked(base, bodies).value)
  {
    Powers();
    if FirstFree(base, bodies, 0).None? {
      CollisionsOfOneWidth(base, bodies, 0x1000_0000, 0x1_0000_0000, 8);
    }
  }

  /** How long the search takes: the five widths a `u32` suffix can have each allow at most one
      collision per byte. With fewer than 65535 bytes one width is enough. */
  lemma RoundsAreBounded(base: string, bodies: seq<string>, k: nat)
    requires FirstFree(base, bodies, 0) == Some(k)
    ensures k <= 5 * |Flatten(bodies)| + 1
    ensures |Flatten(bodies)| < 0xFFFF ==> k <= |Flatten(bodies)| + 1
  {
    Powers();
    RoundsOfOneWidth(base, bodies, k, 1, 0x1_0000, 4);
    RoundsOfOneWidth(base, bodies, k, 0x1_0000, 0x10_0000, 5);
    RoundsOfOneWidth(base, bodies, k, 0x10_0000, 0x100_0000, 6);
    RoundsOfOneWidth(base, bodies, k, 0x100_0000, 0x1000_0000, 7);
    RoundsOfOneWidth(base, bodies, k, 0x1000_0000, 0x1_0000_0000, 8);
  }

  lemma RoundsOfOneWidth(base: string, bodies: seq<string>, k: nat, lo: nat, hi: nat, w: nat)
    requires FirstFree(base, bodies, 0) == Some(k)
    requires 1 <= lo <= hi && OneWidth(lo, hi, w)
    ensures lo < k ==> (if k < hi then k else hi) - lo <= |Flatten(bodies)|
  {
    hide Flatten, Candidate, Collides;
    if lo < k {
      CollisionsOfOneWidth(base, bodies, lo, if k < hi then k else hi, w);
    }
  }

  /** A body that is the boundary itself collides with it, and the search goes on to another candidate. */
  lemma OwnBoundaryCollides(base: string)
    requires |base| < 0xF000_0000
    ensures Collides([base], base) && Picked(base, [base]).Some? && Picked(base, []) == Some(base)
  {
    assert OccursAt(base, base, 0);
    assert Occurs([base][0], base);
    assert [base][1..] == [] && Flatten([base]) == base + "" == base;
    SearchSucceeds(base, [base]);
    assert !Collides([], Candidate(base, 0));
  }
}
