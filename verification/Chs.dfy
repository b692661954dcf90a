/** CHS2LBA: cylinder, head and 1-based sector to a linear block address. */
module Chs {
  import opened Basics

  datatype Geometry = Geometry(cylinders: Word, heads: Word, sectors: Word) {

    function Size(): nat {
      cylinders * heads * sectors
    }
  }

  /** Words too, in a valid triple. */
  datatype Triple = Triple(c: nat, h: nat, s: nat)

  predicate Valid(g: Geometry, t: Triple) {
    t.c < g.cylinders && t.h < g.heads && 1 <= t.s <= g.sectors
  }

  /** Lexicographic order. */
  predicate Before(a: Triple, b: Triple) {
    a.c < b.c || (a.c == b.c && (a.h < b.h || (a.h == b.h && a.s < b.s)))
  }

  function Lba(g: Geometry, t: Triple): int {
    t.c * g.heads * g.sectors + t.h * g.sectors + (t.s - 1)
  }

  /** What the function returns where `int` arithmetic wraps. */
  function Chs2Lba(g: Geometry, t: Triple): nat {
    Lba(g, t) % 0x1_0000_0000
  }

  /** The div/mod inverse. */
  function Inverse(g: Geometry, lba: nat): Triple
    requires g.heads > 0 && g.sectors > 0
  {
    var track := lba / g.sectors;
    Triple(track / g.heads, track % g.heads, lba % g.sectors + 1)
  }

  lemma TrackFits(g: Geometry, lba: nat)
    requires lba < g.Size() && g.heads > 0 && g.sectors > 0
    ensures lba / g.sectors / g.heads < g.cylinders
  {
    Indices(lba, g.Size(), g.cylinders * g.heads, g.cylinders, g.heads, g.sectors);
  }

  lemma Indices(x: nat, size: nat, tracks: nat, c: nat, h: nat, s: nat)
    requires x < size == tracks * s && tracks == c * h && h > 0 && s > 0
    ensures x / s / h < c
  {
    Quotient(x, size, tracks, s);
    Quotient(x / s, tracks, c, h);
  }

  lemma Quotient(x: nat, size: nat, a: nat, n: nat)
    requires n > 0 && x < size == a * n
    ensures x / n < a
  {
    if x / n >= a { Scale(a, x / n, n); }
  }

  lemma Product(a: nat, b: nat, c: nat)
    requires a * b * c > 0
    ensures b > 0 && c > 0
  {
  }

  lemma Scale(a: nat, b: nat, k: nat)
    requires a <= b
    ensures a * k <= b * k
  {
  }

  /** A two-digit number: the high digit decides, then the low one. */
  lemma TwoDigits(x: nat, y: nat, n: nat, low: nat, low': nat)
    requires low < n && low' < n
    ensures x < y ==> x * n + low < y * n + low'
    ensures x < y ==> x * n + low < y * n
  {
    if x < y { Scale(x + 1, y, n); } else { Scale(y, x, n); }
  }

  function Track(g: Geometry, t: Triple): nat {
    t.c * g.heads + t.h
  }

  lemma LbaByTrack(g: Geometry, t: Triple)
    ensures Lba(g, t) == Track(g, t) * g.sectors + (t.s - 1)
  {
    assert Track(g, t) * g.sectors == t.c * g.heads * g.sectors + t.h * g.sectors;
  }

  lemma Ordered(g: Geometry, a: Triple, b: Triple)
    requires Valid(g, a) && Valid(g, b) && Before(a, b)
    ensures Lba(g, a) < Lba(g, b)
  {
    LbaByTrack(g, a);
    LbaByTrack(g, b);
    TwoDigits(a.c, b.c, g.heads, a.h, b.h);
    TwoDigits(Track(g, a), Track(g, b), g.sectors, a.s - 1, b.s - 1);
  }

  lemma InRange(g: Geometry, t: Triple)
    requires Valid(g, t)
    ensures 0 <= Lba(g, t) < g.Size()
  {
    LbaByTrack(g, t);
    TwoDigits(t.c, g.cylinders, g.heads, t.h, 0);
    TwoDigits(Track(g, t), g.cylinders * g.heads, g.sectors, t.s - 1, 0);
  }

  /** Strictly increasing in the lexicographic order, and within the disk. */
  lemma StrictlyIncreasing(g: Geometry, a: Triple, b: Triple)
    requires Valid(g, a) && Valid(g, b)
    ensures Before(a, b) <==> Lba(g, a) < Lba(g, b)
    ensures 0 <= Lba(g, a) < g.Size()
  {
    if Before(a, b) { Ordered(g, a, b); }
    if Before(b, a) { Ordered(g, b, a); }
    InRange(g, a);
  }

  lemma InverseByTrack(g: Geometry, lba: nat)
    requires g.heads > 0 && g.sectors > 0
    ensures Lba(g, Inverse(g, lba)) == lba
  {
    var track := lba / g.sectors;
    LbaByTrack(g, Inverse(g, lba));
    assert track == track / g.heads * g.heads + track % g.heads;
    assert lba == track * g.sectors + lba % g.sectors;
  }

  /** Onto: every address on the disk is that of its inverse. */
  lemma LbaOfInverse(g: Geometry, lba: nat)
    requires lba < g.Size()
    ensures g.heads > 0 && g.sectors > 0 && Valid(g, Inverse(g, lba)) && Lba(g, Inverse(g, lba)) == lba
  {
    Product(g.cylinders, g.heads, g.sectors);
    TrackFits(g, lba);
    InverseByTrack(g, lba);
  }

  /** One to one: the inverse gives back the triple. */
  lemma InverseOfLba(g: Geometry, t: Triple)
    requires Valid(g, t)
    ensures 0 <= Lba(g, t) < g.Size() && g.heads > 0 && Inverse(g, Lba(g, t)) == t
  {
    InRange(g, t);
    LbaOfInverse(g, Lba(g, t));
    StrictlyIncreasing(g, t, Inverse(g, Lba(g, t)));
    StrictlyIncreasing(g, Inverse(g, Lba(g, t)), t);
  }

  /** Every product and sum on the way fits the `int` that the words are promoted to; from
      2^31 on C leaves the result open. */
  predicate Defined(g: Geometry, t: Triple) {
    t.c * g.heads < INT && t.c * g.heads * g.sectors < INT && t.h * g.sectors < INT
    && t.c * g.heads * g.sectors + t.h * g.sectors < INT && Lba(g, t) < INT
  }

  const INT := 0x8000_0000

  /** C defines the address of every sector if and only if the disk has at most 2^31, and then
      each is the exact one. */
  lemma DefinedExactly(g: Geometry)
    ensures (forall t | Valid(g, t) :: Defined(g, t)) <==> g.Size() <= INT
    ensures forall t | Valid(g, t) && Defined(g, t) :: Chs2Lba(g, t) == Lba(g, t)
  {
    if g.Size() <= INT {
      forall t | Valid(g, t) ensures Defined(g, t) {
        InRange(g, t);
        PartsBelow(t.c * g.heads, t.h, g.sectors, t.s);
      }
    } else {
      LbaOfInverse(g, g.Size() - 1);
      assert !Defined(g, Inverse(g, g.Size() - 1));
    }
    forall t | Valid(g, t) && Defined(g, t) ensures Chs2Lba(g, t) == Lba(g, t) { InRange(g, t); }
  }

  lemma PartsBelow(track: nat, h: nat, sectors: nat, s: nat)
    requires 1 <= s <= sectors
    ensures track <= track * sectors <= track * sectors + h * sectors <= track * sectors + h * sectors + (s - 1)
    ensures h * sectors <= track * sectors + h * sectors
  {
    Scale(1, sectors, track);
  }

  ghost predicate Injective(g: Geometry) {
    forall a, b | Valid(g, a) && Valid(g, b) && Chs2Lba(g, a) == Chs2Lba(g, b) :: a == b
  }

  /** Where `int` wraps, two sectors share an address exactly when the disk has more than 2^32; up to
      there every address is the exact one. */
  lemma ExactBound(g: Geometry)
    ensures Injective(g) <==> g.Size() <= 0x1_0000_0000
    ensures g.Size() <= 0x1_0000_0000 ==> forall t | Valid(g, t) :: Chs2Lba(g, t) == Lba(g, t)
  {
    if g.Size() <= 0x1_0000_0000 {
      forall t | Valid(g, t) ensures Chs2Lba(g, t) == Lba(g, t) { InRange(g, t); }
      forall a, b | Valid(g, a) && Valid(g, b) && Chs2Lba(g, a) == Chs2Lba(g, b) ensures a == b {
        InverseOfLba(g, a);
        InverseOfLba(g, b);
      }
    } else {
      LbaOfInverse(g, 0);
      LbaOfInverse(g, 0x1_0000_0000);
      var a, b := Inverse(g, 0), Inverse(g, 0x1_0000_0000);
      assert Chs2Lba(g, a) == Chs2Lba(g, b);
    }
  }
}
