/** The functional-coverage plan of the testbench (tb/coverage.py): the bin
    lists of every cover point and the relation that decides whether a
    sampled value falls into a bin. The coverage engine that counts hits
    and combines crosses is a library and is not part of this model; what
    is modelled is which bins a value hits, and how many. */
module Coverage {

  /** An interval bin `(lo, hi)`. */
  datatype Bin = Bin(lo: int, hi: int)

  /** `apb.delay`: `_range[0] < _val < _range[1]`, both bounds excluded. */
  const DelayBins: seq<Bin> := [Bin(0, 5), Bin(5, 10), Bin(10, 15)]

  predicate InStrict(v: int, b: Bin)
  {
    b.lo < v < b.hi
  }

  /** `apb.addr` and `apb.write` use the default relation, equality. */
  const AddrBins: seq<int> := [0, 4, 8, 12]
  const WriteBins: seq<bool> := [true, false]

  /** `i2c.data`, `op.repeat` and `op.divider`:
      `_range[0] <= _val <= _range[1]`, both bounds included. */
  const DataBins: seq<Bin> := [Bin(0, 0xFFFF), Bin(0x10000, 0xFF_FFFF), Bin(0x100_0000, 0xFFFF_FFFF)]
  const RepeatBins: seq<Bin> := [Bin(1, 3), Bin(4, 7), Bin(8, 15), Bin(16, 31)]
  const DividerBins: seq<Bin> := [Bin(1, 3), Bin(4, 7), Bin(8, 15), Bin(16, 31)]

  predicate InClosed(v: int, b: Bin)
  {
    b.lo <= v <= b.hi
  }

  /** `op.direction` and `op.order`. */
  const DirectionBins: seq<string> := ["read", "write"]
  const OrderBins: seq<(string, string)> := [("read", "read"), ("read", "write"), ("write", "read"), ("write", "write")]

  /** The number of bins of an exclusive-bound cover point that `v` hits. */
  function StrictHits(bins: seq<Bin>, v: int): (n: nat)
    ensures n <= |bins|
    ensures n == 0 <==> forall i :: 0 <= i < |bins| ==> !InStrict(v, bins[i])
  {
    if bins == [] then 0
    else StrictHits(bins[..|bins| - 1], v) + (if InStrict(v, bins[|bins| - 1]) then 1 else 0)
  }

  /** The number of bins of an inclusive-bound cover point that `v` hits. */
  function ClosedHits(bins: seq<Bin>, v: int): (n: nat)
    ensures n <= |bins|
    ensures n == 0 <==> forall i :: 0 <= i < |bins| ==> !InClosed(v, bins[i])
  {
    if bins == [] then 0
    else ClosedHits(bins[..|bins| - 1], v) + (if InClosed(v, bins[|bins| - 1]) then 1 else 0)
  }

  /** The number of bins equal to `v`, for cover points without `rel`. */
  function EqualHits<T(==)>(bins: seq<T>, v: T): (n: nat)
    ensures n <= |bins|
    ensures n == 0 <==> v !in bins
  {
    if bins == [] then 0
    else EqualHits(bins[..|bins| - 1], v) + (if bins[|bins| - 1] == v then 1 else 0)
  }

  /** The strict bounds leave the bin edges uncovered: delays 1-4, 6-9 and
      11-14 hit exactly one bin, and 0, 5, 10, anything from 15 up and every
      negative value hit none. */
  lemma DelayHits(v: int)
    ensures StrictHits(DelayBins, v) == if 1 <= v <= 4 || 6 <= v <= 9 || 11 <= v <= 14 then 1 else 0
  {
    var bins := DelayBins;
    assert bins[..2] == [Bin(0, 5), Bin(5, 10)] && bins[..2][..1] == [Bin(0, 5)];
    assert StrictHits(bins[..2][..1], v) == if 0 < v < 5 then 1 else 0;
    assert StrictHits(bins[..2], v) == if 0 < v < 5 || 5 < v < 10 then 1 else 0;
  }

  /** Every value of a 32-bit word hits exactly one `i2c.data` bin; no
      other value hits any. */
  lemma DataPartition(v: int)
    ensures ClosedHits(DataBins, v) == if 0 <= v <= 0xFFFF_FFFF then 1 else 0
  {
    var bins := DataBins;
    assert bins[..2] == [Bin(0, 0xFFFF), Bin(0x10000, 0xFF_FFFF)] && bins[..2][..1] == [Bin(0, 0xFFFF)];
    assert ClosedHits(bins[..2][..1], v) == if 0 <= v <= 0xFFFF then 1 else 0;
    assert ClosedHits(bins[..2], v) == if 0 <= v <= 0xFF_FFFF then 1 else 0;
  }

  /** The four repeat/divider bins are disjoint and cover exactly 1..31. */
  lemma RangePartition(bins: seq<Bin>, v: int)
    requires bins == RepeatBins || bins == DividerBins
    ensures ClosedHits(bins, v) == if 1 <= v <= 31 then 1 else 0
  {
    assert bins[..3] == [Bin(1, 3), Bin(4, 7), Bin(8, 15)];
    assert bins[..3][..2] == [Bin(1, 3), Bin(4, 7)] && bins[..3][..2][..1] == [Bin(1, 3)];
    assert ClosedHits(bins[..3][..2][..1], v) == if 1 <= v <= 3 then 1 else 0;
    assert ClosedHits(bins[..3][..2], v) == if 1 <= v <= 7 then 1 else 0;
    assert ClosedHits(bins[..3], v) == if 1 <= v <= 15 then 1 else 0;
  }

  /** The register addresses 0, 4, 8 and 12 each hit one `apb.addr` bin;
      nothing else hits any. */
  lemma AddrHits(v: int)
    ensures EqualHits(AddrBins, v) == if v == 0 || v == 4 || v == 8 || v == 12 then 1 else 0
  {
    assert AddrBins[..3] == [0, 4, 8];
    assert AddrBins[..3][..2] == [0, 4];
    assert AddrBins[..3][..2][..1] == [0];
    assert AddrBins[..3][..2][..1][..0] == [];
  }

  /** Every direction flag hits exactly one `apb.write` bin. */
  lemma WriteHits(w: bool)
    ensures EqualHits(WriteBins, w) == 1
  {
    assert WriteBins[..1] == [true];
    assert WriteBins[..1][..0] == [];
  }

  /** 'read' and 'write' each hit exactly one `op.direction` bin; any other
      string hits none. */
  lemma DirectionHits(d: string)
    ensures EqualHits(DirectionBins, d) == if d == "read" || d == "write" then 1 else 0
  {
    assert DirectionBins[..1] == ["read"];
    assert DirectionBins[..1][..0] == [];
  }

  /** Any pair of directions hits exactly one `op.order` bin; a pair with
      any other string in it hits none. */
  lemma OrderHits(prev: string, next: string)
    ensures EqualHits(OrderBins, (prev, next)) ==
      if (prev == "read" || prev == "write") && (next == "read" || next == "write") then 1 else 0
  {
    assert OrderBins[..3] == [("read", "read"), ("read", "write"), ("write", "read")];
    assert OrderBins[..3][..2] == [("read", "read"), ("read", "write")];
    assert OrderBins[..3][..2][..1] == [("read", "read")];
    assert OrderBins[..3][..2][..1][..0] == [];
  }

  /** All combinations of the bins of two cover points, in row order: the
      bins of a cross. */
  function Cross<A(!new), B(!new)>(xs: seq<A>, ys: seq<B>): (r: seq<(A, B)>)
    ensures |r| == |xs| * |ys|
    ensures forall a, b :: (a, b) in r <==> a in xs && b in ys
  {
    if xs == [] then []
    else
      var rest := Cross(xs[1..], ys);
      var row := seq(|ys|, j requires 0 <= j < |ys| => (xs[0], ys[j]));
      assert forall b :: (xs[0], b) in row <==> b in ys by {
        forall b | b in ys ensures (xs[0], b) in row {
          var j :| 0 <= j < |ys| && ys[j] == b;
          assert row[j] == (xs[0], b);
        }
      }
      assert forall a :: a in xs <==> a == xs[0] || a in xs[1..];
      row + rest
  }

  /** `op.cross` crosses direction, repeat and divider: 2 x 4 x 4 = 32
      bins. */
  function OpCross(): (r: seq<(string, (Bin, Bin))>)
    ensures |r| == 32
  {
    Cross(DirectionBins, Cross(RepeatBins, DividerBins))
  }

  /** `apb.writeXdelay` crosses delay and direction flag: 3 x 2 = 6 bins. */
  function WriteXDelay(): (r: seq<(Bin, bool)>)
    ensures |r| == 6
  {
    Cross(DelayBins, WriteBins)
  }

  /** A completed operation falls into an `op.cross` bin exactly when its
      direction is 'read' or 'write' and both its repeat and its divider
      lie in 1..31. */
  lemma OpCrossHit(d: string, repeat: int, divider: int)
    ensures (exists rb, db :: (d, (rb, db)) in OpCross() && InClosed(repeat, rb) && InClosed(divider, db))
        <==> (d == "read" || d == "write") && 1 <= repeat <= 31 && 1 <= divider <= 31
  {
    RangePartition(RepeatBins, repeat);
    RangePartition(DividerBins, divider);
    DirectionHits(d);
    if (d == "read" || d == "write") && 1 <= repeat <= 31 && 1 <= divider <= 31 {
      var i :| 0 <= i < |RepeatBins| && InClosed(repeat, RepeatBins[i]);
      var j :| 0 <= j < |DividerBins| && InClosed(divider, DividerBins[j]);
      assert (d, (RepeatBins[i], DividerBins[j])) in OpCross();
    }
  }

  /** An APB observation falls into an `apb.writeXdelay` bin exactly when
      its delay hits an `apb.delay` bin: the direction flag always hits. */
  lemma WriteXDelayHit(delay: int, write: bool)
    ensures (exists db :: (db, write) in WriteXDelay() && InStrict(delay, db))
        <==> StrictHits(DelayBins, delay) == 1
  {
    DelayHits(delay);
    WriteHits(write);
    if StrictHits(DelayBins, delay) == 1 {
      var i :| 0 <= i < |DelayBins| && InStrict(delay, DelayBins[i]);
      assert (DelayBins[i], write) in WriteXDelay();
    }
  }
}
