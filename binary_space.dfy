/** A range of integers `[start, start + range)` that can be split in half
    again and again until a single integer remains. */
module BinarySpaces {
  import opened Wrappers

  /** Which half of a binary space survives one bisection. */
  datatype BinarySpacePartition = Lower | Upper

  /** The half-open bounds `[inclusiveStart, exclusiveEnd)` of a new space. */
  datatype NewBinarySpaceArgs = NewBinarySpaceArgs(inclusiveStart: int, exclusiveEnd: int)

  datatype BinarySpace = BinarySpace(range: int, start: int) {
    /** Every space built by `New` and narrowed by `Partitioned` is non-empty. */
    predicate Valid() {
      range >= 1
    }

    /** `x` lies in `[start, start + range)`. */
    predicate Contains(x: int) {
      start <= x < start + range
    }

    /** Every integer of this space lies in `outer`. */
    ghost predicate Inside(outer: BinarySpace) {
      forall x :: Contains(x) ==> outer.Contains(x)
    }
  }

  datatype SpaceError =
    | InvalidRange(inclusiveStart: int, exclusiveEnd: int)
    | RangeNotCollapsed(range: int)

  /** Builds the space holding exactly the integers of `[inclusiveStart, exclusiveEnd)`. */
  function New(args: NewBinarySpaceArgs): (r: Result<BinarySpace, SpaceError>)
    ensures r.Success? <==> args.exclusiveEnd > args.inclusiveStart
    ensures r.Success? ==>
      && r.value.Valid()
      && r.value.start == args.inclusiveStart
      && forall x :: r.value.Contains(x) <==> args.inclusiveStart <= x < args.exclusiveEnd
    ensures r.Failure? ==> r.error == InvalidRange(args.inclusiveStart, args.exclusiveEnd)
  {
    if args.exclusiveEnd > args.inclusiveStart then
      Success(BinarySpace(args.exclusiveEnd - args.inclusiveStart, args.inclusiveStart))
    else
      Failure(InvalidRange(args.inclusiveStart, args.exclusiveEnd))
  }

  /** Collapses a space to the one integer it holds. */
  function Evaluate(space: BinarySpace): (r: Result<int, SpaceError>)
    ensures r.Success? <==> space.range == 1
    ensures r.Success? ==> space.Contains(r.value) && forall x :: space.Contains(x) ==> x == r.value
    ensures r.Failure? ==> r.error == RangeNotCollapsed(space.range)
  {
    if space.range == 1 then Success(space.start) else Failure(RangeNotCollapsed(space.range))
  }

  /** One bisection. `Lower` keeps the bottom end, `Upper` keeps the top end,
      and each keeps half the width, rounded down; the source computes
      `floor(range / 2.0)` and `ceil(range / 2.0)`. */
  function Bisect(space: BinarySpace, partition: BinarySpacePartition): (r: BinarySpace)
    requires space.range >= 2
    ensures r.Valid() && r.range == space.range / 2 && r.Inside(space)
    ensures partition == Lower ==> r.start == space.start
    ensures partition == Upper ==> r.start + r.range == space.start + space.range
  {
    match partition
    case Lower => space.(range := space.range / 2)
    case Upper =>
      var delta := (space.range + 1) / 2;
      space.(start := space.start + delta, range := space.range - delta)
  }

  /** The space left after applying `partitions` in order; once the width is
      below 2 the remaining partitions are ignored. A non-empty space stays
      non-empty, never widens and never leaves where it started. */
  function Partitioned(space: BinarySpace, partitions: seq<BinarySpacePartition>): (r: BinarySpace)
    ensures space.Valid() ==> r.Valid() && r.range <= space.range && r.Inside(space)
    decreases |partitions|
  {
    if |partitions| == 0 || space.range < 2 then space
    else Partitioned(Bisect(space, partitions[0]), partitions[1..])
  }

  /** The loop of the source, narrowing its own copy of the space in place. */
  method Partition(space: BinarySpace, partitions: seq<BinarySpacePartition>) returns (r: BinarySpace)
    ensures r == Partitioned(space, partitions)
  {
    r := space;
    for i := 0 to |partitions|
      invariant Partitioned(r, partitions[i..]) == Partitioned(space, partitions)
    {
      if r.range < 2 {
        break;
      }
      assert partitions[i..][1..] == partitions[i + 1..];
      match partitions[i]
      case Lower =>
        r := r.(range := r.range / 2);
      case Upper =>
        var delta := (r.range + 1) / 2;
        r := r.(start := r.start + delta, range := r.range - delta);
    }
  }

  /** An even width splits exactly: each integer lies in exactly one half. */
  lemma BisectEven(space: BinarySpace, x: int)
    requires space.range >= 2 && space.range % 2 == 0
    ensures space.Contains(x) <==> Bisect(space, Lower).Contains(x) || Bisect(space, Upper).Contains(x)
    ensures !(Bisect(space, Lower).Contains(x) && Bisect(space, Upper).Contains(x))
  {
  }

  /** An odd width drops its middle integer: both halves have width `range / 2`
      and every other integer lies in exactly one of them. */
  lemma BisectOdd(space: BinarySpace, x: int)
    requires space.range >= 2 && space.range % 2 == 1
    ensures Bisect(space, Lower).range == Bisect(space, Upper).range == space.range / 2
    ensures var middle := space.start + space.range / 2;
      (space.Contains(x) && x != middle) <==> Bisect(space, Lower).Contains(x) || Bisect(space, Upper).Contains(x)
    ensures !(Bisect(space, Lower).Contains(x) && Bisect(space, Upper).Contains(x))
  {
  }

  /** A width of 3 from 0: `Lower` keeps `[0, 1)`, `Upper` keeps `[2, 3)`, and
      the integer 1 belongs to neither half. */
  lemma BisectDropsMiddleExample(space: BinarySpace)
    requires space == BinarySpace(3, 0)
    ensures space.Contains(1)
    ensures Bisect(space, Lower) == BinarySpace(1, 0) && Bisect(space, Upper) == BinarySpace(1, 2)
    ensures !Bisect(space, Lower).Contains(1) && !Bisect(space, Upper).Contains(1)
  {
  }

  /** A bisection that hands the odd middle integer to the `Upper` half, so
      the two halves always cover the space. */
  function BisectCovering(space: BinarySpace, partition: BinarySpacePartition): (r: BinarySpace)
    requires space.range >= 2
    ensures r.Valid() && r.Inside(space)
    ensures partition == Lower ==> r.start == space.start && r.range == space.range / 2
    ensures partition == Upper ==>
      r.start + r.range == space.start + space.range && r.range == space.range - space.range / 2
  {
    match partition
    case Lower => space.(range := space.range / 2)
    case Upper =>
      var delta := space.range / 2;
      space.(start := space.start + delta, range := space.range - delta)
  }

  /** Every integer of the space lies in exactly one half, and the widths add
      up to the whole, whatever the parity. */
  lemma BisectCoveringSplits(space: BinarySpace, x: int)
    requires space.range >= 2
    ensures BisectCovering(space, Lower).range + BisectCovering(space, Upper).range == space.range
    ensures space.Contains(x) <==> BisectCovering(space, Lower).Contains(x) || BisectCovering(space, Upper).Contains(x)
    ensures !(BisectCovering(space, Lower).Contains(x) && BisectCovering(space, Upper).Contains(x))
  {
  }

  /** On an even width the covering bisection is the one the source computes. */
  lemma BisectCoveringAgreesOnEven(space: BinarySpace, partition: BinarySpacePartition)
    requires space.range >= 2 && space.range % 2 == 0
    ensures BisectCovering(space, partition) == Bisect(space, partition)
  {
  }

  /** Partitioning with the covering bisection. */
  function PartitionedCovering(space: BinarySpace, partitions: seq<BinarySpacePartition>): BinarySpace
    decreases |partitions|
  {
    if |partitions| == 0 || space.range < 2 then space
    else PartitionedCovering(BisectCovering(space, partitions[0]), partitions[1..])
  }

  /** From a width `2^k` every bisection sees an even width, so the covering
      partitioning and the source's agree; the seat decoder only starts from
      widths 128 and 8. */
  lemma {:induction false} PartitionedCoveringPowerOfTwo(start: int, k: nat, partitions: seq<BinarySpacePartition>)
    ensures PartitionedCovering(BinarySpace(Pow2(k), start), partitions) == Partitioned(BinarySpace(Pow2(k), start), partitions)
    decreases |partitions|
  {
    var space := BinarySpace(Pow2(k), start);
    if |partitions| > 0 && space.range >= 2 {
      assert k >= 1;
      BisectCoveringAgreesOnEven(space, partitions[0]);
      BisectPowerOfTwo(start, k, partitions[0]);
      PartitionedCoveringPowerOfTwo(start + Bit(partitions[0]) * Pow2(k - 1), k - 1, partitions[1..]);
    }
  }

  /** A collapsed space ignores every further partition. */
  lemma PartitionedCollapsed(space: BinarySpace, partitions: seq<BinarySpacePartition>)
    requires space.range < 2
    ensures Partitioned(space, partitions) == space
  {
  }

  function Pow2(k: nat): (r: nat)
    ensures r >= 1
  {
    if k == 0 then 1 else 2 * Pow2(k - 1)
  }

  lemma {:induction false} Pow2Add(a: nat, b: nat)
    ensures Pow2(a) * Pow2(b) == Pow2(a + b)
    decreases a
  {
    if a > 0 {
      Pow2Add(a - 1, b);
    }
  }

  function Bit(p: BinarySpacePartition): nat {
    if p == Upper then 1 else 0
  }

  /** The partitions read as a binary number, most significant first, `Upper` = 1. */
  function BinaryValue(partitions: seq<BinarySpacePartition>): nat
    decreases |partitions|
  {
    if |partitions| == 0 then 0
    else Bit(partitions[0]) * Pow2(|partitions| - 1) + BinaryValue(partitions[1..])
  }

  lemma {:induction false} BinaryValueBound(partitions: seq<BinarySpacePartition>)
    ensures BinaryValue(partitions) < Pow2(|partitions|)
    decreases |partitions|
  {
    if |partitions| > 0 {
      BinaryValueBound(partitions[1..]);
    }
  }

  /** Appending partitions shifts the earlier ones left by as many bits. */
  lemma {:induction false} BinaryValueAppend(high: seq<BinarySpacePartition>, low: seq<BinarySpacePartition>)
    ensures BinaryValue(high + low) == BinaryValue(high) * Pow2(|low|) + BinaryValue(low)
    decreases |high|
  {
    if |high| == 0 {
      assert high + low == low;
    } else {
      var whole := high + low;
      assert whole[0] == high[0] && whole[1..] == high[1..] + low;
      BinaryValueAppend(high[1..], low);
      Pow2Add(|high| - 1, |low|);
      ShiftBits(Bit(high[0]), Pow2(|high| - 1), Pow2(|low|), Pow2(|whole| - 1),
        BinaryValue(high), BinaryValue(high[1..]), BinaryValue(low), BinaryValue(whole), BinaryValue(whole[1..]));
    }
  }

  /** A leading bit worth `b * ph` followed by `tail`, shifted by `pl`, is the
      bit worth `b * pw` followed by the shifted tail. */
  lemma ShiftBits(b: int, ph: int, pl: int, pw: int, high: int, tail: int, low: int, whole: int, wholeTail: int)
    requires ph * pl == pw && high == b * ph + tail
    requires whole == b * pw + wholeTail && wholeTail == tail * pl + low
    ensures whole == high * pl + low
  {
    assert high * pl == b * (ph * pl) + tail * pl;
  }

  /** The `width`-bit binary form of `n`, most significant first, `Upper` = 1. */
  function BinaryPartitions(n: nat, width: nat): (r: seq<BinarySpacePartition>)
    requires n < Pow2(width)
    ensures |r| == width && BinaryValue(r) == n
    decreases width
  {
    if width == 0 then []
    else
      var half := Pow2(width - 1);
      var rest := BinaryPartitions(if n >= half then n - half else n, width - 1);
      assert ([if n >= half then Upper else Lower] + rest)[1..] == rest;
      [if n >= half then Upper else Lower] + rest
  }

  /** Reading partitions as a number and writing it back gives them again. */
  lemma {:induction false} BinaryPartitionsOfValue(partitions: seq<BinarySpacePartition>)
    ensures BinaryValue(partitions) < Pow2(|partitions|)
    ensures BinaryPartitions(BinaryValue(partitions), |partitions|) == partitions
    decreases |partitions|
  {
    BinaryValueBound(partitions);
    if |partitions| > 0 {
      BinaryPartitionsOfValue(partitions[1..]);
      var half := Pow2(|partitions| - 1);
      assert BinaryValue(partitions) >= half <==> partitions[0] == Upper;
      assert partitions == [partitions[0]] + partitions[1..];
    }
  }

  /** Halving a width `2^k` gives width `2^(k-1)`, starting `2^(k-1)` higher for `Upper`. */
  lemma BisectPowerOfTwo(start: int, k: nat, p: BinarySpacePartition)
    requires k >= 1
    ensures Bisect(BinarySpace(Pow2(k), start), p) == BinarySpace(Pow2(k - 1), start + Bit(p) * Pow2(k - 1))
  {
  }

  /** `k` partitions collapse a space of width `2^k` to the integer
      `start + BinaryValue` of its first `k` partitions; later ones are ignored. */
  lemma {:induction false} PartitionedPowerOfTwo(start: int, k: nat, partitions: seq<BinarySpacePartition>)
    requires |partitions| >= k
    ensures Partitioned(BinarySpace(Pow2(k), start), partitions) == BinarySpace(1, start + BinaryValue(partitions[..k]))
    decreases k
  {
    if k == 0 {
      assert partitions[..0] == [];
    } else {
      var p, rest := partitions[0], partitions[1..];
      var next := start + Bit(p) * Pow2(k - 1);
      BisectPowerOfTwo(start, k, p);
      PartitionedPowerOfTwo(next, k - 1, rest);
      assert partitions[..k][1..] == rest[..k - 1];
    }
  }

  /** Fewer than `k` partitions leave a space of width `2^k` at width
      `2^(k - |partitions|)`, so it cannot collapse. */
  lemma {:induction false} PartitionedPowerOfTwoShort(start: int, k: nat, partitions: seq<BinarySpacePartition>)
    requires |partitions| < k
    ensures Partitioned(BinarySpace(Pow2(k), start), partitions) ==
      BinarySpace(Pow2(k - |partitions|), start + BinaryValue(partitions) * Pow2(k - |partitions|))
    ensures Pow2(k - |partitions|) >= 2
    decreases |partitions|
  {
    if |partitions| > 0 {
      var p, rest := partitions[0], partitions[1..];
      var next := start + Bit(p) * Pow2(k - 1);
      var m := k - |partitions|;
      BisectPowerOfTwo(start, k, p);
      assert Partitioned(BinarySpace(Pow2(k), start), partitions) == Partitioned(BinarySpace(Pow2(k - 1), next), rest);
      PartitionedPowerOfTwoShort(next, k - 1, rest);
      Pow2Add(|rest|, m);
      ShiftBit(start, Bit(p), BinaryValue(partitions), BinaryValue(rest), Pow2(|rest|), Pow2(m), Pow2(k - 1));
    }
  }

  /** A leading bit worth `b * pr`, scaled by `pm`, moves into the start. */
  lemma ShiftBit(start: int, b: int, v: int, rest: int, pr: int, pm: int, pk: int)
    requires pr * pm == pk && v == b * pr + rest
    ensures start + v * pm == (start + b * pk) + rest * pm
  {
    assert v * pm == b * (pr * pm) + rest * pm;
  }
}
