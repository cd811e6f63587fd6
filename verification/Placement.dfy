/** Where the copies of a state lie on the device: strides of a file, or eraseblocks of flash. */
module Placement {
  import opened Bytes

  const DESIRED_BUCKETS: nat := 3

  /** The ranges of size bytes at these offsets share no byte. */
  ghost predicate Disjoint(offsets: seq<int>, size: nat) {
    forall i, j :: 0 <= i < j < |offsets| ==> offsets[i] + size <= offsets[j] || offsets[j] + size <= offsets[i]
  }

  /** Offset of stride n; the product is taken in 32 bits. */
  function StrideOffset(offset: nat, stride: nat, n: nat): nat {
    offset + n * stride % TWO_32
  }

  function StrideOffsets(offset: nat, stride: nat, created: nat -> bool, n: nat): seq<int> {
    if n == 0 then [] else
      StrideOffsets(offset, stride, created, n - 1)
      + if created(n - 1) then [StrideOffset(offset, stride, n - 1)] else []
  }

  /** state_storage_file_buckets_init; created tells which buckets can be set up. */
  method FileBuckets(offset: nat, stride: nat, maxSize: nat, created: nat -> bool)
    returns (err: Option<Error>, offsets: seq<int>)
    requires stride < TWO_32
    ensures err == Some(EINVAL) <==> stride == 0 || 0 < maxSize < DESIRED_BUCKETS * stride % TWO_32
    ensures err != Some(EINVAL) ==> offsets == StrideOffsets(offset, stride, created, DESIRED_BUCKETS)
    ensures err != Some(EINVAL) ==> (err == Some(EIO) <==> offsets == [])
    ensures err in {None, Some(EINVAL), Some(EIO)}
  {
    offsets := [];
    if stride == 0 || (maxSize != 0 && maxSize < DESIRED_BUCKETS * stride % TWO_32) {
      return Some(EINVAL), offsets;
    }
    var n := 0;
    while n < DESIRED_BUCKETS
      invariant n <= DESIRED_BUCKETS && offsets == StrideOffsets(offset, stride, created, n)
    {
      if created(n) {
        offsets := offsets + [StrideOffset(offset, stride, n)];
      }
      n := n + 1;
    }
    err := if offsets == [] then Some(EIO) else None;
  }

  /** The copies do not overlap exactly when twice the stride still fits 32 bits: otherwise the third
      copy wraps around into the first. */
  lemma StridesDisjoint(offset: nat, stride: nat, created: nat -> bool)
    requires 0 < stride < TWO_32 && created(0) && created(1) && created(2)
    ensures Disjoint(StrideOffsets(offset, stride, created, DESIRED_BUCKETS), stride) <==> 2 * stride < TWO_32
  {
    var s := StrideOffsets(offset, stride, created, DESIRED_BUCKETS);
    FirstStrides(offset, stride, created);
    assert s[0] == offset && s[1] == offset + stride;
    if 2 * stride < TWO_32 {
      assert s[2] == offset + 2 * stride;
    } else {
      DivModUnique(2 * stride, TWO_32, 1, 2 * stride - TWO_32);
      assert s[2] == offset + 2 * stride - TWO_32;
      assert s[0] + stride > s[2] && s[2] + stride > s[0];
    }
  }

  lemma FirstStrides(offset: nat, stride: nat, created: nat -> bool)
    requires created(0) && created(1) && created(2)
    ensures StrideOffsets(offset, stride, created, DESIRED_BUCKETS)
         == [StrideOffset(offset, stride, 0), StrideOffset(offset, stride, 1), StrideOffset(offset, stride, 2)]
  {
    assert StrideOffsets(offset, stride, created, 1) == [StrideOffset(offset, stride, 0)];
    assert StrideOffsets(offset, stride, created, 2)
        == [StrideOffset(offset, stride, 0), StrideOffset(offset, stride, 1)];
  }

  /** When the size check is not fooled by the 32-bit product, the copies lie inside the device. */
  lemma StridesInside(offset: nat, stride: nat, maxSize: nat, created: nat -> bool, n: nat)
    requires DESIRED_BUCKETS * stride < TWO_32 && DESIRED_BUCKETS * stride % TWO_32 <= maxSize && n <= DESIRED_BUCKETS
    ensures forall o <- StrideOffsets(offset, stride, created, n) :: offset <= o && o + stride <= offset + maxSize
  {
    if n > 0 {
      StridesInside(offset, stride, maxSize, created, n - 1);
    }
  }

  /** Three copies lie inside the device exactly when it holds three strides, or two and what wrapped
      around lies in them. The size check compares with the wrapped product instead. */
  lemma StridesInsideIff(offset: nat, stride: nat, maxSize: nat, created: nat -> bool)
    requires 0 < stride < TWO_32 && created(0) && created(1) && created(2)
    ensures (forall o <- StrideOffsets(offset, stride, created, DESIRED_BUCKETS) :: o + stride <= offset + maxSize)
            <==> (if 2 * stride < TWO_32 then 3 * stride else 2 * stride) <= maxSize
  {
    var s := StrideOffsets(offset, stride, created, DESIRED_BUCKETS);
    FirstStrides(offset, stride, created);
    assert s[0] == offset && s[1] == offset + stride;
    if 2 * stride < TWO_32 {
      assert s[2] == offset + 2 * stride;
    } else {
      DivModUnique(2 * stride, TWO_32, 1, 2 * stride - TWO_32);
      assert s[2] == offset + 2 * stride - TWO_32;
    }
    assert s[0] in s && s[1] in s && s[2] in s;
    assert forall o <- s :: o == s[0] || o == s[1] || o == s[2];
  }

  /** The end of the range that may be used; 0 or too large means the whole device. */
  function MtdEnd(offset: nat, maxSize: nat, deviceSize: nat): nat {
    var end := offset + maxSize;
    if end == 0 || end > deviceSize then deviceSize else end
  }

  /** The first eraseblocks from at on, at most room of them, on which a bucket can be set up. */
  function Blocks(at: nat, end: nat, eraseSize: nat, created: nat -> bool, room: nat): seq<int>
    requires eraseSize > 0
    decreases if at < end then end - at else 0
  {
    if at >= end || room == 0 then []
    else if created(at) then [at] + Blocks(at + eraseSize, end, eraseSize, created, room - 1)
    else Blocks(at + eraseSize, end, eraseSize, created, room)
  }

  /** state_storage_mtd_buckets_init: one bucket an eraseblock, bad blocks are skipped. */
  method MtdBuckets(offset: nat, maxSize: nat, deviceSize: nat, eraseSize: nat, created: nat -> bool)
    returns (err: Option<Error>, offsets: seq<int>)
    requires eraseSize > 0
    ensures err == Some(EINVAL) <==> !Multiple(offset, eraseSize)
    ensures err == Some(EIO) <==> Multiple(offset, eraseSize) && offsets == []
    ensures err == None || err == Some(EINVAL) || err == Some(EIO)
    ensures Multiple(offset, eraseSize) ==>
      offsets == Blocks(offset, MtdEnd(offset, maxSize, deviceSize), eraseSize, created, DESIRED_BUCKETS)
    ensures forall o <- offsets :: offset <= o < deviceSize && (maxSize > 0 ==> o < offset + maxSize)
    ensures Multiple(offset, eraseSize) && maxSize > 0 ==>
      forall o: nat :: offset <= o < deviceSize && o < offset + maxSize && Multiple(o - offset, eraseSize) && created(o)
        ==> o in offsets || (|offsets| == DESIRED_BUCKETS && forall x <- offsets :: x < o)
  {
    offsets := [];
    var end := MtdEnd(offset, maxSize, deviceSize);
    if !Multiple(offset, eraseSize) {
      return Some(EINVAL), offsets;
    }
    var at := offset;
    while at < end && |offsets| < DESIRED_BUCKETS
      invariant at >= offset && |offsets| <= DESIRED_BUCKETS
      invariant Blocks(offset, end, eraseSize, created, DESIRED_BUCKETS)
             == offsets + Blocks(at, end, eraseSize, created, DESIRED_BUCKETS - |offsets|)
      decreases if at < end then end - at else 0
    {
      if created(at) {
        offsets := offsets + [at];
      }
      at := at + eraseSize;
    }
    err := if offsets == [] then Some(EIO) else None;
    assert offsets == Blocks(offset, end, eraseSize, created, DESIRED_BUCKETS);
    BlocksApart(offset, end, eraseSize, created, DESIRED_BUCKETS);
    forall o: nat | maxSize > 0 && offset <= o < deviceSize && o < offset + maxSize
                    && Multiple(o - offset, eraseSize) && created(o)
      ensures o in offsets || (|offsets| == DESIRED_BUCKETS && forall x <- offsets :: x < o)
    {
      BlocksAreFirst(offset, end, eraseSize, created, DESIRED_BUCKETS, o);
    }
  }

  /** Whole eraseblocks of their own, all of them usable, at most room. */
  lemma {:induction false} BlocksApart(at: nat, end: nat, eraseSize: nat, created: nat -> bool, room: nat)
    requires eraseSize > 0 && Multiple(at, eraseSize)
    ensures var s := Blocks(at, end, eraseSize, created, room);
            && |s| <= room && Disjoint(s, eraseSize)
            && (forall o <- s :: at <= o < end && Multiple(o, eraseSize) && created(o))
    decreases if at < end then end - at else 0
  {
    if at < end && room > 0 {
      var left := if created(at) then room - 1 else room;
      var rest := Blocks(at + eraseSize, end, eraseSize, created, left);
      BlocksApart(at + eraseSize, end, eraseSize, created, left);
      assert forall j :: 0 <= j < |rest| ==> rest[j] in rest;
    }
  }

  /** A usable block of the range is taken, or there were enough in front of it. */
  lemma {:induction false} BlocksAreFirst(at: nat, end: nat, eraseSize: nat, created: nat -> bool, room: nat, o: nat)
    requires eraseSize > 0 && at <= o < end && Multiple(o - at, eraseSize) && created(o)
    ensures var s := Blocks(at, end, eraseSize, created, room);
            o in s || (|s| == room && forall x <- s :: x < o)
    decreases if at < end then end - at else 0
  {
    if o != at && room > 0 {
      BlocksAreFirst(at + eraseSize, end, eraseSize, created, if created(at) then room - 1 else room, o);
    }
  }

  /** With fewer than room buckets, no usable block of the range was passed over. */
  lemma BlocksComplete(at: nat, end: nat, eraseSize: nat, created: nat -> bool, room: nat, o: nat)
    requires eraseSize > 0 && |Blocks(at, end, eraseSize, created, room)| < room
    requires at <= o < end && Multiple(o - at, eraseSize) && created(o)
    ensures o in Blocks(at, end, eraseSize, created, room)
  {
    BlocksAreFirst(at, end, eraseSize, created, room, o);
  }

  /** A size of 0 stands for the whole device only when the offset is 0 too. */
  lemma ZeroSizeBehindStart(offset: nat, deviceSize: nat, eraseSize: nat, created: nat -> bool)
    requires eraseSize > 0
    ensures Blocks(offset, MtdEnd(offset, 0, deviceSize), eraseSize, created, DESIRED_BUCKETS) == [] <==>
      offset > 0 || Blocks(0, deviceSize, eraseSize, created, DESIRED_BUCKETS) == []
  {
  }
}
