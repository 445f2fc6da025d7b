/** The decoder pool of TileDecoder.kt, as a sequential state machine. A tile decoder
    starts with its root decode helper in the pool; a decode takes the first pooled
    helper (or a copy of the root when the pool is empty), decodes with it and puts it
    back, unless the decoder was closed in the meantime, in which case the helper is
    closed instead. Closing closes every pooled helper once and empties the pool.
    `decode` is split into its begin and end events so that a `close` between them can
    be stated; the lock only orders these events and is not modelled. */
module TileDecoders {
  import opened Wrappers
  import opened Geometry

  /** `ImageInfo`: the image's size and mime type. */
  datatype ImageInfo = ImageInfo(width: int, height: int, mimeType: string)

  /** A `DecodeHelper`, kept opaque: the source and image it decodes, and an instance
      number that tells apart the copies made of the root helper. */
  datatype DecodeHelper = DecodeHelper(imageSource: string, imageInfo: ImageInfo, instance: nat)

  /** The decoder's state: the root helper, the pool, the `closed` flag, and the
      helpers closed so far, in the order their `close()` was called. */
  datatype TileDecoder = TileDecoder(
    rootDecodeHelper: DecodeHelper,
    decoderPool: seq<DecodeHelper>,
    closed: bool,
    closedHelpers: seq<DecodeHelper>)

  /** A decode in progress: the decoder after the helper was taken, and the helper. */
  datatype Lease = Lease(decoder: TileDecoder, helper: DecodeHelper)

  /** The decoder after a whole `decode`, and what `decode` returned or threw. */
  datatype DecodeOutcome<B> = DecodeOutcome(decoder: TileDecoder, result: Result<Option<B>>)

  const ClosedMessage: string := "TileDecoder is closed"

  /** `TileDecoder(logger, rootDecodeHelper)`: the pool is seeded with the root. */
  function New(root: DecodeHelper): (d: TileDecoder)
    ensures d.decoderPool == [root] && !d.closed && d.closedHelpers == []
    ensures ImageInfoOf(d) == root.imageInfo && ImageSourceOf(d) == root.imageSource
  {
    TileDecoder(root, [root], false, [])
  }

  /** `imageInfo` and `imageSource` are the root helper's. */
  function ImageInfoOf(d: TileDecoder): ImageInfo {
    d.rootDecodeHelper.imageInfo
  }

  function ImageSourceOf(d: TileDecoder): string {
    d.rootDecodeHelper.imageSource
  }

  /** `decoderPoolSize`. */
  function PoolSize(d: TileDecoder): (n: nat)
    ensures d.decoderPool == [] <==> n == 0
  {
    |d.decoderPool|
  }

  /** `rootDecodeHelper.copy()`: a new helper on the same source and image; which
      instance it is comes from outside the model. */
  function CopyOf(root: DecodeHelper, instance: nat): (h: DecodeHelper)
    ensures h.imageSource == root.imageSource && h.imageInfo == root.imageInfo
  {
    DecodeHelper(root.imageSource, root.imageInfo, instance)
  }

  /** The first half of `decode`: the closed check, then `useDecoder` taking the
      first pooled helper, or copying the root when the pool is empty. */
  function BeginDecode(d: TileDecoder, copyInstance: nat): (r: Result<Lease>)
    ensures r.Failure? <==> d.closed
    ensures r.Failure? ==> r.error == ClosedMessage
    ensures r.Success? && d.decoderPool != [] ==>
              r.value.helper == d.decoderPool[0]
              && r.value.decoder == d.(decoderPool := d.decoderPool[1..])
    ensures r.Success? && d.decoderPool == [] ==>
              r.value.helper == CopyOf(d.rootDecodeHelper, copyInstance) && r.value.decoder == d
  {
    if d.closed then Failure(ClosedMessage)
    else if |d.decoderPool| > 0 then Success(Lease(d.(decoderPool := d.decoderPool[1..]), d.decoderPool[0]))
    else Success(Lease(d, CopyOf(d.rootDecodeHelper, copyInstance)))
  }

  /** The second half of `useDecoder`: an open decoder takes the helper back at the end
      of the pool; a closed one closes it instead. */
  function EndDecode(d: TileDecoder, helper: DecodeHelper): (e: TileDecoder)
    ensures !d.closed ==> e == d.(decoderPool := d.decoderPool + [helper])
    ensures d.closed ==> e == d.(closedHelpers := d.closedHelpers + [helper])
    ensures |e.decoderPool| + |e.closedHelpers| == |d.decoderPool| + |d.closedHelpers| + 1
  {
    if !d.closed then d.(decoderPool := d.decoderPool + [helper])
    else d.(closedHelpers := d.closedHelpers + [helper])
  }

  /** `decode(key, srcRect, sampleSize)` run without interruption: begin, decode the
      region with the helper, end. `decodeRegion` stands for `DecodeHelper.decodeRegion`
      and `copy` for the outcome of `rootDecodeHelper.copy()`; either may throw, and
      `useDecoder` has no `finally`, so a throwing `decodeRegion` leaves its helper
      neither pooled nor closed. */
  function Decode<B>(d: TileDecoder, key: string, srcRect: Rect, sampleSize: int, copy: Result<nat>,
                     decodeRegion: (DecodeHelper, string, Rect, int) -> Result<Option<B>>): (o: DecodeOutcome<B>)
    ensures d.closed ==> o.decoder == d && o.result == Failure(ClosedMessage)
    ensures !d.closed && d.decoderPool == [] && copy.Failure? ==> o.decoder == d && o.result == Failure(copy.error)
    ensures o.result.Success? ==>
              |o.decoder.decoderPool| == |d.decoderPool| + (if d.decoderPool == [] then 1 else 0)
    ensures o.decoder.closedHelpers == d.closedHelpers && o.decoder.closed == d.closed
  {
    if !d.closed && d.decoderPool == [] && copy.Failure? then DecodeOutcome(d, Failure(copy.error))
    else
      match BeginDecode(d, if copy.Success? then copy.value else 0)
      case Failure(e) => DecodeOutcome(d, Failure(e))
      case Success(lease) =>
        match decodeRegion(lease.helper, key, srcRect, sampleSize)
        case Failure(e) => DecodeOutcome(lease.decoder, Failure(e))
        case Success(tileBitmap) => DecodeOutcome(EndDecode(lease.decoder, lease.helper), Success(tileBitmap))
  }

  /** `close()`: the first call marks the decoder closed, closes every pooled helper
      in pool order and clears the pool; later calls do nothing. */
  function Close(d: TileDecoder): (c: TileDecoder)
    ensures c.closed && c.rootDecodeHelper == d.rootDecodeHelper
    ensures !d.closed ==> c.decoderPool == [] && c.closedHelpers == d.closedHelpers + d.decoderPool
    ensures d.closed ==> c == d
  {
    if d.closed then d
    else d.(closed := true, closedHelpers := d.closedHelpers + d.decoderPool, decoderPool := [])
  }

  /** A decode on an open decoder returns exactly what the helper's `decodeRegion`
      returned or threw (`null` included). When it returns, the front helper moves to
      the back of the pool, and with an empty pool the fresh copy stays pooled. */
  lemma {:induction false} SequentialDecodeRotatesPool<B>(d: TileDecoder, key: string, srcRect: Rect,
      sampleSize: int, copyInstance: nat, decodeRegion: (DecodeHelper, string, Rect, int) -> Result<Option<B>>)
    requires !d.closed
    ensures var o := Decode(d, key, srcRect, sampleSize, Success(copyInstance), decodeRegion);
      var helper := if d.decoderPool != [] then d.decoderPool[0] else CopyOf(d.rootDecodeHelper, copyInstance);
      o.result == decodeRegion(helper, key, srcRect, sampleSize)
      && (o.result.Success? ==>
            o.decoder.decoderPool == (if d.decoderPool != [] then d.decoderPool[1..] else []) + [helper]
            && multiset(o.decoder.decoderPool)
               == multiset(d.decoderPool) + (if d.decoderPool != [] then multiset{} else multiset{helper}))
  {
    if d.decoderPool != [] {
      assert d.decoderPool == [d.decoderPool[0]] + d.decoderPool[1..];
    }
  }

  /** A `decodeRegion` that throws loses its helper: the pool no longer holds it and it
      is never closed, so the decoder's helpers shrink by exactly that one. */
  lemma {:induction false} ThrowingDecodeLeaksHelper<B>(d: TileDecoder, key: string, srcRect: Rect,
      sampleSize: int, decodeRegion: (DecodeHelper, string, Rect, int) -> Result<Option<B>>)
    requires Inv(d, multiset{}) && !d.closed && d.decoderPool != []
    requires decodeRegion(d.decoderPool[0], key, srcRect, sampleSize).Failure?
    ensures var o := Decode(d, key, srcRect, sampleSize, Success(0), decodeRegion);
      o.result.Failure?
      && Helpers(o.decoder, multiset{}) == Helpers(d, multiset{}) - multiset{d.decoderPool[0]}
      && Helpers(o.decoder, multiset{})[d.decoderPool[0]] == 0
      && Inv(o.decoder, multiset{})
  {
    var h := d.decoderPool[0];
    assert d.decoderPool == [h] + d.decoderPool[1..];
    var o := Decode(d, key, srcRect, sampleSize, Success(0), decodeRegion);
    assert o.decoder.decoderPool == d.decoderPool[1..];
    assert Helpers(d, multiset{}) == Helpers(o.decoder, multiset{}) + multiset{h};
  }

  /** A `close` between the two halves of a decode: the helper in use is closed when
      the decode ends, after the pooled ones, and is not put back. */
  lemma CloseMidDecodeClosesHelper(d: TileDecoder, copyInstance: nat)
    requires !d.closed
    ensures BeginDecode(d, copyInstance).Success?
    ensures var lease := BeginDecode(d, copyInstance).value;
      var e := EndDecode(Close(lease.decoder), lease.helper);
      e.decoderPool == [] && e.closed
      && e.closedHelpers == lease.decoder.closedHelpers + lease.decoder.decoderPool + [lease.helper]
  {
  }

  /** `close` is idempotent: a second call changes nothing and closes no helper. */
  lemma CloseIsIdempotent(d: TileDecoder)
    ensures Close(Close(d)) == Close(d)
    ensures Close(Close(d)).closedHelpers == Close(d).closedHelpers
  {
  }

  // ---------------------------------------------------------------------------
  // Every helper is closed at most once

  /** All helpers the decoder knows of: pooled, lent out to decodes in progress,
      and closed. */
  ghost function Helpers(d: TileDecoder, lent: multiset<DecodeHelper>): multiset<DecodeHelper> {
    multiset(d.decoderPool) + lent + multiset(d.closedHelpers)
  }

  /** The decoder invariant: a closed decoder has an empty pool, and no helper is
      held in two places (or twice in one). */
  ghost predicate Inv(d: TileDecoder, lent: multiset<DecodeHelper>) {
    (d.closed ==> d.decoderPool == [])
    && forall h :: Helpers(d, lent)[h] <= 1
  }

  lemma NewDecoderSatisfiesInv(root: DecodeHelper)
    ensures Inv(New(root), multiset{})
  {
  }

  /** Beginning a decode keeps the invariant, provided a copy made for an empty pool
      is a new helper. */
  lemma BeginDecodePreservesInv(d: TileDecoder, lent: multiset<DecodeHelper>, copyInstance: nat)
    requires Inv(d, lent) && !d.closed
    requires d.decoderPool == [] ==> Helpers(d, lent)[CopyOf(d.rootDecodeHelper, copyInstance)] == 0
    ensures BeginDecode(d, copyInstance).Success?
    ensures var lease := BeginDecode(d, copyInstance).value;
      Inv(lease.decoder, lent + multiset{lease.helper})
  {
    var lease := BeginDecode(d, copyInstance).value;
    if d.decoderPool != [] {
      assert d.decoderPool == [d.decoderPool[0]] + d.decoderPool[1..];
      assert Helpers(lease.decoder, lent + multiset{lease.helper}) == Helpers(d, lent);
    } else {
      assert Helpers(lease.decoder, lent + multiset{lease.helper}) == Helpers(d, lent) + multiset{lease.helper};
    }
  }

  /** Ending a decode with a lent helper keeps the invariant. */
  lemma EndDecodePreservesInv(d: TileDecoder, lent: multiset<DecodeHelper>, helper: DecodeHelper)
    requires Inv(d, lent) && helper in lent
    ensures Inv(EndDecode(d, helper), lent - multiset{helper})
  {
    assert Helpers(EndDecode(d, helper), lent - multiset{helper}) == Helpers(d, lent);
  }

  /** Closing keeps the invariant. */
  lemma ClosePreservesInv(d: TileDecoder, lent: multiset<DecodeHelper>)
    requires Inv(d, lent)
    ensures Inv(Close(d), lent)
  {
    assert Helpers(Close(d), lent) == Helpers(d, lent);
  }

  /** Under the invariant no helper has been closed twice. */
  lemma {:induction false} HelpersClosedAtMostOnce(d: TileDecoder, lent: multiset<DecodeHelper>)
    requires Inv(d, lent)
    ensures forall i, j :: 0 <= i < j < |d.closedHelpers| ==> d.closedHelpers[i] != d.closedHelpers[j]
  {
    forall i, j | 0 <= i < j < |d.closedHelpers|
      ensures d.closedHelpers[i] != d.closedHelpers[j]
    {
      RepeatCountsTwice(d.closedHelpers, i, j);
      assert Helpers(d, lent)[d.closedHelpers[i]] >= multiset(d.closedHelpers)[d.closedHelpers[i]];
    }
  }

  /** An element at two positions of a sequence occurs at least twice in it. */
  lemma RepeatCountsTwice<T>(s: seq<T>, i: int, j: int)
    requires 0 <= i < j < |s|
    ensures s[i] == s[j] ==> multiset(s)[s[i]] >= 2
  {
    assert s == s[..j] + s[j..];
    assert s[i] in multiset(s[..j]);
    assert s[j] in multiset(s[j..]);
  }
}
